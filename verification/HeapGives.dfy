/** Chunks coming back to the heap: coalescing with the neighbours, and more room at the end of the segment. */
module HeapGives {
  import opened TreeIndex
  import opened BinState
  import opened Chunks
  import opened Heap
  import opened HeapSteps

  // ----- coalescing

  /** A chunk in use, with another behind it as every chunk in use has. */
  predicate InUse(v: View, p: int)
  {
    p in v.t && v.t[p].used && p in v.w.head && (!v.w.head[p].pinuse ==> p in v.w.foot && v.w.foot[p] > 0) &&
    v.t[p].size > 0 && p + v.t[p].size in v.t && p + v.t[p].size in v.w.head
  }

  function NextOf(v: View, p: int): int
    requires p in v.t
  {
    p + v.t[p].size
  }

  /** Where the free chunk starts that p becomes part of. */
  function Start(v: View, p: int): int
    requires InUse(v, p)
  {
    if v.w.head[p].pinuse then p else p - v.w.foot[p]
  }

  /** Where it ends. */
  function Stop(v: View, p: int): int
    requires InUse(v, p)
  {
    var n := NextOf(v, p);
    if v.t[n].used then n else n + v.t[n].size
  }

  function ReleaseCut(v: View, p: int): Cut
    requires InUse(v, p)
  {
    Cut(Start(v, p), Stop(v, p), Stop(v, p), false, false)
  }

  /** The words after p, merged with its free neighbours, is top, the designated victim, or an ordinary free chunk. */
  function ReleaseWords(v: View, p: int): HeapWords
    requires InUse(v, p)
  {
    var a, n, size := Start(v, p), NextOf(v, p), Stop(v, p) - Start(v, p);
    if n == v.w.top then
      var w := if a == v.w.dv then v.w.(dv := 0, dvsize := 0) else v.w;
      w.(head := v.w.head[a := Head(size, false, true)], top := a, topsize := size)
    else
      var w := if v.t[n].used then SetFreeWithPinuse(v.w, a, size, n) else SetSizeOfFree(v.w, a, size);
      if a == v.w.dv || n == v.w.dv then w.(dv := a, dvsize := size) else w
  }

  /** The chunk that p becomes part of is filed in a bin. */
  predicate GoesToBin(v: View, p: int)
    requires InUse(v, p)
  {
    NextOf(v, p) != v.w.top && NextOf(v, p) != v.w.dv && Start(v, p) != v.w.dv
  }

  function Release(v: View, p: int): View
    requires InUse(v, p)
  {
    var rest := v.binned - {Start(v, p), NextOf(v, p)};
    View(ReleaseWords(v, p), Recut(v.t, ReleaseCut(v, p)), v.base, v.end,
         if GoesToBin(v, p) then rest[Start(v, p) := Stop(v, p) - Start(v, p)] else rest)
  }

  /** The chunk before p, p itself and the one behind it. */
  lemma Neighbourhood(v: View, p: int)
    requires HeapOk(v) && p in v.t && v.t[p].used
    ensures InUse(v, p)
    ensures var a, n, e := Start(v, p), NextOf(v, p), Stop(v, p);
            a in v.t && 0 < a <= p < n <= e <= v.end && (e == v.end || e in v.t) && e % 8 == 0 &&
            (a != p ==> a + v.t[a].size == p && !v.t[a].used && a != v.w.top) && a in v.w.head && v.w.head[a].pinuse &&
            (n != e ==> !v.t[n].used && n + v.t[n].size == e && (e == v.end <==> n == v.w.top)) && n in v.t &&
            n != v.end &&
            (e != v.end ==> v.t[e].used && e in v.w.head) && e - a >= MIN_CHUNK_SIZE && (n == e <==> v.t[n].used) &&
            e - a < WORD
  {
    ChunkHere(v, p);
    ChunkHere(v, v.w.top);
    NextHere(v, p);
    var n := NextOf(v, p);
    ChunkHere(v, n);
    var a := Start(v, p);
    ChunkHere(v, a);
    assert a == v.w.top ==> a == p;
    var e := Stop(v, p);
    if n != v.w.top { NextHere(v, n); } else { assert e == v.end; }
    if e != v.end { ChunkHere(v, e); }
  }

  lemma OnlyNeighbours(v: View, p: int)
    requires HeapOk(v) && p in v.t && v.t[p].used && InUse(v, p)
    ensures forall q :: q in v.t && Start(v, p) <= q < Stop(v, p) ==> q == Start(v, p) || q == p || q == NextOf(v, p)
  {
    Neighbourhood(v, p);
    Alone(v, Start(v, p));
    Alone(v, p);
    Alone(v, NextOf(v, p));
  }

  lemma ReleaseTags(v: View, p: int)
    requires HeapOk(v) && p in v.t && v.t[p].used && InUse(v, p)
    ensures CutOk(v.t, v.end, ReleaseCut(v, p)) && CutTags(v.t, v.w, ReleaseWords(v, p), v.end, ReleaseCut(v, p))
    ensures EndMarked(v.(w := ReleaseWords(v, p)))
  {
    Neighbourhood(v, p);
    OnlyNeighbours(v, p);
    ChunkHere(v, NextOf(v, p));
    assert CutOk(v.t, v.end, ReleaseCut(v, p));
    hide AllFiled, FiledOk, Tiled, TagsOk, CutOk, InUse;
  }

  /** The merged chunk is filed as top, dv or in a bin. */
  lemma ReleasedFiled(v: View, p: int)
    requires HeapOk(v) && p in v.t && v.t[p].used && InUse(v, p)
    ensures FiledOk(Release(v, p), Start(v, p))
  {
    Neighbourhood(v, p);
    PositiveAddresses(v);
    ChunkHere(v, p);
    ChunkHere(v, Start(v, p));
    ChunkHere(v, NextOf(v, p));
    hide HeapOk, InUse, CellOk, TagOk, ChunkSize;
  }

  /** The other chunks stay filed as they are. */
  lemma OthersFiled(v: View, p: int, q: int)
    requires HeapOk(v) && p in v.t && v.t[p].used && InUse(v, p)
    requires q in v.t && !ReleaseCut(v, p).Inside(q)
    ensures SameFiling(v, Release(v, p), q)
  {
    Neighbourhood(v, p);
    PositiveAddresses(v);
    ChunkHere(v, NextOf(v, p));
    hide HeapOk, InUse, CellOk, TagOk, ChunkSize, Recut;
  }

  /** Whatever is filed afterwards is a cell. */
  lemma FiledCells(v: View, p: int)
    requires HeapOk(v) && p in v.t && v.t[p].used && InUse(v, p)
    ensures var v' := Release(v, p);
            (forall q :: q in v'.binned ==> q in v'.t) && v'.w.top in v'.t && (v'.w.dv != 0 ==> v'.w.dv in v'.t) &&
            (v'.w.dv == 0 ==> v'.w.dvsize == 0)
  {
    Neighbourhood(v, p);
    OnlyNeighbours(v, p);
    PositiveAddresses(v);
    RecutCells(v.t, ReleaseCut(v, p));
    ChunkHere(v, NextOf(v, p));
    ChunkHere(v, v.w.top);
    if v.w.dv != 0 { ChunkHere(v, v.w.dv); }
    hide HeapOk, InUse, CellOk, TagOk, ChunkSize, Recut;
  }

  lemma ReleaseFiling(v: View, p: int)
    requires HeapOk(v) && p in v.t && v.t[p].used && InUse(v, p)
    ensures CutFiling(v, Release(v, p), ReleaseCut(v, p))
  {
    ReleasedFiled(v, p);
    FiledCells(v, p);
    Neighbourhood(v, p);
    hide HeapOk, InUse, FiledOk, SameFiling, ReleaseWords;
    forall q | q in v.t && !ReleaseCut(v, p).Inside(q) ensures SameFiling(v, Release(v, p), q) { OthersFiled(v, p, q); }
    hide Release;
  }

  lemma ReleaseOk(v: View, p: int)
    requires HeapOk(v) && p in v.t && v.t[p].used
    ensures InUse(v, p) && HeapOk(Release(v, p)) && Used(Release(v, p).t) == Used(v.t) - {p}
    ensures TagsSpare(v.w, Release(v, p).w, Used(Release(v, p).t))
  {
    Neighbourhood(v, p);
    ReleaseTags(v, p);
    ReleaseFiling(v, p);
    OnlyNeighbours(v, p);
    assert CutStep(v, Release(v, p), ReleaseCut(v, p));
    CutKeeps(v, Release(v, p), ReleaseCut(v, p));
    hide HeapOk, CutStep, CutOk, CutTags, CutFiling, ReleaseWords;
  }
}
