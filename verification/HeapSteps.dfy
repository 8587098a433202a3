/** The steps of the allocator on the heap: which words change, and why the heap stays in order. */
module HeapSteps {
  import opened BinState
  import opened Chunks
  import opened Heap

  // ----- the macros that write heads

  /** The head word at p; a word that was never a head counts as an empty one. */
  function HeadAt(head: map<int, Head>, p: int): Head
  {
    if p in head then head[p] else Head(0, false, false)
  }

  /** set_inuse */
  function SetInuse(head: map<int, Head>, p: int, s: nat): map<int, Head>
  {
    var h := head[p := Head(s, true, HeadAt(head, p).pinuse)];
    h[p + s := HeadAt(h, p + s).(pinuse := true)]
  }

  /** set_inuse_and_pinuse */
  function SetInuseAndPinuse(head: map<int, Head>, p: int, s: nat): map<int, Head>
  {
    var h := head[p := Head(s, true, true)];
    h[p + s := HeadAt(h, p + s).(pinuse := true)]
  }

  /** set_size_and_pinuse_of_inuse_chunk */
  function SetSizeOfInuse(head: map<int, Head>, p: int, s: nat): map<int, Head>
  {
    head[p := Head(s, true, true)]
  }

  /** set_size_and_pinuse_of_free_chunk */
  function SetSizeOfFree(w: HeapWords, p: int, s: nat): (r: HeapWords)
    ensures r.dv == w.dv && r.dvsize == w.dvsize && r.top == w.top && r.topsize == w.topsize
  {
    w.(head := w.head[p := Head(s, false, true)], foot := w.foot[p + s := s])
  }

  /** set_free_with_pinuse */
  function SetFreeWithPinuse(w: HeapWords, p: int, s: nat, n: int): (r: HeapWords)
    ensures r.dv == w.dv && r.dvsize == w.dvsize && r.top == w.top && r.topsize == w.topsize
  {
    SetSizeOfFree(w.(head := w.head[n := HeadAt(w.head, n).(pinuse := false)]), p, s)
  }

  // ----- handing out a free chunk

  /** p, not top, is handed out whole. */
  function Whole(v: View, p: int): View
    requires p in v.t && v.t[p].size > 0
  {
    var s := v.t[p].size;
    var w := if p == v.w.dv then v.w.(dv := 0, dvsize := 0) else v.w;
    View(w.(head := SetInuseAndPinuse(v.w.head, p, s)), Recut(v.t, Cut(p, p + s, p + s, true, true)), v.base, v.end,
         v.binned - {p})
  }

  lemma WholeOk(v: View, p: int)
    requires HeapOk(v) && p in v.t && !v.t[p].used && p != v.w.top
    ensures v.t[p].size > 0 && HeapOk(Whole(v, p)) && Used(Whole(v, p).t) == Used(v.t)[p := v.t[p].size]
    ensures TagsSpare(v.w, Whole(v, p).w, Used(Whole(v, p).t))
  {
    ChunkHere(v, p);
    NextHere(v, p);
    var s := v.t[p].size;
    var c := Cut(p, p + s, p + s, true, true);
    assert CutOk(v.t, v.end, c);
    UsedAfterCut(v, c);
    hide Recut, HeapOk, Used, SetInuseAndPinuse;
    WholeStep(v, p);
    CutKeeps(v, Whole(v, p), c);
  }

  lemma WholeStep(v: View, p: int)
    requires HeapOk(v) && p in v.t && !v.t[p].used && p != v.w.top && v.t[p].size > 0
    ensures CutStep(v, Whole(v, p), Cut(p, p + v.t[p].size, p + v.t[p].size, true, true))
  {
    ChunkHere(v, p);
    ChunkHere(v, v.w.top);
    NextHere(v, p);
    PositiveAddresses(v);
    Alone(v, p);
    assert Tiled(v.t, v.base, v.end);
    hide Tiled, TagsOk;
  }

  /** The heads after a free chunk p of nb + rs bytes is cut: the first part in use, the rest free. */
  function SplitWords(w: HeapWords, p: int, nb: nat, rs: nat): HeapWords
  {
    SetSizeOfFree(w.(head := SetSizeOfInuse(w.head, p, nb)), p + nb, rs)
  }

  /** The chunk p can be cut after nb bytes so that both parts are chunks. */
  predicate Splits(v: View, p: int, nb: nat)
  {
    p in v.t && nb % 8 == 0 && MIN_CHUNK_SIZE <= nb && nb + MIN_CHUNK_SIZE <= v.t[p].size
  }

  function SplitCut(v: View, p: int, nb: nat, second: bool): Cut
    requires p in v.t
  {
    Cut(p, p + nb, p + v.t[p].size, true, second)
  }

  /** The binned chunk p is cut and the rest goes back to a bin. */
  function SplitToBin(v: View, p: int, nb: nat): View
    requires Splits(v, p, nb)
  {
    var rs := v.t[p].size - nb;
    View(SplitWords(v.w, p, nb, rs), Recut(v.t, SplitCut(v, p, nb, false)), v.base, v.end, (v.binned - {p})[p + nb := rs])
  }

  /** p is cut and the rest becomes the designated victim. */
  function SplitToDv(v: View, p: int, nb: nat): View
    requires Splits(v, p, nb)
  {
    var rs := v.t[p].size - nb;
    View(SplitWords(v.w, p, nb, rs).(dv := p + nb, dvsize := rs), Recut(v.t, SplitCut(v, p, nb, false)), v.base, v.end,
         v.binned - {p})
  }

  /** top is cut and the rest stays top. */
  function SplitTop(v: View, nb: nat): View
    requires v.w.top in v.t && 0 < nb < v.t[v.w.top].size
  {
    var p, rs := v.w.top, v.t[v.w.top].size - nb;
    View(v.w.(head := SetSizeOfInuse(v.w.head[p + nb := Head(rs, false, true)], p, nb), top := p + nb, topsize := rs),
         Recut(v.t, SplitCut(v, p, nb, false)), v.base, v.end, v.binned)
  }

  lemma SplitTags(v: View, p: int, nb: nat, w': HeapWords)
    requires HeapOk(v) && Splits(v, p, nb) && !v.t[p].used && p != v.w.top
    requires var w := SplitWords(v.w, p, nb, v.t[p].size - nb); w'.head == w.head && w'.foot == w.foot
    ensures CutOk(v.t, v.end, SplitCut(v, p, nb, false)) && CutTags(v.t, v.w, w', v.end, SplitCut(v, p, nb, false))
    ensures EndMarked(v.(w := w'))
  {
    ChunkHere(v, p);
    NextHere(v, p);
    Alone(v, p);
    hide AllFiled, FiledOk, Tiled, TagsOk;
  }

  lemma SplitToBinOk(v: View, p: int, nb: nat)
    requires HeapOk(v) && Splits(v, p, nb) && p in v.binned
    ensures HeapOk(SplitToBin(v, p, nb)) && Used(SplitToBin(v, p, nb).t) == Used(v.t)[p := nb]
    ensures TagsSpare(v.w, SplitToBin(v, p, nb).w, Used(SplitToBin(v, p, nb).t))
  {
    ChunkHere(v, p);
    UsedAfterCut(v, SplitCut(v, p, nb, false));
    SplitToBinStep(v, p, nb);
    CutKeeps(v, SplitToBin(v, p, nb), SplitCut(v, p, nb, false));
  }

  lemma SplitToBinStep(v: View, p: int, nb: nat)
    requires HeapOk(v) && Splits(v, p, nb) && p in v.binned
    ensures CutStep(v, SplitToBin(v, p, nb), SplitCut(v, p, nb, false))
  {
    ChunkHere(v, p);
    ChunkHere(v, v.w.top);
    NextHere(v, p);
    PositiveAddresses(v);
    Alone(v, p);
    SplitTags(v, p, nb, SplitToBin(v, p, nb).w);
    hide Tiled, TagsOk, CutTags;
  }

  lemma SplitToDvOk(v: View, p: int, nb: nat)
    requires HeapOk(v) && Splits(v, p, nb) && if v.w.dv == 0 then p in v.binned else p == v.w.dv
    ensures HeapOk(SplitToDv(v, p, nb)) && Used(SplitToDv(v, p, nb).t) == Used(v.t)[p := nb]
    ensures TagsSpare(v.w, SplitToDv(v, p, nb).w, Used(SplitToDv(v, p, nb).t))
  {
    ChunkHere(v, p);
    UsedAfterCut(v, SplitCut(v, p, nb, false));
    SplitToDvStep(v, p, nb);
    CutKeeps(v, SplitToDv(v, p, nb), SplitCut(v, p, nb, false));
  }

  lemma SplitToDvStep(v: View, p: int, nb: nat)
    requires HeapOk(v) && Splits(v, p, nb) && if v.w.dv == 0 then p in v.binned else p == v.w.dv
    ensures CutStep(v, SplitToDv(v, p, nb), SplitCut(v, p, nb, false))
  {
    ChunkHere(v, p);
    ChunkHere(v, v.w.top);
    NextHere(v, p);
    PositiveAddresses(v);
    Alone(v, p);
    SplitTags(v, p, nb, SplitToDv(v, p, nb).w);
    hide Tiled, TagsOk, CutTags;
  }

  lemma SplitTopOk(v: View, nb: nat)
    requires HeapOk(v) && MIN_CHUNK_SIZE <= nb < v.w.topsize && nb % 8 == 0
    ensures v.w.top in v.t && nb < v.t[v.w.top].size && !v.t[v.w.top].used
    ensures HeapOk(SplitTop(v, nb)) && Used(SplitTop(v, nb).t) == Used(v.t)[v.w.top := nb]
    ensures TagsSpare(v.w, SplitTop(v, nb).w, Used(SplitTop(v, nb).t))
  {
    ChunkHere(v, v.w.top);
    UsedAfterCut(v, SplitCut(v, v.w.top, nb, false));
    SplitTopStep(v, nb);
    CutKeeps(v, SplitTop(v, nb), SplitCut(v, v.w.top, nb, false));
  }

  lemma SplitTopStep(v: View, nb: nat)
    requires HeapOk(v) && MIN_CHUNK_SIZE <= nb < v.w.topsize && nb % 8 == 0 && v.w.top in v.t && nb < v.t[v.w.top].size
    ensures CutStep(v, SplitTop(v, nb), SplitCut(v, v.w.top, nb, false))
  {
    ChunkHere(v, v.w.top);
    PositiveAddresses(v);
    Alone(v, v.w.top);
    hide Tiled, TagsOk;
  }

  /** The first half of replace_dv: the old victim, if any, goes to a bin. */
  function FileDv(v: View): View
  {
    if v.w.dv == 0 then v else v.(w := v.w.(dv := 0, dvsize := 0), binned := v.binned[v.w.dv := v.w.dvsize])
  }

  lemma FileDvOk(v: View)
    requires HeapOk(v)
    ensures HeapOk(FileDv(v)) && FileDv(v).w.dv == 0
  {
    PositiveAddresses(v);
    hide Tiled, TagsOk;
    forall q | q in v.t ensures FiledOk(FileDv(v), q) { assert FiledOk(v, q); }
  }

  /** The binned chunk p is cut, the rest becomes dv, and the old dv, if any, goes to a bin. */
  function SplitReplacingDv(v: View, p: int, nb: nat): View
    requires Splits(v, p, nb)
  {
    var rs, rest := v.t[p].size - nb, v.binned - {p};
    View(SplitWords(v.w, p, nb, rs).(dv := p + nb, dvsize := rs), Recut(v.t, SplitCut(v, p, nb, false)), v.base, v.end,
         if v.w.dv == 0 then rest else rest[v.w.dv := v.w.dvsize])
  }

  lemma FileThenSplit(v: View, p: int, nb: nat)
    requires Splits(v, p, nb) && p in v.binned && p != v.w.dv
    ensures SplitReplacingDv(v, p, nb) == SplitToDv(FileDv(v), p, nb)
  {
    hide Recut;
    assert v.binned[v.w.dv := v.w.dvsize] - {p} == (v.binned - {p})[v.w.dv := v.w.dvsize];
  }

  lemma SameTags(w: HeapWords, w1: HeapWords, w': HeapWords, u: map<int, nat>)
    requires w1.head == w.head && w1.foot == w.foot && TagsSpare(w, w', u)
    ensures TagsSpare(w1, w', u)
  {}

  lemma SplitReplacingDvOk(v: View, p: int, nb: nat)
    requires HeapOk(v) && Splits(v, p, nb) && p in v.binned
    ensures HeapOk(SplitReplacingDv(v, p, nb)) && Used(SplitReplacingDv(v, p, nb).t) == Used(v.t)[p := nb]
    ensures TagsSpare(v.w, SplitReplacingDv(v, p, nb).w, Used(SplitReplacingDv(v, p, nb).t))
  {
    ChunkHere(v, p);
    hide HeapOk;
    FileDvOk(v);
    assert FileDv(v).w.head == v.w.head && FileDv(v).w.foot == v.w.foot;
    FileThenSplit(v, p, nb);
    SplitToDvOk(FileDv(v), p, nb);
    SameTags(FileDv(v).w, v.w, SplitReplacingDv(v, p, nb).w, Used(SplitReplacingDv(v, p, nb).t));
    hide *;
  }
}
