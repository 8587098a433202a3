/** A chunk in use cut in two or grown into the free chunk behind it, and the segment itself growing. */
module HeapGrows {
  import opened TreeIndex
  import opened BinState
  import opened Chunks
  import opened Heap
  import opened HeapSteps

  // ----- cutting a chunk in use

  /** Both parts stay in use; the second is then given back. */
  function SplitUsed(v: View, p: int, nb: nat): View
    requires Splits(v, p, nb)
  {
    View(v.w.(head := SetInuse(SetInuse(v.w.head, p, nb), p + nb, v.t[p].size - nb)),
         Recut(v.t, SplitCut(v, p, nb, true)), v.base, v.end, v.binned)
  }

  /** The two calls of set_inuse leave the tags that two chunks in use need. */
  lemma InuseTags(v: View, c: Cut, w': HeapWords)
    requires EndMarked(v) && c.a < c.m <= c.e < v.end && c.first && c.second && c.a in v.w.head && c.e in v.w.head
    requires var h := SetInuse(v.w.head, c.a, c.m - c.a);
             w'.head == (if c.Two() then SetInuse(h, c.m, c.e - c.m) else h) && w'.foot == v.w.foot
    ensures CutTags(v.t, v.w, w', v.end, c) && EndMarked(v.(w := w'))
  {}

  lemma SplitUsedFiling(v: View, p: int, nb: nat)
    requires HeapOk(v) && Splits(v, p, nb) && v.t[p].used
    ensures CutFiling(v, SplitUsed(v, p, nb), SplitCut(v, p, nb, true))
  {
    ChunkHere(v, p);
    ChunkHere(v, v.w.top);
    NextHere(v, p);
    PositiveAddresses(v);
    Alone(v, p);
    hide Tiled, TagsOk, TagOk, CellOk;
  }

  lemma SplitUsedOk(v: View, p: int, nb: nat)
    requires HeapOk(v) && Splits(v, p, nb) && v.t[p].used
    ensures HeapOk(SplitUsed(v, p, nb))
    ensures Used(SplitUsed(v, p, nb).t) == Used(v.t)[p := nb][p + nb := v.t[p].size - nb]
    ensures p + nb in SplitUsed(v, p, nb).t && p + nb !in v.t
    ensures TagsSpare(v.w, SplitUsed(v, p, nb).w, Used(SplitUsed(v, p, nb).t))
  {
    ChunkHere(v, p);
    NothingInside(v, p, p + nb);
    UsedAfterCut(v, SplitCut(v, p, nb, true));
    SplitUsedFiling(v, p, nb);
    NextHere(v, p);
    InuseTags(v, SplitCut(v, p, nb, true), SplitUsed(v, p, nb).w);
    hide CutFiling, CutTags, AllFiled, FiledOk, SetInuse;
    assert CutStep(v, SplitUsed(v, p, nb), SplitCut(v, p, nb, true));
    hide *;
    CutKeeps(v, SplitUsed(v, p, nb), SplitCut(v, p, nb, true));
  }

  // ----- growing into the chunk behind

  /** p is in use and the chunk behind it is free. */
  predicate Grows(v: View, p: int)
  {
    p in v.t && v.t[p].used && v.t[p].size > 0 && p + v.t[p].size in v.t && !v.t[p + v.t[p].size].used &&
    v.t[p + v.t[p].size].size > 0
  }

  /** The size of p together with the free chunk behind it. */
  function Joint(v: View, p: int): nat
    requires Grows(v, p)
  {
    v.t[p].size + v.t[p + v.t[p].size].size
  }

  function GrowCut(v: View, p: int, nb: nat, second: bool): Cut
    requires Grows(v, p)
  {
    Cut(p, p + nb, p + Joint(v, p), true, second)
  }

  /** p takes the whole of the free chunk behind it, which was in a bin or dv. */
  function GrowWhole(v: View, p: int): View
    requires Grows(v, p)
  {
    var n, s := p + v.t[p].size, Joint(v, p);
    var w := if n == v.w.dv then v.w.(dv := 0, dvsize := 0) else v.w;
    View(w.(head := SetInuse(v.w.head, p, s)), Recut(v.t, GrowCut(v, p, s, true)), v.base, v.end, v.binned - {n})
  }

  /** The chunk behind p was in a bin; what p does not need of it is a chunk in use, to be given back. */
  function GrowPart(v: View, p: int, nb: nat): View
    requires Grows(v, p) && 0 < nb < Joint(v, p)
  {
    var n, s := p + v.t[p].size, Joint(v, p);
    View(v.w.(head := SetInuse(SetInuse(v.w.head, p, nb), p + nb, s - nb)), Recut(v.t, GrowCut(v, p, nb, true)),
         v.base, v.end, v.binned - {n})
  }

  /** The chunk behind p was dv, and what is left of it stays dv. */
  function GrowIntoDv(v: View, p: int, nb: nat): View
    requires Grows(v, p) && 0 < nb < Joint(v, p)
  {
    var r, s := p + nb, Joint(v, p);
    var w := SetSizeOfFree(v.w.(head := SetInuse(v.w.head, p, nb)), r, s - nb);
    View(w.(head := w.head[p + s := HeadAt(w.head, p + s).(pinuse := false)], dv := r, dvsize := s - nb),
         Recut(v.t, GrowCut(v, p, nb, false)), v.base, v.end, v.binned)
  }

  /** The chunk behind p was top, and what is left of it stays top. */
  function GrowIntoTop(v: View, p: int, nb: nat): View
    requires Grows(v, p) && 0 < nb < Joint(v, p)
  {
    var r, s := p + nb, Joint(v, p);
    View(v.w.(head := SetInuse(v.w.head, p, nb)[r := Head(s - nb, false, true)], top := r, topsize := s - nb),
         Recut(v.t, GrowCut(v, p, nb, false)), v.base, v.end, v.binned)
  }

  /** What is around p when the chunk behind it is free. */
  lemma GrowHere(v: View, p: int)
    requires HeapOk(v) && Grows(v, p)
    ensures var n, e := p + v.t[p].size, p + Joint(v, p);
            0 < p && p % 8 == 0 && e % 8 == 0 && e <= v.end && (e == v.end <==> n == v.w.top) &&
            (e == v.end || (e in v.t && v.t[e].used)) &&
            n in v.w.head && e in v.w.head && n != v.end && p in v.w.head && v.t[p].size >= MIN_CHUNK_SIZE &&
            e < WORD &&
            TagOk(v.t, v.w.head, v.w.foot, v.end, p) && TagOk(v.t, v.w.head, v.w.foot, v.end, n) &&
            FiledOk(v, n) && FiledOk(v, p)
    ensures forall q :: q in v.t && p <= q < p + Joint(v, p) ==> q == p || q == p + v.t[p].size
  {
    var n := p + v.t[p].size;
    ChunkHere(v, p);
    ChunkHere(v, n);
    ChunkHere(v, v.w.top);
    Alone(v, p);
    Alone(v, n);
    if n != v.w.top { NextHere(v, n); ChunkHere(v, n + v.t[n].size); }
  }

  lemma GrowCutOk(v: View, p: int, nb: nat, second: bool)
    requires HeapOk(v) && Grows(v, p) && 0 < nb <= Joint(v, p) && nb % 8 == 0
    ensures CutOk(v.t, v.end, GrowCut(v, p, nb, second))
  {
    GrowHere(v, p);
    hide HeapOk, TagOk, FiledOk, Joint;
    Sum8(p, nb);
  }

  /** What is handed out afterwards: p has grown, and what it does not need may be another block. */
  lemma UsedAfterGrow(v: View, p: int, nb: nat, second: bool)
    requires HeapOk(v) && Grows(v, p) && 0 < nb <= Joint(v, p)
    ensures var u := Used(v.t)[p := nb];
            Used(Recut(v.t, GrowCut(v, p, nb, second))) ==
            if nb < Joint(v, p) && second then u[p + nb := Joint(v, p) - nb] else u
  {
    GrowHere(v, p);
    RecutCells(v.t, GrowCut(v, p, nb, second));
    hide HeapOk, TagOk, FiledOk, Recut;
  }

  lemma GrowWholeOk(v: View, p: int)
    requires HeapOk(v) && Grows(v, p) && p + v.t[p].size != v.w.top
    ensures HeapOk(GrowWhole(v, p)) && Used(GrowWhole(v, p).t) == Used(v.t)[p := Joint(v, p)]
    ensures TagsSpare(v.w, GrowWhole(v, p).w, Used(GrowWhole(v, p).t))
  {
    GrowHere(v, p);
    GrowCutOk(v, p, Joint(v, p), true);
    UsedAfterGrow(v, p, Joint(v, p), true);
    GrowWholeFiling(v, p);
    InuseTags(v, GrowCut(v, p, Joint(v, p), true), GrowWhole(v, p).w);
    hide CutOk, CutFiling, CutTags, AllFiled, FiledOk, TagOk, SetInuse, Recut, Used;
    assert CutStep(v, GrowWhole(v, p), GrowCut(v, p, Joint(v, p), true));
    hide *;
    CutKeeps(v, GrowWhole(v, p), GrowCut(v, p, Joint(v, p), true));
  }

  lemma GrowWholeFiling(v: View, p: int)
    requires HeapOk(v) && Grows(v, p) && p + v.t[p].size != v.w.top
    ensures CutFiling(v, GrowWhole(v, p), GrowCut(v, p, Joint(v, p), true))
  {
    GrowHere(v, p);
    PositiveAddresses(v);
    ChunkHere(v, v.w.top);
    hide Tiled, TagsOk, TagOk, CellOk;
  }

  lemma GrowPartOk(v: View, p: int, nb: nat)
    requires HeapOk(v) && Grows(v, p) && p + v.t[p].size in v.binned
    requires nb % 8 == 0 && MIN_CHUNK_SIZE <= nb && nb + MIN_CHUNK_SIZE <= Joint(v, p)
    ensures HeapOk(GrowPart(v, p, nb)) && Used(GrowPart(v, p, nb).t) == Used(v.t)[p := nb][p + nb := Joint(v, p) - nb]
    ensures p + nb in GrowPart(v, p, nb).t
    ensures TagsSpare(v.w, GrowPart(v, p, nb).w, Used(GrowPart(v, p, nb).t))
  {
    GrowHere(v, p);
    GrowCutOk(v, p, nb, true);
    UsedAfterGrow(v, p, nb, true);
    RecutCells(v.t, GrowCut(v, p, nb, true));
    GrowPartFiling(v, p, nb);
    InuseTags(v, GrowCut(v, p, nb, true), GrowPart(v, p, nb).w);
    hide CutOk, CutFiling, CutTags, AllFiled, FiledOk, TagOk, SetInuse, Recut, Used;
    assert CutStep(v, GrowPart(v, p, nb), GrowCut(v, p, nb, true));
    hide *;
    CutKeeps(v, GrowPart(v, p, nb), GrowCut(v, p, nb, true));
  }

  lemma GrowPartFiling(v: View, p: int, nb: nat)
    requires HeapOk(v) && Grows(v, p) && p + v.t[p].size in v.binned
    requires nb % 8 == 0 && MIN_CHUNK_SIZE <= nb && nb + MIN_CHUNK_SIZE <= Joint(v, p)
    ensures CutFiling(v, GrowPart(v, p, nb), GrowCut(v, p, nb, true))
  {
    GrowHere(v, p);
    PositiveAddresses(v);
    ChunkHere(v, v.w.top);
    hide Tiled, TagsOk, TagOk, CellOk;
  }

  lemma GrowIntoDvOk(v: View, p: int, nb: nat)
    requires HeapOk(v) && Grows(v, p) && p + v.t[p].size == v.w.dv
    requires nb % 8 == 0 && v.t[p].size <= nb && nb + MIN_CHUNK_SIZE <= Joint(v, p)
    ensures HeapOk(GrowIntoDv(v, p, nb)) && Used(GrowIntoDv(v, p, nb).t) == Used(v.t)[p := nb]
    ensures TagsSpare(v.w, GrowIntoDv(v, p, nb).w, Used(GrowIntoDv(v, p, nb).t))
  {
    GrowHere(v, p);
    GrowCutOk(v, p, nb, false);
    UsedAfterGrow(v, p, nb, false);
    GrowIntoDvFiling(v, p, nb);
    GrowIntoDvTags(v, p, nb);
    hide CutOk, CutFiling, CutTags, AllFiled, FiledOk, TagOk, SetInuse, Recut, Used;
    assert CutStep(v, GrowIntoDv(v, p, nb), GrowCut(v, p, nb, false));
    hide *;
    CutKeeps(v, GrowIntoDv(v, p, nb), GrowCut(v, p, nb, false));
  }

  lemma GrowIntoDvTags(v: View, p: int, nb: nat)
    requires HeapOk(v) && Grows(v, p) && p + v.t[p].size == v.w.dv
    requires nb % 8 == 0 && v.t[p].size <= nb && nb + MIN_CHUNK_SIZE <= Joint(v, p)
    ensures var w := GrowIntoDv(v, p, nb).w; CutTags(v.t, v.w, w, v.end, GrowCut(v, p, nb, false)) && EndMarked(v.(w := w))
  {
    GrowHere(v, p);
    ChunkHere(v, v.w.top);
    hide Tiled, TagsOk, AllFiled, FiledOk;
  }

  lemma GrowIntoDvFiling(v: View, p: int, nb: nat)
    requires HeapOk(v) && Grows(v, p) && p + v.t[p].size == v.w.dv
    requires nb % 8 == 0 && v.t[p].size <= nb && nb + MIN_CHUNK_SIZE <= Joint(v, p)
    ensures CutFiling(v, GrowIntoDv(v, p, nb), GrowCut(v, p, nb, false))
  {
    GrowHere(v, p);
    PositiveAddresses(v);
    ChunkHere(v, v.w.top);
    hide Tiled, TagsOk, TagOk, CellOk;
  }

  lemma GrowIntoTopOk(v: View, p: int, nb: nat)
    requires HeapOk(v) && Grows(v, p) && p + v.t[p].size == v.w.top && nb % 8 == 0 && v.t[p].size <= nb < Joint(v, p)
    ensures HeapOk(GrowIntoTop(v, p, nb)) && Used(GrowIntoTop(v, p, nb).t) == Used(v.t)[p := nb]
    ensures TagsSpare(v.w, GrowIntoTop(v, p, nb).w, Used(GrowIntoTop(v, p, nb).t))
  {
    GrowHere(v, p);
    GrowCutOk(v, p, nb, false);
    UsedAfterGrow(v, p, nb, false);
    GrowIntoTopTags(v, p, nb);
    GrowIntoTopFiling(v, p, nb);
    hide CutOk, CutFiling, CutTags, AllFiled, FiledOk, TagOk, SetInuse, Recut, Used;
    assert CutStep(v, GrowIntoTop(v, p, nb), GrowCut(v, p, nb, false));
    hide *;
    CutKeeps(v, GrowIntoTop(v, p, nb), GrowCut(v, p, nb, false));
  }

  lemma GrowIntoTopTags(v: View, p: int, nb: nat)
    requires HeapOk(v) && Grows(v, p) && p + v.t[p].size == v.w.top && nb % 8 == 0 && v.t[p].size <= nb < Joint(v, p)
    ensures var w := GrowIntoTop(v, p, nb).w;
            CutTags(v.t, v.w, w, v.end, GrowCut(v, p, nb, false)) && EndMarked(v.(w := w))
  {
    GrowHere(v, p);
    hide Tiled, TagsOk, AllFiled, FiledOk, Recut;
  }

  lemma GrowIntoTopFiling(v: View, p: int, nb: nat)
    requires HeapOk(v) && Grows(v, p) && p + v.t[p].size == v.w.top && nb % 8 == 0 && v.t[p].size <= nb < Joint(v, p)
    ensures CutFiling(v, GrowIntoTop(v, p, nb), GrowCut(v, p, nb, false))
  {
    GrowHere(v, p);
    PositiveAddresses(v);
    ChunkHere(v, v.w.top);
    hide Tiled, TagsOk, TagOk, CellOk;
  }

  // ----- the segment

  /** init_top: top starts at p and takes up to TOP_FOOT_SIZE before the end of the segment. */
  function InitTop(w: HeapWords, p: int, size: nat): HeapWords
  {
    w.(top := p, topsize := size,
       head := w.head[p := Head(size, false, true)][p + size := Head(TOP_FOOT_SIZE, false, false)])
  }

  /** The heap before the first request: no segment, no chunks. */
  predicate NoHeap(v: View)
  {
    v.w.dv == 0 && v.w.dvsize == 0 && v.w.top == 0 && v.w.topsize == 0 && v.t == map[] && v.binned == map[]
  }

  function FirstTop(v: View, base: int, size: nat): View
  {
    View(InitTop(v.w, base, size), map[base := Cell(size, false)], base, base + size, map[])
  }

  lemma FirstTopOk(v: View, base: int, size: nat)
    requires NoHeap(v) && 0 < base && base % 8 == 0 && 0 < size && size % 8 == 0 && base + size < WORD - TOP_FOOT_SIZE
    ensures HeapOk(FirstTop(v, base, size)) && Used(FirstTop(v, base, size).t) == Used(v.t)
  {}

  /** The segment is extended and top with it. */
  function MoreTop(v: View, more: nat): View
    requires v.w.top in v.t
  {
    View(InitTop(v.w, v.w.top, v.w.topsize + more), v.t[v.w.top := Cell(v.w.topsize + more, false)], v.base,
         v.end + more, v.binned)
  }

  lemma MoreTopTiled(v: View, more: nat)
    requires HeapOk(v) && more % 8 == 0 && v.end + more < WORD - TOP_FOOT_SIZE
    ensures v.w.top in v.t && Tiled(MoreTop(v, more).t, v.base, v.end + more)
  {
    hide HeapOk, CellOk, Ordered, InitTop;
    SegmentBounds(v);
    var t' := MoreTop(v, more).t;
    forall p | p in v.t ensures CellOk(t', v.base, v.end + more, p) { MoreTopCell(v, more, p); }
    forall p, q ensures Ordered(t', p, q) { MoreTopOrdered(v, more, p, q); }
  }

  lemma SegmentBounds(v: View)
    requires HeapOk(v)
    ensures v.w.top in v.t && v.base in v.t && 0 < v.base < v.end && v.end % 8 == 0
  {}

  lemma MoreTopOrdered(v: View, more: nat, p: int, q: int)
    requires HeapOk(v) && v.w.top in v.t
    ensures Ordered(MoreTop(v, more).t, p, q)
  {
    ChunkHere(v, v.w.top);
    assert Ordered(v.t, p, q);
    assert q in v.t ==> CellOk(v.t, v.base, v.end, q);
    hide Tiled, TagsOk, AllFiled;
  }

  lemma MoreTopCell(v: View, more: nat, p: int)
    requires HeapOk(v) && more % 8 == 0 && v.end + more < WORD - TOP_FOOT_SIZE && p in v.t && v.w.top in v.t
    ensures CellOk(MoreTop(v, more).t, v.base, v.end + more, p)
  {
    ChunkHere(v, v.w.top);
    ChunkHere(v, p);
    if p != v.w.top { NextHere(v, p); }
    hide Tiled, TagsOk, AllFiled;
  }

  lemma MoreTopChunk(v: View, more: nat, p: int)
    requires HeapOk(v) && more % 8 == 0 && v.end + more < WORD - TOP_FOOT_SIZE && p in v.t && v.w.top in v.t
    ensures var v' := MoreTop(v, more); TagOk(v'.t, v'.w.head, v'.w.foot, v'.end, p) && FiledOk(v', p)
  {
    ChunkHere(v, v.w.top);
    ChunkHere(v, p);
    if p != v.w.top { NextHere(v, p); }
    if !v.w.head[p].pinuse { ChunkHere(v, p - v.w.foot[p]); }
    hide Tiled, TagsOk, AllFiled;
  }

  lemma MoreTopOk(v: View, more: nat)
    requires HeapOk(v) && more % 8 == 0 && v.end + more < WORD - TOP_FOOT_SIZE
    ensures v.w.top in v.t && HeapOk(MoreTop(v, more)) && Used(MoreTop(v, more).t) == Used(v.t)
    ensures TagsSpare(v.w, MoreTop(v, more).w, Used(v.t))
  {
    MoreTopTiled(v, more);
    var v' := MoreTop(v, more);
    forall p | p in v.t ensures TagOk(v'.t, v'.w.head, v'.w.foot, v'.end, p) && FiledOk(v', p) {
      MoreTopChunk(v, more, p);
    }
    ChunkHere(v, v.w.top);
    ChunkHere(v, v.base);
    PositiveAddresses(v);
    hide TagOk, FiledOk, Tiled, CellOk;
    MoreTopSpares(v, more);
  }

  lemma MoreTopSpares(v: View, more: nat)
    requires v.w.top in v.t && v.w.top + v.w.topsize == v.end && HeapOk(MoreTop(v, more)) &&
             Used(MoreTop(v, more).t) == Used(v.t)
    ensures TagsSpare(v.w, MoreTop(v, more).w, Used(v.t))
  {
    var v' := MoreTop(v, more);
    forall p, a | InBlock(Used(v'.t), p, a) ensures !TagsTouch(v.w, v'.w, a) {
      HeadClear(v', v.w.top, p, a);
      HeadClear(v', v'.end, p, a);
      hide HeapOk, InBlock, Used;
    }
  }
}
