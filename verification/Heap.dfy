/**
  The heap of malloc.c as a tiling of one segment by boundary-tagged chunks, and the one way it
  changes: the chunks of a stretch are cut anew. Memory is kept as one map per chunk field.
*/
module Heap {
  import opened TreeIndex
  import opened BinState
  import opened Chunks

  const TOP_FOOT_SIZE: nat := 40
  const CHUNK_OVERHEAD: nat := 4

  /** A stretch of the segment that is one chunk: how long it is and whether it is handed out. */
  datatype Cell = Cell(size: nat, used: bool)

  type Tiling = map<int, Cell>

  /** The words of the allocator outside the bins: chunk heads, prev_foot fields, and dv and top. */
  datatype HeapWords = HeapWords(head: map<int, Head>, foot: map<int, int>, dv: int, dvsize: nat, top: int,
                                 topsize: nat)

  /** The words with what they stand for: the cells of the segment from base to end, and the chunks in bins. */
  datatype View = View(w: HeapWords, t: Tiling, base: int, end: int, binned: map<int, nat>)

  // ----- the tiling

  predicate CellOk(t: Tiling, base: int, end: int, p: int)
  {
    p in t && base <= p && p % 8 == 0 && t[p].size > 0 && t[p].size % 8 == 0 &&
    p + t[p].size <= end && (p + t[p].size == end || p + t[p].size in t)
  }

  predicate Ordered(t: Tiling, p: int, q: int)
  {
    p in t && q in t && p < q ==> p + t[p].size <= q
  }

  /** The cells follow one another without gaps from base to end. */
  ghost predicate Tiled(t: Tiling, base: int, end: int)
  {
    base in t && 0 < base < end < WORD - TOP_FOOT_SIZE && end % 8 == 0 &&
    (forall p {:trigger CellOk(t, base, end, p)} :: p in t ==> CellOk(t, base, end, p)) &&
    (forall p, q {:trigger Ordered(t, p, q)} :: Ordered(t, p, q))
  }

  // ----- boundary tags

  /** The head of p, the pinuse bit and prev_foot after it, and the way back when its own pinuse bit is clear. */
  predicate TagOk(t: Tiling, head: map<int, Head>, foot: map<int, int>, end: int, p: int)
  {
    p in t && p in head && head[p].size == t[p].size && head[p].cinuse == t[p].used &&
    var n := p + t[p].size;
    (n != end ==> n in head && head[n].pinuse == t[p].used && (!t[p].used ==> n in foot && foot[n] == t[p].size)) &&
    (!head[p].pinuse ==> p in foot && 0 < foot[p] && p - foot[p] in t && t[p - foot[p]] == Cell(foot[p], false))
  }

  ghost predicate TagsOk(t: Tiling, head: map<int, Head>, foot: map<int, int>, base: int, end: int)
  {
    base in head && head[base].pinuse &&
    forall p {:trigger TagOk(t, head, foot, end, p)} :: p in t ==> TagOk(t, head, foot, end, p)
  }

  // ----- where each chunk is filed

  /** A free chunk is exactly one of top, dv and a chunk in a bin, and follows a chunk in use. */
  predicate FiledOk(v: View, p: int)
  {
    p in v.t && p in v.w.head &&
    var c := v.t[p];
    (p in v.binned ==> v.binned[p] == c.size && !c.used && c.size >= MIN_CHUNK_SIZE && p != v.w.dv && p != v.w.top) &&
    (p == v.w.dv ==> v.w.dvsize == c.size && !c.used && c.size >= MIN_CHUNK_SIZE && p != v.w.top) &&
    (p == v.w.top ==> v.w.topsize == c.size && !c.used && p + c.size == v.end) &&
    (!c.used ==> (p in v.binned || p == v.w.dv || p == v.w.top) && v.w.head[p].pinuse) &&
    (c.used ==> c.size >= MIN_CHUNK_SIZE)
  }

  ghost predicate AllFiled(v: View)
  {
    v.w.top in v.t && (v.w.dv != 0 ==> v.w.dv in v.t) && (v.w.dv == 0 ==> v.w.dvsize == 0) &&
    (forall p :: p in v.binned ==> p in v.t) &&
    (forall p {:trigger FiledOk(v, p)} :: p in v.t ==> FiledOk(v, p))
  }

  /** The segment ends in a word that looks like the head of a small chunk not in use. */
  predicate EndMarked(v: View)
  {
    v.end in v.w.head && v.w.head[v.end] == Head(TOP_FOOT_SIZE, false, false)
  }

  ghost predicate HeapOk(v: View)
  {
    Tiled(v.t, v.base, v.end) && TagsOk(v.t, v.w.head, v.w.foot, v.base, v.end) && AllFiled(v) && EndMarked(v)
  }

  // ----- cutting a stretch anew

  /** The cells from a up to e are replaced by one from a to m and, unless m is e, one from m to e. */
  datatype Cut = Cut(a: int, m: int, e: int, first: bool, second: bool) {
    predicate Two() { m < e }
    function Last(): int { if m < e then m else a }
    function LastUsed(): bool { if m < e then second else first }
    predicate Inside(p: int) { a <= p < e }
  }

  function Recut(t: Tiling, c: Cut): Tiling
    requires c.a < c.m <= c.e
  {
    var t0 := (map p | p in t && !c.Inside(p) :: t[p])[c.a := Cell(c.m - c.a, c.first)];
    if c.Two() then t0[c.m := Cell(c.e - c.m, c.second)] else t0
  }

  /** The cut goes along cells of the tiling and leaves aligned ones. */
  predicate CutOk(t: Tiling, end: int, c: Cut)
  {
    c.a in t && c.a < c.m <= c.e <= end && c.m % 8 == 0 && (c.e == end || c.e in t)
  }

  /** The cells of the new tiling. */
  lemma RecutCells(t: Tiling, c: Cut)
    requires c.a in t && c.a < c.m <= c.e
    ensures c.a in Recut(t, c) && Recut(t, c)[c.a] == Cell(c.m - c.a, c.first)
    ensures c.Two() ==> c.m in Recut(t, c) && Recut(t, c)[c.m] == Cell(c.e - c.m, c.second)
    ensures forall p :: p in t && !c.Inside(p) ==> p in Recut(t, c) && Recut(t, c)[p] == t[p]
    ensures forall p :: p in Recut(t, c) ==> (p in t && !c.Inside(p)) || p == c.a || (p == c.m && c.Two())
  {}

  lemma KeptCell(t: Tiling, base: int, end: int, c: Cut, p: int)
    requires CutOk(t, end, c) && CellOk(t, base, end, p) && !c.Inside(p) && Ordered(t, p, c.a)
    ensures CellOk(Recut(t, c), base, end, p)
  {
    RecutCells(t, c);
    hide Recut;
  }

  lemma Difference8(m: int, n: int)
    requires m % 8 == 0 && n % 8 == 0
    ensures (n - m) % 8 == 0
  {}

  lemma Sum8(m: int, n: int)
    requires m % 8 == 0 && n % 8 == 0
    ensures (m + n) % 8 == 0
  {}

  lemma NewCells(t: Tiling, base: int, end: int, c: Cut)
    requires CutOk(t, end, c) && CellOk(t, base, end, c.a) &&
             (if c.e == end then end % 8 == 0 else CellOk(t, base, end, c.e))
    ensures CellOk(Recut(t, c), base, end, c.a)
    ensures c.Two() ==> CellOk(Recut(t, c), base, end, c.m)
  {
    RecutCells(t, c);
    hide Recut;
    Difference8(c.a, c.m);
    Difference8(c.m, c.e);
  }

  lemma RecutCell(t: Tiling, base: int, end: int, c: Cut, p: int)
    requires Tiled(t, base, end) && CutOk(t, end, c) && p in Recut(t, c)
    ensures CellOk(Recut(t, c), base, end, p)
  {
    assert CellOk(t, base, end, c.a) && (c.e == end || CellOk(t, base, end, c.e));
    if p in t && !c.Inside(p) {
      assert CellOk(t, base, end, p) && Ordered(t, p, c.a);
      hide *;
      KeptCell(t, base, end, c, p);
    } else {
      RecutCells(t, c);
      hide Recut, CellOk;
      NewCells(t, base, end, c);
    }
  }

  lemma RecutTiled(t: Tiling, base: int, end: int, c: Cut)
    requires Tiled(t, base, end) && CutOk(t, end, c)
    ensures Tiled(Recut(t, c), base, end)
  {
    var t' := Recut(t, c);
    assert CellOk(t, base, end, c.a);
    RecutCell(t, base, end, c, if base == c.a then c.a else base);
    forall p | p in t' ensures CellOk(t', base, end, p) { RecutCell(t, base, end, c, p); }
    forall p, q ensures Ordered(t', p, q) {
      hide CellOk;
      assert Ordered(t, p, q) && Ordered(t, p, c.a);
      if p in t && p >= c.e { } else { }
    }
  }

  /** The word for x in a field is not the same before and after. */
  predicate Differs<T(==)>(m: map<int, T>, m': map<int, T>, x: int)
  {
    if x in m then x !in m' || m'[x] != m[x] else x in m'
  }

  /** Written are only the heads of the new cells and of the one behind them, and the prev_foot behind free ones. */
  predicate CutWrites(w: HeapWords, w': HeapWords, c: Cut, x: int)
  {
    (Differs(w.head, w'.head, x) ==> x == c.a || x == c.m || x == c.e) &&
    (Differs(w.foot, w'.foot, x) ==> (x == c.m && c.Two() && !c.first) || (x == c.e && !c.LastUsed()))
  }

  /** The tags that a cut requires: the heads of the new cells, and the pinuse bit and prev_foot behind each. */
  ghost predicate CutTags(t: Tiling, w: HeapWords, w': HeapWords, end: int, c: Cut)
  {
    c.a < c.m <= c.e && c.a in w.head && c.a in w'.head &&
    w'.head[c.a] == Head(c.m - c.a, c.first, w.head[c.a].pinuse) &&
    (c.Two() ==> c.m in w'.head && w'.head[c.m] == Head(c.e - c.m, c.second, c.first) &&
                 (!c.first ==> c.m in w'.foot && w'.foot[c.m] == c.m - c.a)) &&
    (c.e != end ==> c.e in w.head && c.e in w'.head && w'.head[c.e] == w.head[c.e].(pinuse := c.LastUsed()) &&
                    (!c.LastUsed() ==> c.e in w'.foot && w'.foot[c.e] == c.e - c.Last())) &&
    forall x {:trigger CutWrites(w, w', c, x)} :: CutWrites(w, w', c, x)
  }

  /** A cell that stays keeps its tags right; only the one before the stretch and the one after see it. */
  lemma KeptTag(t: Tiling, base: int, end: int, c: Cut, w: HeapWords, w': HeapWords, p: int)
    requires Tiled(t, base, end) && TagsOk(t, w.head, w.foot, base, end) && CutOk(t, end, c)
    requires CutTags(t, w, w', end, c) && p in t && !c.Inside(p)
    ensures TagOk(Recut(t, c), w'.head, w'.foot, end, p)
  {
    assert TagOk(t, w.head, w.foot, end, p);
    assert CellOk(t, base, end, p);
    var n := p + t[p].size;
    assert Ordered(t, p, c.a);
    var t' := Recut(t, c);
    assert p in t' && t'[p] == t[p];
    if p < c.a {
      assert CutWrites(w, w', c, p);
      assert n != c.a ==> CutWrites(w, w', c, n);
      assert !w.head[p].pinuse ==> t[p - w.foot[p]].size > 0;
    } else {
      assert n != end ==> CutWrites(w, w', c, n);
      assert p != c.e ==> CutWrites(w, w', c, p);
      if p != c.e && !w.head[p].pinuse {
        var r := p - w.foot[p];
        assert Ordered(t, r, c.e);
        assert Ordered(t, r, p);
      }
    }
  }

  lemma RecutTag(t: Tiling, base: int, end: int, c: Cut, w: HeapWords, w': HeapWords, p: int)
    requires Tiled(t, base, end) && TagsOk(t, w.head, w.foot, base, end) && CutOk(t, end, c)
    requires CutTags(t, w, w', end, c) && p in Recut(t, c)
    ensures TagOk(Recut(t, c), w'.head, w'.foot, end, p)
  {
    if p in t && !c.Inside(p) {
      KeptTag(t, base, end, c, w, w', p);
    } else {
      assert TagOk(t, w.head, w.foot, end, c.a) && CutWrites(w, w', c, c.a);
      assert !w.head[c.a].pinuse ==> t[c.a - w.foot[c.a]].size > 0;
    }
  }

  lemma RecutTags(t: Tiling, base: int, end: int, c: Cut, w: HeapWords, w': HeapWords)
    requires Tiled(t, base, end) && TagsOk(t, w.head, w.foot, base, end) && CutOk(t, end, c)
    requires CutTags(t, w, w', end, c)
    ensures TagsOk(Recut(t, c), w'.head, w'.foot, base, end)
  {
    assert CellOk(t, base, end, c.a) && CellOk(t, base, end, base);
    assert base != c.a ==> CutWrites(w, w', c, base);
    forall p | p in Recut(t, c) ensures TagOk(Recut(t, c), w'.head, w'.foot, end, p) {
      RecutTag(t, base, end, c, w, w', p);
    }
  }

  /** Chunk q is filed the same way before and after. */
  predicate SameFiling(v: View, v': View, q: int)
  {
    (q in v'.binned <==> q in v.binned) && (q in v.binned ==> v'.binned[q] == v.binned[q]) &&
    (q == v'.w.dv <==> q == v.w.dv) && (q == v.w.dv ==> v'.w.dvsize == v.w.dvsize) &&
    (q == v'.w.top <==> q == v.w.top) && (q == v.w.top ==> v'.w.topsize == v.w.topsize)
  }

  /** Nothing is filed from a up to e but the new cells, and those correctly. */
  ghost predicate CutFiling(v: View, v': View, c: Cut)
  {
    FiledOk(v', c.a) && (c.Two() ==> FiledOk(v', c.m)) &&
    (c.e != v.end && c.e in v.t && !v.t[c.e].used ==> c.LastUsed()) &&
    (v'.w.dv == 0 ==> v'.w.dvsize == 0) && (v'.w.dv != 0 ==> v'.w.dv in v'.t) && v'.w.top in v'.t &&
    (forall q :: q in v'.binned ==> q in v'.t) &&
    (forall q {:trigger SameFiling(v, v', q)} :: q in v.t && !c.Inside(q) ==> SameFiling(v, v', q))
  }

  /** v' is v with one stretch cut anew, its tags and its filing brought up to date. */
  ghost predicate CutStep(v: View, v': View, c: Cut)
  {
    CutOk(v.t, v.end, c) && v'.base == v.base && v'.end == v.end && v'.t == Recut(v.t, c) &&
    CutTags(v.t, v.w, v'.w, v.end, c) && CutFiling(v, v', c) && EndMarked(v')
  }

  lemma RecutFiled(v: View, v': View, c: Cut)
    requires HeapOk(v) && CutStep(v, v', c)
    ensures AllFiled(v')
  {
    hide Tiled, TagsOk;
    forall p | p in v'.t ensures FiledOk(v', p) {
      if p in v.t && !c.Inside(p) {
        assert FiledOk(v, p) && SameFiling(v, v', p);
        if p != c.e { assert CutWrites(v.w, v'.w, c, p); }
      }
    }
  }

  // ----- blocks, and the words written beside them

  /** The chunks handed out, with their sizes. */
  function Used(t: Tiling): (u: map<int, nat>)
    ensures forall p :: p in u <==> p in t && t[p].used
    ensures forall p :: p in u ==> u[p] == t[p].size
  {
    map p | p in t && t[p].used :: t[p].size
  }

  /** a is one of the bytes a caller may use of the block whose chunk is p. */
  predicate InBlock(u: map<int, nat>, p: int, a: int)
  {
    p in u && p + 8 <= a < p + u[p] + CHUNK_OVERHEAD
  }

  /** The byte at a belongs to a word that differs, of the field that lies off bytes into each chunk. */
  predicate Touches<T(==)>(m: map<int, T>, m': map<int, T>, off: int, a: int)
  {
    var x := a - off;
    Differs(m, m', x) || Differs(m, m', x - 1) || Differs(m, m', x - 2) || Differs(m, m', x - 3)
  }

  /** The byte at a belongs to a head or a prev_foot that differs. */
  predicate TagsTouch(w: HeapWords, w': HeapWords, a: int)
  {
    Touches(w.head, w'.head, 4, a) || Touches(w.foot, w'.foot, 0, a)
  }

  /** No head or prev_foot that differs shares a byte with a block of u. */
  ghost predicate TagsSpare(w: HeapWords, w': HeapWords, u: map<int, nat>)
  {
    forall p, a {:trigger InBlock(u, p, a)} :: InBlock(u, p, a) ==> !TagsTouch(w, w', a)
  }

  /** The head of a chunk, or the word behind the segment, lies in no block. */
  lemma HeadClear(v: View, x: int, p: int, a: int)
    requires HeapOk(v) && (x in v.t || x == v.end) && InBlock(Used(v.t), p, a)
    ensures a < x + 4 || x + 8 <= a
  {
    assert Ordered(v.t, x, p) && Ordered(v.t, p, x) && CellOk(v.t, v.base, v.end, p);
    if x in v.t { assert CellOk(v.t, v.base, v.end, x); }
    hide HeapOk;
  }

  /** The word behind a free chunk lies in no block. */
  lemma FootClear(v: View, x: int, p: int, a: int)
    requires HeapOk(v) && x in v.t && !v.t[x].used && InBlock(Used(v.t), p, a)
    ensures a < x + v.t[x].size || x + v.t[x].size + 4 <= a
  {
    assert Ordered(v.t, x, p) && Ordered(v.t, p, x) && CellOk(v.t, v.base, v.end, x) && CellOk(v.t, v.base, v.end, p);
    hide HeapOk;
  }

  lemma WriteClear(v: View, v': View, c: Cut, x: int, p: int, a: int)
    requires HeapOk(v') && CutStep(v, v', c) && InBlock(Used(v'.t), p, a)
    ensures Differs(v.w.head, v'.w.head, x) ==> a < x + 4 || x + 8 <= a
    ensures Differs(v.w.foot, v'.w.foot, x) ==> a < x || x + 4 <= a
  {
    assert CutWrites(v.w, v'.w, c, x);
    RecutCells(v.t, c);
    hide Recut, CutTags, CutFiling, EndMarked, HeapOk, InBlock, Used;
    if Differs(v.w.head, v'.w.head, x) { HeadClear(v', x, p, a); }
    if Differs(v.w.foot, v'.w.foot, x) { FootClear(v', if x == c.m && c.Two() then c.a else c.Last(), p, a); }
  }

  /** What a cut writes lies outside all blocks. */
  lemma CutSpares(v: View, v': View, c: Cut)
    requires HeapOk(v') && CutStep(v, v', c)
    ensures TagsSpare(v.w, v'.w, Used(v'.t))
  {
    forall p, a | InBlock(Used(v'.t), p, a) ensures !TagsTouch(v.w, v'.w, a) {
      forall x ensures Differs(v.w.head, v'.w.head, x) ==> a < x + 4 || x + 8 <= a
               ensures Differs(v.w.foot, v'.w.foot, x) ==> a < x || x + 4 <= a
      {
        WriteClear(v, v', c, x, p, a);
      }
      hide HeapOk, CutStep, InBlock, Used, Differs;
    }
  }

  lemma CutKeeps(v: View, v': View, c: Cut)
    requires HeapOk(v) && CutStep(v, v', c)
    ensures HeapOk(v') && TagsSpare(v.w, v'.w, Used(v'.t))
  {
    RecutTiled(v.t, v.base, v.end, c);
    RecutTags(v.t, v.base, v.end, c, v.w, v'.w);
    RecutFiled(v, v', c);
    hide CutStep, Tiled, TagsOk, AllFiled;
    CutSpares(v, v', c);
  }

  // ----- reading the invariant at one chunk

  /** What is known about the chunk at p and the words behind it. */
  lemma ChunkHere(v: View, p: int)
    requires HeapOk(v) && p in v.t
    ensures CellOk(v.t, v.base, v.end, p) && TagOk(v.t, v.w.head, v.w.foot, v.end, p) && FiledOk(v, p)
    ensures p + v.t[p].size in v.w.head
  {}

  /** A chunk that is not top ends where another starts; behind a free one that other is in use. */
  lemma NextHere(v: View, p: int)
    requires HeapOk(v) && p in v.t && p != v.w.top
    ensures var n := p + v.t[p].size; n != v.end && n in v.t && n > p && (v.t[n].used || v.t[p].used)
    ensures var n := p + v.t[p].size;
            n in v.w.head && v.w.head[n].cinuse == v.t[n].used && v.w.head[n].size == v.t[n].size
  {
    ChunkHere(v, p);
    ChunkHere(v, v.w.top);
    var n := p + v.t[p].size;
    assert Ordered(v.t, p, v.w.top) && Ordered(v.t, v.w.top, p);
    if n != v.end { ChunkHere(v, n); }
  }

  /** No chunk starts inside another. */
  lemma NothingInside(v: View, p: int, q: int)
    requires HeapOk(v) && p in v.t && p < q < p + v.t[p].size
    ensures q !in v.t
  {
    assert Ordered(v.t, p, q);
  }

  lemma Alone(v: View, p: int)
    requires HeapOk(v) && p in v.t
    ensures forall q :: q in v.t && p <= q < p + v.t[p].size ==> q == p
  {
    forall q | q in v.t && p <= q < p + v.t[p].size ensures q == p { if q != p { NothingInside(v, p, q); } }
  }

  /** Cutting up a single chunk: nothing else changes hands. */
  lemma UsedAfterCut(v: View, c: Cut)
    requires HeapOk(v) && CutOk(v.t, v.end, c) && v.t[c.a].size == c.e - c.a
    ensures var u := Used(v.t) - {c.a};
            var u1 := if c.first then u[c.a := c.m - c.a] else u;
            Used(Recut(v.t, c)) == if c.Two() && c.second then u1[c.m := c.e - c.m] else u1
  {
    Alone(v, c.a);
    hide HeapOk, CutOk;
  }

  lemma PositiveAddresses(v: View)
    requires HeapOk(v)
    ensures forall q :: q in v.t ==> 0 < q < WORD && v.t[q].size < WORD
    ensures forall q :: q in v.binned ==> 0 < q < WORD && q in v.t && v.binned[q] == v.t[q].size && !v.t[q].used
  {
    forall q | q in v.t ensures 0 < q < WORD && v.t[q].size < WORD { ChunkHere(v, q); }
    forall q | q in v.binned ensures v.binned[q] == v.t[q].size && !v.t[q].used { ChunkHere(v, q); }
  }
}
