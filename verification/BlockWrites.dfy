/**
  What callers do to the allocator by writing into their blocks: words that share a byte with a block may
  become anything, and heap and bins are still in order, since no word that matters lies there.
*/
module BlockWrites {
  import opened TreeIndex
  import opened Tries
  import opened BinState
  import opened BinWrites
  import opened Heap
  import opened Stores

  /** The word at x shares a byte with a block. */
  ghost predicate TouchesBlock(u: map<int, nat>, x: int)
  {
    exists p, a {:trigger InBlock(u, p, a)} :: InBlock(u, p, a) && x <= a < x + 4
  }

  /** Heads and prev_foots differ only where they share a byte with a block. */
  ghost predicate OnlyTagsInBlocks(w: HeapWords, w': HeapWords, u: map<int, nat>, x: int)
  {
    (Differs(w.head, w'.head, x) ==> TouchesBlock(u, x + 4)) && (Differs(w.foot, w'.foot, x) ==> TouchesBlock(u, x))
  }

  ghost predicate TagsInBlocks(w: HeapWords, w': HeapWords, u: map<int, nat>)
  {
    w' == w.(head := w'.head, foot := w'.foot) &&
    forall x {:trigger OnlyTagsInBlocks(w, w', u, x)} :: OnlyTagsInBlocks(w, w', u, x)
  }

  /** The head of a cell or of the end is none of those. */
  lemma HeadStays(v: View, w': HeapWords, x: int)
    requires HeapOk(v) && TagsInBlocks(v.w, w', Used(v.t)) && (x in v.t || x == v.end)
    ensures !Differs(v.w.head, w'.head, x)
  {
    assert OnlyTagsInBlocks(v.w, w', Used(v.t), x);
    hide Differs, HeapOk, InBlock, Used, TagsInBlocks;
    if Differs(v.w.head, w'.head, x) {
      var p, a :| InBlock(Used(v.t), p, a) && x + 4 <= a < x + 4 + 4;
      HeadClear(v, x, p, a);
      assert false;
    }
  }

  /** Neither is the prev_foot behind a free cell. */
  lemma FootStays(v: View, w': HeapWords, x: int)
    requires HeapOk(v) && TagsInBlocks(v.w, w', Used(v.t)) && x in v.t && !v.t[x].used
    ensures !Differs(v.w.foot, w'.foot, x + v.t[x].size)
  {
    var y := x + v.t[x].size;
    assert OnlyTagsInBlocks(v.w, w', Used(v.t), y);
    hide Differs, HeapOk, InBlock, Used, TagsInBlocks;
    if Differs(v.w.foot, w'.foot, y) {
      var p, a :| InBlock(Used(v.t), p, a) && y <= a < y + 4;
      FootClear(v, x, p, a);
      assert false;
    }
  }

  lemma TagStays(v: View, w': HeapWords, p: int)
    requires HeapOk(v) && TagsInBlocks(v.w, w', Used(v.t)) && p in v.t
    ensures TagOk(v.t, w'.head, w'.foot, v.end, p) && FiledOk(v.(w := w'), p)
  {
    ChunkHere(v, p);
    var n := p + v.t[p].size;
    HeadStays(v, w', p);
    HeadStays(v, w', n);
    if !v.t[p].used { FootStays(v, w', p); }
    if !v.w.head[p].pinuse { FootStays(v, w', p - v.w.foot[p]); }
    hide HeapOk, TagsInBlocks;
  }

  /** A heap in order stays in order when callers write into their blocks. */
  lemma HeapStays(v: View, w': HeapWords)
    requires HeapOk(v) && TagsInBlocks(v.w, w', Used(v.t))
    ensures HeapOk(v.(w := w'))
  {
    assert v.base in v.t && v.w.head[v.base].pinuse;
    HeadStays(v, w', v.base);
    HeadStays(v, w', v.end);
    assert w'.top == v.w.top && w'.dv == v.w.dv && w'.dvsize == v.w.dvsize;
    hide TagsInBlocks;
    forall p | p in v.t ensures TagOk(v.t, w'.head, w'.foot, v.end, p) && FiledOk(v.(w := w'), p) { TagStays(v, w', p); }
    hide TagOk, FiledOk, Tiled;
  }

  // ----- the links of bins

  /** The links at x differ only where they share a byte with a block. */
  ghost predicate OnlyLinksInBlocks(m: BinWords, m': BinWords, u: map<int, nat>, x: int)
  {
    (Differs(m.fd, m'.fd, x) ==> TouchesBlock(u, x + 8)) && (Differs(m.bk, m'.bk, x) ==> TouchesBlock(u, x + 12)) &&
    (Differs(m.tree.child0, m'.tree.child0, x) ==> TouchesBlock(u, x + 16)) &&
    (Differs(m.tree.child1, m'.tree.child1, x) ==> TouchesBlock(u, x + 20)) &&
    (Differs(m.tree.parent, m'.tree.parent, x) ==> TouchesBlock(u, x + 24)) &&
    (Differs(m.index, m'.index, x) ==> TouchesBlock(u, x + 28))
  }

  ghost predicate LinksInBlocks(m: BinWords, m': BinWords, u: map<int, nat>)
  {
    m'.smallmap == m.smallmap && m'.treemap == m.treemap && m'.tree.roots == m.tree.roots &&
    forall x {:trigger OnlyLinksInBlocks(m, m', u, x)} :: OnlyLinksInBlocks(m, m', u, x)
  }

  /** No word of a free chunk in a bin, up to its end, and no bin head shares a byte with a block. */
  lemma FreeClear(v: View, x: int, off: int)
    requires HeapOk(v) && 0 < off <= 28
    requires x <= SmallBinAt(0) || (x in v.binned && 4 <= off && off + 4 <= v.binned[x])
    ensures !TouchesBlock(Used(v.t), x + off)
  {
    hide HeapOk, Used;
    if TouchesBlock(Used(v.t), x + off) {
      var p, a :| InBlock(Used(v.t), p, a) && x + off <= a < x + off + 4;
      if x in v.binned { BinnedClear(v, x, p, a); }
      PositiveAddresses(v);
      assert false;
    }
  }

  /** What matters of the links at x is as it was. */
  predicate LinksSameAt(m: BinWords, m': BinWords, binned: map<int, nat>, x: int)
  {
    (Linkable(binned, x) ==> !RingDiffers(m, m', x)) &&
    (Branches(binned, x) ==> !TreeDiffers(m.tree, m'.tree, x) && !Differs(m.index, m'.index, x))
  }

  lemma LinksStay(v: View, m: BinWords, m': BinWords, x: int)
    requires HeapOk(v) && LinksInBlocks(m, m', Used(v.t))
    ensures LinksSameAt(m, m', v.binned, x)
  {
    assert OnlyLinksInBlocks(m, m', Used(v.t), x);
    if x in v.binned { ChunkHere(v, x); }
    hide HeapOk, Used, TouchesBlock, LinksInBlocks, Differs;
    if Linkable(v.binned, x) {
      FreeClear(v, x, 8);
      FreeClear(v, x, 12);
    }
    if Branches(v.binned, x) {
      FreeClear(v, x, 16);
      FreeClear(v, x, 20);
      FreeClear(v, x, 24);
      FreeClear(v, x, 28);
    }
  }

  /** b with other links. */
  function Relinked(b: Bins, m: BinWords): Bins
  {
    b.(smallmap := m.smallmap, treemap := m.treemap, tree := m.tree, fd := m.fd, bk := m.bk, index := m.index)
  }

  ghost predicate SameLinks(b: Bins, m: BinWords)
  {
    m.smallmap == b.smallmap && m.treemap == b.treemap && m.tree.roots == b.tree.roots &&
    forall x {:trigger LinksSameAt(WordsOf(b), m, b.binned, x)} :: LinksSameAt(WordsOf(b), m, b.binned, x)
  }

  lemma RingsStay(b: Bins, m: BinWords)
    requires RingsFit(b) && SameLinks(b, m)
    ensures RingsFit(Relinked(b, m))
  {
    var b' := Relinked(b, m);
    forall t | t in b'.rings ensures RingFits(b', t) {
      assert RingFits(b, t);
      forall x | x in b.rings[t] ensures !RingDiffers(WordsOf(b), m, x) {
        var i :| 0 <= i < |b.rings[t]| && b.rings[t][i] == x;
        InRingLinkable(b, t, i);
        assert LinksSameAt(WordsOf(b), m, b.binned, x);
      }
      SameRingFits(b, b', t);
    }
  }

  lemma ChunksStay(b: Bins, m: BinWords)
    requires ChunksFit(b) && SameLinks(b, m)
    ensures ChunksFit(Relinked(b, m))
  {
    var b' := Relinked(b, m);
    forall p | p in b'.binned ensures ChunkFits(b', p) {
      assert ChunkFits(b, p) && LinksSameAt(WordsOf(b), m, b.binned, p);
      hide ComputeTreeIndex, ChunksFit, SameLinks;
    }
  }

  /** Bins in order stay in order as long as the links that matter are as they were. */
  lemma BinsStay(b: Bins, m: BinWords)
    requires BinsOk(b) && SameLinks(b, m)
    ensures BinsOk(Relinked(b, m))
  {
    var b' := Relinked(b, m);
    RingsStay(b, m);
    ChunksStay(b, m);
    LevelsBinned(b);
    forall i: nat | i < 32 ensures MapsFit(b', i) { assert MapsFit(b, i); }
    forall x | x in b.level ensures !TreeDiffers(b.tree, m.tree, x) { assert LinksSameAt(WordsOf(b), m, b.binned, x); }
    hide RingsFit, ChunksFit, AllMapsFit, TrieOk, SameLinks;
    TrieFrame(b.tree, ShapeOf(b), b'.tree, ShapeOf(b'));
  }

  // ----- a stretch of bytes

  /** The n bytes from lo on are part of the block whose chunk is p. */
  predicate WithinBlock(u: map<int, nat>, p: int, lo: int, n: nat)
  {
    p in u && p + 8 <= lo && lo + n <= p + u[p] + CHUNK_OVERHEAD
  }

  /** The word at x shares a byte with the n bytes from lo on. */
  predicate Hit(x: int, lo: int, n: nat) { x < lo + n && lo < x + 4 && n > 0 }

  lemma HitTouches(u: map<int, nat>, p: int, lo: int, n: nat, x: int)
    requires WithinBlock(u, p, lo, n) && Hit(x, lo, n)
    ensures TouchesBlock(u, x)
  {
    assert InBlock(u, p, if x < lo then lo else x);
  }

  /** A field whose words that are hit read as in other. */
  function Overlaid<T>(m: map<int, T>, other: map<int, T>, off: int, lo: int, n: nat): map<int, T>
  {
    map x | x in m.Keys + other.Keys && (if Hit(x + off, lo, n) then x in other else x in m) ::
      if Hit(x + off, lo, n) then other[x] else m[x]
  }

  lemma OverlaidSame<T>(m: map<int, T>, other: map<int, T>, off: int, lo: int, n: nat, x: int)
    ensures Differs(m, Overlaid(m, other, off, lo, n), x) ==> Hit(x + off, lo, n)
  {}

  /** The words after a caller has written: those that are hit are taken from other. */
  function TagsOver(w: HeapWords, other: HeapWords, lo: int, n: nat): HeapWords
  {
    w.(head := Overlaid(w.head, other.head, 4, lo, n), foot := Overlaid(w.foot, other.foot, 0, lo, n))
  }

  function LinksOver(m: BinWords, other: BinWords, lo: int, n: nat): BinWords
  {
    m.(fd := Overlaid(m.fd, other.fd, 8, lo, n), bk := Overlaid(m.bk, other.bk, 12, lo, n),
       tree := m.tree.(child0 := Overlaid(m.tree.child0, other.tree.child0, 16, lo, n),
                       child1 := Overlaid(m.tree.child1, other.tree.child1, 20, lo, n),
                       parent := Overlaid(m.tree.parent, other.tree.parent, 24, lo, n)),
       index := Overlaid(m.index, other.index, 28, lo, n))
  }

  lemma TagsOverInBlocks(w: HeapWords, other: HeapWords, u: map<int, nat>, p: int, lo: int, n: nat)
    requires WithinBlock(u, p, lo, n)
    ensures TagsInBlocks(w, TagsOver(w, other, lo, n), u)
  {
    var w' := TagsOver(w, other, lo, n);
    forall x ensures OnlyTagsInBlocks(w, w', u, x) {
      OverlaidSame(w.head, other.head, 4, lo, n, x);
      OverlaidSame(w.foot, other.foot, 0, lo, n, x);
      hide Differs, Overlaid, WithinBlock, TouchesBlock, Hit;
      if Hit(x + 4, lo, n) { HitTouches(u, p, lo, n, x + 4); }
      if Hit(x, lo, n) { HitTouches(u, p, lo, n, x); }
    }
  }

  lemma LinksOverInBlocks(m: BinWords, other: BinWords, u: map<int, nat>, p: int, lo: int, n: nat)
    requires WithinBlock(u, p, lo, n)
    ensures LinksInBlocks(m, LinksOver(m, other, lo, n), u)
  {
    var m' := LinksOver(m, other, lo, n);
    forall x ensures OnlyLinksInBlocks(m, m', u, x) {
      OverlaidSame(m.fd, other.fd, 8, lo, n, x);
      OverlaidSame(m.bk, other.bk, 12, lo, n, x);
      OverlaidSame(m.tree.child0, other.tree.child0, 16, lo, n, x);
      OverlaidSame(m.tree.child1, other.tree.child1, 20, lo, n, x);
      OverlaidSame(m.tree.parent, other.tree.parent, 24, lo, n, x);
      OverlaidSame(m.index, other.index, 28, lo, n, x);
      hide Differs, Overlaid, WithinBlock, TouchesBlock, Hit;
      forall y | Hit(y, lo, n) ensures TouchesBlock(u, y) { HitTouches(u, p, lo, n, y); }
    }
  }

  /** Heap and bins stay in order when a caller writes n bytes from lo on into the block of chunk p. */
  lemma WriteStays(v: View, b: Bins, w: HeapWords, m: BinWords, p: int, lo: int, n: nat)
    requires HeapOk(v) && BinsOk(b) && b.binned == v.binned && WithinBlock(Used(v.t), p, lo, n)
    ensures HeapOk(v.(w := TagsOver(v.w, w, lo, n)))
    ensures BinsOk(Relinked(b, LinksOver(WordsOf(b), m, lo, n)))
  {
    var m' := LinksOver(WordsOf(b), m, lo, n);
    TagsOverInBlocks(v.w, w, Used(v.t), p, lo, n);
    LinksOverInBlocks(WordsOf(b), m, Used(v.t), p, lo, n);
    hide HeapOk, BinsOk, TagsInBlocks, TagsOver, Overlaid, LinksSameAt;
    HeapStays(v, TagsOver(v.w, w, lo, n));
    forall x ensures LinksSameAt(WordsOf(b), m', b.binned, x) { LinksStay(v, WordsOf(b), m', x); }
    BinsStay(b, m');
  }
}
