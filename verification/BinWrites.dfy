/** Which words the operations on bins write: links of chunks that are in bins before or after, and of bin heads. */
module BinWrites {
  import opened Bits
  import opened TreeIndex
  import opened Tries
  import opened Rings
  import opened BinState
  import opened Heap

  /** The words behind the bins. */
  function WordsOf(b: Bins): BinWords
  {
    BinWords(b.smallmap, b.treemap, b.tree, b.fd, b.bk, b.index)
  }

  /** x is the head of a small bin or a chunk in a bin. */
  predicate Linkable(binned: map<int, nat>, x: int)
  {
    x in binned || x <= SmallBinAt(0)
  }

  /** x is a chunk in a bin large enough for the links of a tree node. */
  predicate Branches(binned: map<int, nat>, x: int)
  {
    x in binned && !IsSmall(binned[x])
  }

  predicate RingDiffers(m: BinWords, m': BinWords, x: int)
  {
    Differs(m.fd, m'.fd, x) || Differs(m.bk, m'.bk, x)
  }

  predicate TreeDiffers(m: TreeMemory, m': TreeMemory, x: int)
  {
    Differs(m.child0, m'.child0, x) || Differs(m.child1, m'.child1, x) || Differs(m.parent, m'.parent, x)
  }

  /** The links at x change only if x has them before or after. */
  predicate LinkWrites(m: BinWords, m': BinWords, binned: map<int, nat>, binned': map<int, nat>, x: int)
  {
    (RingDiffers(m, m', x) ==> Linkable(binned, x) || Linkable(binned', x)) &&
    (TreeDiffers(m.tree, m'.tree, x) || Differs(m.index, m'.index, x) ==> Branches(binned, x) || Branches(binned', x))
  }

  ghost predicate LinksWithin(m: BinWords, m': BinWords, binned: map<int, nat>, binned': map<int, nat>)
  {
    forall x {:trigger LinkWrites(m, m', binned, binned', x)} :: LinkWrites(m, m', binned, binned', x)
  }

  ghost predicate BinStep(b: Bins, b': Bins)
  {
    LinksWithin(WordsOf(b), WordsOf(b'), b.binned, b'.binned)
  }

  /** Every chunk filed in between is filed the same at one of the ends. */
  predicate FiledBetween(b: map<int, nat>, b1: map<int, nat>, b2: map<int, nat>)
  {
    forall x :: x in b1 ==> (x in b && b[x] == b1[x]) || (x in b2 && b2[x] == b1[x])
  }

  lemma LinksThen(m: BinWords, m1: BinWords, m2: BinWords, b: map<int, nat>, b1: map<int, nat>, b2: map<int, nat>)
    requires LinksWithin(m, m1, b, b1) && LinksWithin(m1, m2, b1, b2) && FiledBetween(b, b1, b2)
    ensures LinksWithin(m, m2, b, b2)
  {
    forall x ensures LinkWrites(m, m2, b, b2, x) {
      assert LinkWrites(m, m1, b, b1, x) && LinkWrites(m1, m2, b1, b2, x);
    }
  }

  // ----- what the links of a chunk lead to

  lemma RingLinks(b: Bins, p: int, k: nat)
    requires RingsFit(b) && InRing(b, p, k)
    ensures Linkable(b.binned, b.fd[p]) && Linkable(b.binned, b.bk[p])
  {
    var s := b.binned[p];
    assert RingFits(b, s);
    NeighboursOf(b.fd, b.bk, b.rings[s], k);
    InRingLinkable(b, s, Next(b.rings[s], k));
    InRingLinkable(b, s, if k == 0 then |b.rings[s]| - 1 else k - 1);
  }

  lemma InRingLinkable(b: Bins, s: nat, i: nat)
    requires RingFits(b, s) && i < |b.rings[s]|
    ensures Linkable(b.binned, b.rings[s][i])
  {
    if i >= FirstChunk(s) { assert BinnedAs(b, b.rings[s][i], s); }
  }

  lemma HeadLinks(b: Bins, s: nat)
    requires RingsFit(b) && s in b.rings
    ensures |b.rings[s]| > 0 && b.rings[s][0] in b.fd && Linkable(b.binned, b.rings[s][0]) &&
            Linkable(b.binned, b.fd[b.rings[s][0]])
  {
    assert RingFits(b, s);
    NeighboursOf(b.fd, b.bk, b.rings[s], 0);
    InRingLinkable(b, s, 0);
    InRingLinkable(b, s, Next(b.rings[s], 0));
  }

  /** Writing the slot of x writes a link of a tree node, or a root. */
  lemma SetSlotWrites(m: TreeMemory, h: Shape, x: int, r: int)
    requires NodeOk(m, h, x) && |m.roots| == NTREEBINS && ParentOk(m, h, x)
    ensures forall y :: TreeDiffers(m, SetSlot(m, h, x, r), y) ==> y in h.level
  {
    hide ComputeTreeIndex;
  }

  /** Putting r in the place of x writes links of r and of tree nodes. */
  lemma PutWrites(m: TreeMemory, h: Shape, x: int, r: int)
    requires NodeOk(m, h, x) && |m.roots| == NTREEBINS && ParentOk(m, h, x) && ChildOk(m, h, x, 0) &&
             ChildOk(m, h, x, 1)
    ensures forall y :: TreeDiffers(m, PutInPlace(m, h, x, r), y) ==> y in h.level || y == r
  {
    SetSlotWrites(m, h, x, r);
    hide ComputeTreeIndex, SetSlot;
  }

  /** A tree node: its parent and its children are tree nodes. */
  lemma NodeHere(m: TreeMemory, h: Shape, p: int)
    requires TrieOk(m, h) && p in h.level
    ensures NodeOk(m, h, p) && |m.roots| == NTREEBINS && ParentOk(m, h, p) && ChildOk(m, h, p, 0) && ChildOk(m, h, p, 1)
  {}

  // ----- chunks going in

  lemma InsertSmallWrites(b: Bins, p: int, s: nat)
    requires BinsOk(b) && NewChunk(b, p, s) && IsSmall(s)
    requires s in b.rings ==> SmallBinAt(s / 8) in b.fd
    ensures BinStep(b, InsertSmall(b, p, s))
  {
    if s in b.rings { HeadLinks(b, s); assert RingFits(b, s); }
    hide BinsOk;
  }

  /** insert_small_chunk seen from its test of the bin map. */
  lemma InsertSmallStep(b: Bins, p: int, s: nat)
    requires BinsOk(b) && NewChunk(b, p, s) && IsSmall(s)
    ensures var head := SmallBinAt(s / 8); var empty := And(b.smallmap, Idx2Bit(s / 8)) == 0;
            (!empty ==> head in b.fd) &&
            var f := if empty then head else b.fd[head];
            BinStep(b, b.(smallmap := if empty then Or(b.smallmap, Idx2Bit(s / 8)) else b.smallmap,
                          fd := FdAfter(b.fd, head, f, p), bk := BkAfter(b.bk, head, f, p),
                          rings := RingsWithSmall(b.rings, p, s), binned := b.binned[p := s]))
  {
    hide BinsOk, And, Or, FdAfter, BkAfter, BinStep;
    SmallMapTest(b, s / 8);
    if s in b.rings { SmallHeadLinked(b, s); }
    InsertSmallWrites(b, p, s);
  }

  lemma AddRootWrites(m: TreeMemory, i: nat, x: int)
    requires i < |m.roots|
    ensures forall y :: TreeDiffers(m, AddRoot(m, i, x), y) ==> y == x
  {}

  lemma AddLeafWrites(m: TreeMemory, t: int, side: int, x: int)
    ensures forall y :: TreeDiffers(m, AddLeaf(m, t, side, x), y) ==> y == x || y == t
  {}

  lemma InsertNodeWrites(b: Bins, p: int, s: nat, l: nat, m': TreeMemory)
    requires BinsOk(b) && NewChunk(b, p, s) && LargeSize(s)
    requires forall y :: TreeDiffers(b.tree, m', y) ==> y == p || y in b.level
    ensures BinStep(b, InsertNode(b, p, s, l, m'))
  {
    LevelsBinned(b);
    hide BinsOk, ComputeTreeIndex, RootLevel;
  }

  lemma InsertChainedWrites(b: Bins, p: int, s: nat)
    requires BinsOk(b) && NewChunk(b, p, s) && LargeSize(s) && HasRing(b, s)
    ensures BinStep(b, InsertChained(b, p, s))
  {
    HeadLinks(b, s);
    hide BinsOk, ComputeTreeIndex;
  }

  // ----- chunks coming out

  lemma RemoveSmallWrites(b: Bins, p: int, k: nat)
    requires BinsOk(b) && InRing(b, p, k) && IsSmall(b.binned[p])
    ensures BinStep(b, RemoveSmall(b, p, k))
  {
    RingLinks(b, p, k);
    hide BinsOk;
  }

  lemma RemoveChainedWrites(b: Bins, p: int, k: nat)
    requires BinsOk(b) && InRing(b, p, k)
    ensures BinStep(b, RemoveChained(b, p, k))
  {
    RingLinks(b, p, k);
    hide BinsOk;
  }

  lemma RemoveHeadWrites(b: Bins, p: int)
    requires BinsOk(b) && InRing(b, p, 0) && !IsSmall(b.binned[p]) && |b.rings[b.binned[p]]| >= 2 && p in b.level
    requires NodeOk(b.tree, ShapeOf(b), p) && |b.tree.roots| == NTREEBINS
    ensures BinStep(b, RemoveHead(b, p))
  {
    RingLinks(b, p, 0);
    LevelsBinned(b);
    NodeHere(b.tree, ShapeOf(b), p);
    PutWrites(b.tree, ShapeOf(b), p, b.bk[p]);
    HeadReplacement(b, p);
    assert RingFits(b, b.binned[p]) && BinnedAs(b, b.bk[p], b.binned[p]);
    assert Branches(b.binned, b.bk[p]);
    hide BinsOk, Replaces, LargeSize, HasLinks, NodeOk, ParentOk, ChildOk, PutInPlace, Exchange, RingFits;
  }

  lemma TreeOnly(b: Bins, b': Bins)
    requires BinsOk(b) && b'.fd == b.fd && b'.bk == b.bk && b'.index == b.index
    requires forall y :: TreeDiffers(b.tree, b'.tree, y) ==> y in b.level
    ensures BinStep(b, b')
  {
    LevelsBinned(b);
    hide BinsOk;
  }

  lemma RemoveLoneLeafWrites(b: Bins, p: int)
    requires BinsOk(b) && InRing(b, p, 0) && NodeOk(b.tree, ShapeOf(b), p) && |b.tree.roots| == NTREEBINS
    ensures BinStep(b, RemoveLoneLeaf(b, p))
  {
    NodeHere(b.tree, ShapeOf(b), p);
    SetSlotWrites(b.tree, ShapeOf(b), p, 0);
    hide BinsOk, NodeOk, ParentOk, ChildOk, SetSlot, RootLevel;
    TreeOnly(b, RemoveLoneLeaf(b, p));
  }

  /** The slot of r is cleared, and r put in the place of p. */
  lemma ClearThenPut(m: TreeMemory, h: Shape, m1: TreeMemory, h1: Shape, p: int, r: int)
    requires TrieOk(m, h) && r in h.level && NodeOk(m, h, r) && |m.roots| == NTREEBINS && m1 == SetSlot(m, h, r, 0)
    requires TrieOk(m1, h1) && p in h1.level && h1 == Tries.Without(h, r) && NodeOk(m1, h1, p) &&
             |m1.roots| == NTREEBINS
    ensures forall y :: TreeDiffers(m, PutInPlace(m1, h1, p, r), y) ==> y in h.level
  {
    NodeHere(m, h, r);
    NodeHere(m1, h1, p);
    SetSlotWrites(m, h, r, 0);
    PutWrites(m1, h1, p, r);
    hide *;
    var m2 := PutInPlace(m1, h1, p, r);
    forall y | TreeDiffers(m, m2, y) ensures y in h.level { DiffersOnce(m, m1, m2, y); }
  }

  lemma DiffersOnce(m: TreeMemory, m1: TreeMemory, m2: TreeMemory, y: int)
    requires TreeDiffers(m, m2, y)
    ensures TreeDiffers(m, m1, y) || TreeDiffers(m1, m2, y)
  {}

  lemma RemoveInnerWrites(b: Bins, p: int, r: int)
    requires BinsOk(b) && InnerReady(b, p, r)
    ensures BinStep(b, RemoveInner(b, p, r))
  {
    ClearThenPut(b.tree, ShapeOf(b), SetSlot(b.tree, ShapeOf(b), r, 0), Tries.Without(ShapeOf(b), r), p, r);
    var b' := RemoveInner(b, p, r);
    assert b'.fd == b.fd && b'.bk == b.bk && b'.index == b.index;
    hide *;
    TreeOnly(b, b');
  }
}
