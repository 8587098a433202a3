/** The head word of a chunk: its size and the two in-use bits kept in the bits alignment leaves free. */
module Chunks {
  datatype Head = Head(size: nat, cinuse: bool, pinuse: bool)
}

/** The bins of malloc.c in memory, with the operations on small bins and on the tries. */
module FreeBins {
  import opened Bits
  import opened TreeIndex
  import opened Tries
  import opened Rings
  import opened BinState
  import opened BinWrites
  import opened BlockWrites
  import opened Chunks
  import opened BestFit

  /** v is a tree chunk of at least nb bytes, and no smaller one will do. */
  ghost predicate SmallestFit(binned: map<int, nat>, nb: nat, v: int)
  {
    v in binned && !IsSmall(binned[v]) && binned[v] >= nb &&
    forall p :: p in binned && !IsSmall(binned[p]) && binned[p] >= nb ==> binned[v] <= binned[p]
  }

  ghost predicate NoFit(binned: map<int, nat>, nb: nat)
  {
    forall p :: p in binned && !IsSmall(binned[p]) ==> binned[p] < nb
  }

  /** When nothing is pending any more, the best node so far is the best fit. */
  lemma NothingPending(b: Bins, nb: nat, v: int, rsize: int)
    requires BinsOk(b) && 0 < nb < WORD && Descending(b.tree, ShapeOf(b), nb, v, rsize, 0)
    ensures if v == 0 then rsize == WORD - nb && NoFit(b.binned, nb)
            else SmallestFit(b.binned, nb, v) && v in b.level && rsize == b.binned[v] - nb
  {
    hide ComputeTreeIndex;
    forall p | p in b.binned && !IsSmall(b.binned[p])
      ensures b.binned[p] < nb || rsize <= b.binned[p] - nb
      ensures b.binned[p] < WORD
    {
      var t := NodeOfSize(b, p);
      assert NodeOk(b.tree, ShapeOf(b), t);
      assert Pending(b.tree, ShapeOf(b), nb, rsize, 0, t);
    }
    if v != 0 { assert NodeOk(b.tree, ShapeOf(b), v); }
  }

  /** The search for the next non-empty bin above that of nb. */
  lemma NextRoot(b: Bins, nb: nat)
    requires BinsOk(b) && LargeSize(nb)
    requires AllLocated(b.tree, ShapeOf(b), nb, WORD - nb, 0, 0, ComputeTreeIndex(nb))
    ensures var left := And(LeftBits(Idx2Bit(ComputeTreeIndex(nb))), b.treemap);
            if left == 0 then Descending(b.tree, ShapeOf(b), nb, 0, WORD - nb, 0)
            else var i := Bit2Idx(LeastBit(left)) as int;
                 0 <= i < |b.tree.roots| && b.tree.roots[i] != 0 &&
                 Descending(b.tree, ShapeOf(b), nb, 0, WORD - nb, b.tree.roots[i]) &&
                 UnderFits(b.tree, ShapeOf(b), nb, WORD - nb, b.tree.roots[i])
  {
    var h, idx := ShapeOf(b), ComputeTreeIndex(nb);
    var left := And(LeftBits(Idx2Bit(idx)), b.treemap);
    RootFits(b.tree, h, 0);
    NextBin(b.treemap, idx);
    forall j: nat | j < NTREEBINS ensures Bit(b.treemap, j) <==> b.tree.roots[j] != 0 { assert MapsFit(b, j); }
    var i := if left == 0 then NTREEBINS else Bit2Idx(LeastBit(left)) as int;
    NextBinPending(b.tree, h, nb, i);
    if left != 0 {
      RootNode(b.tree, h, i);
      hide Prefix, RootLevel;
      forall y | Covers(b.tree, h, b.tree.roots[i], y) ensures h.size[y] >= nb { TreeIndexMonotone(nb, h.size[y]); }
    }
  }

  lemma SomeFit(binned: map<int, nat>, nb: nat, t: int)
    requires t in binned && !IsSmall(binned[t]) && binned[t] >= nb
    ensures !NoFit(binned, nb)
  {}

  /** The root of the lowest non-empty bin has every tree node under or above it, and every one fits a small request. */
  lemma LeastRoot(b: Bins, nb: nat)
    requires BinsOk(b) && b.treemap != 0 && 0 < nb < MIN_LARGE_SIZE
    ensures var i := Bit2Idx(LeastBit(b.treemap)) as int;
            0 <= i < |b.tree.roots| &&
            var t := b.tree.roots[i];
            t in b.binned && !IsSmall(b.binned[t]) && HasLinks(b.tree, t) &&
            var rsize, c := Minus32(b.binned[t], nb), LeftmostChild(b.tree, t);
            Descending(b.tree, ShapeOf(b), nb, t, rsize, c) && (c != 0 ==> UnderFits(b.tree, ShapeOf(b), nb, rsize, c))
  {
    var h := ShapeOf(b);
    RootFits(b.tree, h, 0);
    FirstBin(b.treemap);
    forall j: nat | j < NTREEBINS ensures Bit(b.treemap, j) <==> b.tree.roots[j] != 0 { assert MapsFit(b, j); }
    var i := Bit2Idx(LeastBit(b.treemap)) as int;
    var t := b.tree.roots[i];
    RootNode(b.tree, h, i);
    LeastPending(b.tree, h, nb, i);
    LookDown(b.tree, h, nb, 0, WORD - nb, t);
    assert UnderFits(b.tree, h, nb, WORD - nb, t) by {
      hide Prefix, RootLevel, ComputeTreeIndex;
      forall y | Covers(b.tree, h, t, y) ensures h.size[y] >= nb { }
    }
    LeftmostDescends(b.tree, h, nb, 0, WORD - nb, t, t, Minus32(h.size[t], nb));
  }

  lemma LeastPending(m: TreeMemory, h: Shape, nb: nat, i: nat)
    requires TrieOk(m, h) && 0 < nb < MIN_LARGE_SIZE && i < NTREEBINS && |m.roots| == NTREEBINS && m.roots[i] != 0
    requires forall j :: 0 <= j < i ==> m.roots[j] == 0
    ensures Descending(m, h, nb, 0, WORD - nb, m.roots[i])
  {
    var t := m.roots[i];
    RootNode(m, h, i);
    forall y | y in h.level ensures Pending(m, h, nb, WORD - nb, t, y) {
      RootCovers(m, h, y);
      if BinOf(h, y) > i { TreeIndexMonotone(h.size[t], h.size[y]); }
    }
  }

  /** A chunk is in a bin exactly when it is in the ring of its size. */
  lemma InRingOfSize(b: Bins, x: int, s: nat)
    requires BinsOk(b) && x > 0 && (x in b.binned ==> b.binned[x] == s)
    ensures x in b.binned <==> s in b.rings && x in b.rings[s]
  {
    if x in b.binned { assert ChunkFits(b, x); }
    if s in b.rings && x in b.rings[s] {
      assert RingFits(b, s);
      var k :| 0 <= k < |b.rings[s]| && b.rings[s][k] == x;
      assert BinnedAs(b, b.rings[s][k], s);
    }
    hide TrieOk;
  }

  lemma NoRingBelow(b: Bins, t: int, s: nat, side: int)
    requires BinsOk(b) && LargeSize(s) && RoomBelow(b, t, s, side)
    ensures s !in b.rings
  {
    hide BinsOk, ComputeTreeIndex, Vacant;
    NoRingOfVacant(b, s, b.level[t] - 1);
  }

  lemma NoRingInEmpty(b: Bins, s: nat)
    requires BinsOk(b) && LargeSize(s) && And(b.treemap, Idx2Bit(ComputeTreeIndex(s))) == 0
    ensures s !in b.rings
  {
    TreeMapTest(b, ComputeTreeIndex(s));
    EmptyBinVacant(b.tree, ShapeOf(b), s);
    hide TrieOk, ComputeTreeIndex;
    NoRingOfVacant(b, s, RootLevel(ComputeTreeIndex(s)));
  }

  /** The heads in memory agree with the sizes the chunks are filed under. */
  predicate HeadsAgree(head: map<int, Head>, binned: map<int, nat>)
  {
    forall p :: p in binned ==> p in head && head[p].size == binned[p]
  }

  class FreeBins {
    var m: BinWords
    ghost var filing: Filing

    ghost function State(): Bins
      reads this
    {
      BinsOf(m, filing)
    }

    ghost predicate Valid()
      reads this
    {
      BinsOk(State())
    }

    /** The chunks in bins and their sizes: what the rest of the allocator sees. */
    ghost function Binned(): map<int, nat>
      reads this
    {
      filing.binned
    }

    constructor ()
      ensures Valid() && Binned() == map[]
    {
      m := BinWords(0, 0, TreeMemory(seq(32, _ => 0), map[], map[], map[]), map[], map[], map[]);
      filing := Filing(map[], map[], map[]);
      new;
      EmptyBinsOk();
      assert State() == EmptyBins();
    }

    // ----- small bins

    /** insert_small_chunk */
    method InsertSmallChunk(p: int, s: nat)
      requires Valid() && NewChunk(State(), p, s) && IsSmall(s)
      modifies this
      ensures Valid() && Binned() == old(Binned())[p := s]
      ensures LinksWithin(old(m), m, old(Binned()), Binned())
    {
      hide LinksWithin, BinsOk, Or, And, Idx2Bit, FdAfter, BkAfter, NewChunk, RingsWithSmall;
      InsertSmallPlan(State(), p, s);
      InsertSmallStep(State(), p, s);
      var i := s / 8;
      var head := SmallBinAt(i);
      var f := head;
      if And(m.smallmap, Idx2Bit(i)) == 0 {
        m := m.(smallmap := Or(m.smallmap, Idx2Bit(i)));
      } else {
        f := m.fd[head];
      }
      m := m.(fd := FdAfter(m.fd, head, f, p), bk := BkAfter(m.bk, head, f, p));
      filing := filing.(rings := RingsWithSmall(filing.rings, p, s), binned := filing.binned[p := s]);
    }

    /** unlink_small_chunk */
    method UnlinkSmallChunk(p: int, s: nat)
      requires Valid() && p in Binned() && s == Binned()[p] && IsSmall(s)
      modifies this
      ensures Valid() && Binned() == old(Binned()) - {p}
      ensures LinksWithin(old(m), m, old(Binned()), Binned())
    {
      hide LinksWithin, BinsOk, Idx2Bit;
      ghost var b := State();
      ghost var k := FindInRing(b, p);
      SmallLinks(b, p, k);
      RemoveSmallOk(b, p, k);
      RemoveSmallWrites(b, p, k);
      var f, h := m.fd[p], m.bk[p];
      var i := s / 8;
      if h == f {
        m := m.(smallmap := Bits.Without(m.smallmap, Idx2Bit(i)));
      } else {
        m := m.(fd := m.fd[h := f], bk := m.bk[f := h]);
      }
      filing := filing.(rings := RingsWithout(filing.rings, s, k), binned := filing.binned - {p});
      assert State() == RemoveSmall(b, p, k);
    }

    /** p = b->fd and unlink_first_small_chunk */
    method UnlinkFirstSmallChunk(i: nat) returns (p: int)
      requires Valid() && i < NSMALLBINS && Bit(m.smallmap, i)
      modifies this
      ensures Valid() && p in old(Binned()) && old(Binned())[p] == 8 * i && Binned() == old(Binned()) - {p}
      ensures LinksWithin(old(m), m, old(Binned()), Binned())
    {
      hide LinksWithin, BinsOk, Idx2Bit, Bit;
      ghost var b := State();
      var head := SmallBinAt(i);
      TestBin(m.smallmap, i);
      SmallMapTest(b, i);
      FirstSmall(b, i);
      p := m.fd[head];
      SmallLinks(b, p, 1);
      RemoveSmallOk(b, p, 1);
      RemoveSmallWrites(b, p, 1);
      var f := m.fd[p];
      if head == f {
        m := m.(smallmap := Bits.Without(m.smallmap, Idx2Bit(i)));
      } else {
        m := m.(fd := m.fd[head := f], bk := m.bk[f := head]);
      }
      filing := filing.(rings := RingsWithout(filing.rings, 8 * i, 1), binned := filing.binned - {p});
      assert State() == RemoveSmall(b, p, 1);
    }

    // ----- tree bins going in

    /** The descent of insert_large_chunk: a node of size s, or the node below which s has room. */
    method FindPlace(head: map<int, Head>, s: nat, i: nat) returns (t: int, side: int, same: bool)
      requires Valid() && HeadsAgree(head, Binned()) && LargeSize(s) && i == ComputeTreeIndex(s)
      requires And(m.treemap, Idx2Bit(i)) != 0
      ensures same ==> t in filing.level && t in Binned() && Binned()[t] == s
      ensures !same ==> Sided(side) && RoomBelow(State(), t, s, side)
    {
      hide ComputeTreeIndex, Prefix, Idx2Bit, RingsFit, ChunksFit, AllMapsFit, TrieOk;
      ghost var h := ShapeOf(State());
      TreeMapTest(State(), i);
      PathStarts(m.tree, h, s);
      PathWordStart(s);
      t := m.tree.roots[i];
      var k := ShiftLeft32(s, LeftShift(i));
      assert RootOk(m.tree, h, i) by { RootFits(m.tree, h, i); }
      while true
        invariant OnPath(m.tree, h, t, s) && t in filing.level && k == PathWord(s, filing.level[t])
        decreases filing.level[t]
      {
        if head[t].size == s { return t, 0, true; }
        PathDescends(m.tree, h, t, s);
        PathBit(s, filing.level[t]);
        side := TopBit(k);
        var c := if side == 0 then m.tree.child0[t] else m.tree.child1[t];
        k := k * 2 % WORD;
        if c == 0 { return t, side, false; }
        t := c;
      }
    }

    /** insert_large_chunk */
    method InsertLargeChunk(head: map<int, Head>, p: int, s: nat)
      requires Valid() && HeadsAgree(head, Binned()) && NewChunk(State(), p, s) && !IsSmall(s)
      modifies this
      ensures Valid() && Binned() == old(Binned())[p := s]
      ensures LinksWithin(old(m), m, old(Binned()), Binned())
    {
      hide LinksWithin, BinsOk, ComputeTreeIndex, Prefix, Idx2Bit, And, Or, RoomBelow, NodeOk;
      ghost var b := State();
      var i := ComputeTreeIndex(s);
      TreeMapTest(b, i);
      if And(m.treemap, Idx2Bit(i)) == 0 {
        InsertRootPlan(b, p, s);
        m := m.(treemap := Or(m.treemap, Idx2Bit(i)), tree := AddRoot(m.tree, i, p),
                fd := m.fd[p := p], bk := m.bk[p := p], index := m.index[p := i]);
        filing := Filing(filing.rings[s := [p]], filing.level[p := RootLevel(i)], filing.binned[p := s]);
        assert State() == InsertNode(b, p, s, RootLevel(i), AddRoot(b.tree, i, p));
        AddRootWrites(b.tree, i, p);
        InsertNodeWrites(b, p, s, RootLevel(i), AddRoot(b.tree, i, p));
      } else {
        assert Valid() && HeadsAgree(head, Binned());
        var t, side, same := FindPlace(head, s, i);
        if !same {
          RoomLevel(b, t, s, side);
          ghost var l := filing.level[t] - 1;
          InsertLeafPlan(b, p, s, t, side);
          m := m.(tree := AddLeaf(m.tree, t, side, p),
                  fd := m.fd[p := p], bk := m.bk[p := p], index := m.index[p := i]);
          filing := Filing(filing.rings[s := [p]], filing.level[p := l], filing.binned[p := s]);
          assert State() == InsertNode(b, p, s, l, AddLeaf(b.tree, t, side, p));
          AddLeafWrites(b.tree, t, side, p);
          InsertNodeWrites(b, p, s, l, AddLeaf(b.tree, t, side, p));
        } else {
          NodeHeadsRing(b, t);
          InsertChainedOk(b, p, s);
          InsertChainedWrites(b, p, s);
          var f := m.fd[t];
          m := m.(tree := FreshNode(m.tree, p, 0), fd := FdAfter(m.fd, t, f, p), bk := BkAfter(m.bk, t, f, p),
                  index := m.index[p := i]);
          filing := filing.(rings := filing.rings[s := [t, p] + filing.rings[s][1..]], binned := filing.binned[p := s]);
          assert State() == InsertChained(b, p, s);
        }
      }
    }

    // ----- tree bins coming out

    /** The search for the rightmost descendant of p, which is a leaf, and its removal from its parent. */
    method TakeLeaf(p: int) returns (r: int)
      requires Valid() && p in filing.level && NodeOk(m.tree, ShapeOf(State()), p) && !IsLeaf(m.tree, p)
      modifies this`m
      ensures r in filing.level && r != p && Covers(old(m.tree), old(ShapeOf(State())), p, r) && IsLeaf(old(m.tree), r)
      ensures |old(m.tree.roots)| == NTREEBINS
      ensures m == old(m).(tree := SetSlot(old(m.tree), old(ShapeOf(State())), r, 0))
    {
      hide ComputeTreeIndex, Prefix, RootLevel, RingsFit, ChunksFit, AllMapsFit, TrieOk, LargeSize;
      ghost var h := ShapeOf(State());
      var up := p;
      var side := if m.tree.child1[p] != 0 then 1 else 0;
      r := Child(m.tree, p, side);
      ChildCovered(m.tree, h, p, p, side);
      while m.tree.child1[r] != 0 || m.tree.child0[r] != 0
        invariant m == old(m) && r in filing.level && Covers(m.tree, h, p, r) && filing.level[r] < filing.level[p]
        invariant m.tree.parent[r] == up && Side(h, r) == side && filing.level[r] < RootLevel(BinOf(h, r))
        decreases filing.level[r]
      {
        up := r;
        side := if m.tree.child1[r] != 0 then 1 else 0;
        ChildCovered(m.tree, h, p, r, side);
        r := Child(m.tree, r, side);
      }
      RootFits(m.tree, h, 0);
      m := m.(tree := SetChild(m.tree, up, side, 0));
    }

    /** The last part of unlink_large_chunk: r, or nothing when r is 0, takes the place of the tree node p. */
    method Relink(p: int, r: int, ghost h: Shape)
      requires TrieOk(m.tree, h) && p in h.level && p in m.index && h.size == Binned()
      requires NodeOk(m.tree, h, p) && m.index[p] == ComputeTreeIndex(h.size[p])
      requires r == 0 || Replaces(m.tree, h, p, r)
      modifies this`m
      ensures |old(m.tree.roots)| == NTREEBINS
      ensures r != 0 ==> m == old(m).(tree := PutInPlace(old(m.tree), h, p, r))
      ensures r == 0 ==>
                m == old(m).(tree := SetSlot(old(m.tree), h, p, 0),
                             treemap := if h.level[p] == RootLevel(BinOf(h, p))
                                        then Bits.Without(old(m.treemap), Idx2Bit(BinOf(h, p))) else old(m.treemap))
    {
      hide ComputeTreeIndex, Prefix, RootLevel, TrieOk, LargeSize, Idx2Bit, Bits.Without, SameSlot;
      ghost var t := m.tree;
      SlotTests(m.tree, h, p);
      var xp := m.tree.parent[p];
      var i := m.index[p];
      if p == m.tree.roots[i] {
        m := m.(tree := m.tree.(roots := m.tree.roots[i := r]));
        if r == 0 { m := m.(treemap := Bits.Without(m.treemap, Idx2Bit(i))); }
      } else {
        m := m.(tree := SetChild(m.tree, xp, if m.tree.child0[xp] == p then 0 else 1, r));
      }
      if r != 0 {
        m := m.(tree := m.tree.(parent := m.tree.parent[r := xp]));
        assert m.tree.child0[p] == t.child0[p] && m.tree.child1[p] == t.child1[p];
        var c0 := m.tree.child0[p];
        m := m.(tree := Adopt(m.tree, r, 0, c0));
        var c1 := m.tree.child1[p];
        m := m.(tree := Adopt(m.tree, r, 1, c1));
      }
    }

    /** unlink_large_chunk */
    method UnlinkLargeChunk(p: int)
      requires Valid() && p in Binned() && !IsSmall(Binned()[p])
      modifies this
      ensures Valid() && Binned() == old(Binned()) - {p}
      ensures LinksWithin(old(m), m, old(Binned()), Binned())
    {
      hide LinksWithin, BinsOk, ComputeTreeIndex, TrieOk, NodeOk, Replaces, SetSlot, PutInPlace, Idx2Bit, Bits.Without;
      ghost var b := State();
      ghost var s := Binned()[p];
      ghost var k := FindInRing(b, p);
      LargeLinks(b, p, k);
      var xp := m.tree.parent[p];
      if m.bk[p] != p {
        var f, r := m.fd[p], m.bk[p];
        m := m.(fd := m.fd[r := f], bk := m.bk[f := r]);
        if xp != 0 {
          HeadReplacement(b, p);
          RemoveHeadOk(b, p);
          RemoveHeadWrites(b, p);
          Relink(p, r, ShapeOf(b));
          filing := Filing(filing.rings[s := [r] + filing.rings[s][1..|filing.rings[s]| - 1]],
                           Exchange(ShapeOf(b), p, r).level, filing.binned - {p});
          assert State() == RemoveHead(b, p);
        } else {
          RemoveChainedOk(b, p, k);
          RemoveChainedWrites(b, p, k);
          filing := filing.(rings := filing.rings[s := filing.rings[s][..k] + filing.rings[s][k + 1..]],
                            binned := filing.binned - {p});
          assert State() == RemoveChained(b, p, k);
        }
      } else if m.tree.child1[p] != 0 || m.tree.child0[p] != 0 {
        var r := TakeLeaf(p);
        LeafReplacement(b, p, r);
        RemoveInnerOk(b, p, r);
        RemoveInnerWrites(b, p, r);
        Relink(p, r, Tries.Without(ShapeOf(b), r));
        filing := Filing(filing.rings - {s}, Exchange(Tries.Without(ShapeOf(b), r), p, r).level, filing.binned - {p});
        assert State() == RemoveInner(b, p, r);
      } else {
        RemoveLoneLeafOk(b, p);
        RemoveLoneLeafWrites(b, p);
        Relink(p, 0, ShapeOf(b));
        filing := Filing(filing.rings - {s}, filing.level - {p}, filing.binned - {p});
        assert State() == RemoveLoneLeaf(b, p);
      }
    }

    // ----- searching the tree bins

    /** The first walk of tmalloc_large, through the bin of nb itself. */
    method WalkBin(head: map<int, Head>, nb: nat) returns (v: int, rsize: int, t: int)
      requires Valid() && HeadsAgree(head, Binned()) && LargeSize(nb)
      ensures BestSoFar(ShapeOf(State()), nb, v, rsize)
      ensures t != 0 ==> t in filing.level && UnderFits(m.tree, ShapeOf(State()), nb, rsize, t)
      ensures if t == 0 && v == 0
              then rsize == WORD - nb && AllLocated(m.tree, ShapeOf(State()), nb, rsize, 0, 0, ComputeTreeIndex(nb))
              else AllPending(m.tree, ShapeOf(State()), nb, rsize, t)
    {
      hide ComputeTreeIndex, Prefix, RootLevel, RingsFit, ChunksFit, AllMapsFit, TrieOk, AllLocated, PassedRight,
           LargeSize;
      LargeFits(nb);
      ghost var h := ShapeOf(State());
      ghost var i := ComputeTreeIndex(nb);
      WalkStarts(m.tree, h, nb);
      PathWordStart(nb);
      v, rsize := 0, Minus32(0, nb);
      t := m.tree.roots[ComputeTreeIndex(nb)];
      if t != 0 {
        RootNode(m.tree, h, i);
        var sizebits := ShiftLeft32(nb, LeftShift(ComputeTreeIndex(nb)));
        var rst := 0;
        while true
          invariant Walking(m.tree, h, nb, v, rsize, t, rst) && InBin(h, v, i) && t in filing.level && t in Binned()
          invariant BinOf(h, t) == i && LargeSize(h.size[t]) && t > 0 && h.size[t] < WORD
          invariant sizebits == PathWord(nb, filing.level[t])
          decreases filing.level[t]
        {
          var trem := Minus32(head[t].size, nb);
          LookAt(h, nb, v, rsize, t);
          ghost var rsize0, v0 := rsize, v;
          if trem < rsize {
            v, rsize := t, trem;
            if rsize == 0 {
              ExactFit(m.tree, h, nb, t);
              return;
            }
          }
          WalkOn(m.tree, h, nb, v0, rsize0, t, rst, v, rsize);
          PathBit(nb, filing.level[t]);
          var rt := m.tree.child1[t];
          ghost var t0, rst0 := t, rst;
          t := if TopBit(sizebits) == 0 then m.tree.child0[t] else m.tree.child1[t];
          if rt != 0 && rt != t { rst := rt; }
          assert t == NextNode(m.tree, h, nb, t0) && rst == NextRight(m.tree, h, nb, t0, rst0);
          if t == 0 {
            t := rst;
            if t != 0 || v != 0 { OtherBins(m.tree, h, nb, v, rsize, t); }
            return;
          }
          sizebits := sizebits * 2 % WORD;
        }
      }
    }

    /** The walk to the smallest node of a subtree. */
    method Leftmost(head: map<int, Head>, nb: nat, v0: int, rsize0: int, t0: int) returns (v: int, rsize: int)
      requires Valid() && HeadsAgree(head, Binned()) && 0 < nb < WORD
      requires Descending(m.tree, ShapeOf(State()), nb, v0, rsize0, t0)
      requires t0 != 0 ==> UnderFits(m.tree, ShapeOf(State()), nb, rsize0, t0)
      ensures if v == 0 then rsize == WORD - nb && NoFit(Binned(), nb)
              else SmallestFit(Binned(), nb, v) && v in filing.level && rsize == Binned()[v] - nb
    {
      hide ComputeTreeIndex, Prefix, RootLevel, BinsOk, Descending, Accounted, SmallestFit, NoFit, BestSoFar;
      ghost var h := ShapeOf(State());
      v, rsize := v0, rsize0;
      var t := t0;
      if t != 0 { NodeKnown(m.tree, h, nb, v, rsize, t); }
      while t != 0
        invariant Descending(m.tree, h, nb, v, rsize, t)
        invariant t != 0 ==> NodeOk(m.tree, h, t)
        invariant t != 0 ==> UnderFits(m.tree, h, nb, rsize, t)
        decreases if t == 0 then 0 else 1 + filing.level[t]
      {
        var trem := Minus32(head[t].size, nb);
        ghost var r0, w0 := rsize, v;
        LookDown(m.tree, h, nb, v, rsize, t);
        if trem < rsize {
          rsize := trem;
          v := t;
        }
        LeftmostDescends(m.tree, h, nb, w0, r0, t, v, rsize);
        t := LeftmostChild(m.tree, t);
      }
      NothingPending(State(), nb, v, rsize);
    }

    /** The search of tmalloc_large: the smallest tree chunk of at least nb bytes, and what it leaves over. */
    method FindBestFit(head: map<int, Head>, nb: nat) returns (v: int, rsize: int)
      requires Valid() && HeadsAgree(head, Binned()) && LargeSize(nb)
      ensures if v == 0 then rsize == WORD - nb && NoFit(Binned(), nb)
              else SmallestFit(Binned(), nb, v) && rsize == Binned()[v] - nb
    {
      LargeFits(nb);
      hide ComputeTreeIndex, Prefix, RootLevel, BinsOk, Descending, TrieOk, NoFit, SmallestFit, AllLocated,
           AllPending, LargeSize;
      ghost var h := ShapeOf(State());
      var t: int;
      v, rsize, t := WalkBin(head, nb);
      var idx := ComputeTreeIndex(nb);
      if t == 0 && v == 0 {
        var leftbits := And(LeftBits(Idx2Bit(idx)), m.treemap);
        NextRoot(State(), nb);
        if leftbits != 0 {
          t := m.tree.roots[Bit2Idx(LeastBit(leftbits)) as int];
        }
      }
      v, rsize := Leftmost(head, nb, v, rsize, t);
    }

    /** The search of tmalloc_small: the smallest tree chunk of all. */
    method FindSmallest(head: map<int, Head>, nb: nat) returns (v: int, rsize: int)
      requires Valid() && HeadsAgree(head, Binned()) && MIN_CHUNK_SIZE <= nb < MIN_LARGE_SIZE && m.treemap != 0
      ensures v != 0 && SmallestFit(Binned(), nb, v) && rsize == Binned()[v] - nb
    {
      hide ComputeTreeIndex, Prefix, RootLevel, BinsOk, Descending, NoFit, SmallestFit, UnderFits;
      LeastRoot(State(), nb);
      var i := Bit2Idx(LeastBit(m.treemap)) as int;
      var t := m.tree.roots[i];
      v := t;
      rsize := Minus32(head[t].size, nb);
      v, rsize := Leftmost(head, nb, v, rsize, LeftmostChild(m.tree, t));
      if v == 0 { SomeFit(Binned(), nb, t); }
    }

    // ----- bin_find

    /** The walk around a ring from its first element. */
    method WalkRing(first: int, x: int, ghost s: nat) returns (found: bool)
      requires Valid() && s in filing.rings && |filing.rings[s]| > 0 && filing.rings[s][0] == first
      ensures found <==> x in filing.rings[s]
    {
      hide ChunksFit, AllMapsFit, TrieOk;
      ghost var ring, k := filing.rings[s], 0;
      assert RingFits(State(), s);
      var p := first;
      while true
        invariant 0 <= k < |ring| && p == ring[k] && x !in ring[..k]
        decreases |ring| - k
      {
        if p == x { return true; }
        assert Linked(m.fd, m.bk, ring, k);
        p := m.fd[p];
        if p == first {
          assert ring[..k + 1] == ring;
          return false;
        }
        k := k + 1;
      }
    }

    /** bin_find: whether the chunk x is in the bin of its size. */
    method BinFind(head: map<int, Head>, x: int) returns (found: bool)
      requires Valid() && HeadsAgree(head, Binned()) && x > 0 && x in head && ChunkSize(head[x].size)
      ensures found <==> x in Binned()
    {
      hide BinsOk, ComputeTreeIndex, Idx2Bit, And, RoomBelow;
      var size := head[x].size;
      InRingOfSize(State(), x, size);
      if IsSmall(size) {
        SmallMapTest(State(), size / 8);
        if And(m.smallmap, Idx2Bit(size / 8)) != 0 {
          SmallHeadLinked(State(), size);
          found := WalkRing(SmallBinAt(size / 8), x, size);
        } else {
          found := false;
        }
      } else {
        var i := ComputeTreeIndex(size);
        TreeMapTest(State(), i);
        if And(m.treemap, Idx2Bit(i)) != 0 {
          var t, side, same := FindPlace(head, size, i);
          if same {
            NodeHeadsRing(State(), t);
            found := WalkRing(t, x, size);
          } else {
            NoRingBelow(State(), t, size, side);
            found := false;
          }
        } else {
          NoRingInEmpty(State(), size);
          found := false;
        }
      }
    }

    // ----- writes of callers

    /** A caller has written n bytes from lo on into its block: links that lie there now read as in other. */
    method Overwrite(other: BinWords, lo: int, n: nat)
      requires Valid() && BinsOk(Relinked(State(), LinksOver(m, other, lo, n)))
      modifies this`m
      ensures Valid() && m == LinksOver(old(m), other, lo, n)
    {
      m := LinksOver(m, other, lo, n);
    }
  }
}
