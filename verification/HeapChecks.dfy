/** The debugging checks of malloc.c, do_check_*, read as claims about the words in memory: the invariant implies them all. */
module HeapChecks {
  import opened Bits
  import opened TreeIndex
  import opened Tries
  import opened Rings
  import opened BinState
  import opened Heap
  import opened HeapSteps

  /** do_check_top_chunk, for a segment that ends TOP_FOOT_SIZE behind v.end */
  predicate CheckTop(w: HeapWords, end: int)
  {
    w.top in w.head && w.top % 8 == 0 && w.head[w.top].size == w.topsize && w.topsize > 0 && w.topsize == end - w.top &&
    w.head[w.top].pinuse && !HeadAt(w.head, w.top + w.topsize).pinuse
  }

  /** do_check_inuse_chunk */
  predicate CheckInuse(w: HeapWords, p: int)
  {
    p in w.head && p % 8 == 0 && w.head[p].cinuse && HeadAt(w.head, p + w.head[p].size).pinuse &&
    (w.head[p].pinuse || (p in w.foot && HeadAt(w.head, p - w.foot[p]).size == w.foot[p]))
  }

  /** do_check_free_chunk for a chunk in a bin */
  predicate CheckFree(w: HeapWords, b: Bins, p: int)
  {
    p in w.head && p % 8 == 0 && !w.head[p].cinuse && w.head[p].pinuse &&
    var sz := w.head[p].size;
    var next := p + sz;
    sz >= MIN_CHUNK_SIZE && sz % 8 == 0 && next in w.head && !w.head[next].pinuse && next in w.foot &&
    w.foot[next] == sz &&
    (next == w.top || w.head[next].cinuse) &&
    p in b.fd && p in b.bk && b.fd[p] in b.bk && b.bk[b.fd[p]] == p && b.bk[p] in b.fd && b.fd[b.bk[p]] == p
  }

  /** the dv part of do_check_malloc_state */
  predicate CheckDv(w: HeapWords, binned: map<int, nat>)
  {
    w.dvsize != 0 ==>
      w.dv in w.head && w.dv % 8 == 0 && w.dvsize == w.head[w.dv].size && w.dvsize >= MIN_CHUNK_SIZE &&
      w.dv !in binned &&
      !w.head[w.dv].cinuse && HeadAt(w.head, w.dv + w.dvsize).cinuse && w.dv + w.dvsize in w.foot &&
      w.foot[w.dv + w.dvsize] == w.dvsize
  }

  lemma ChecksHold(v: View, b: Bins)
    requires HeapOk(v) && BinsOk(b) && b.binned == v.binned
    ensures CheckTop(v.w, v.end) && CheckDv(v.w, v.binned)
    ensures forall p :: p in v.t && v.t[p].used ==> CheckInuse(v.w, p)
    ensures forall p :: p in v.binned ==> CheckFree(v.w, b, p)
    ensures forall p :: p in v.t && !v.t[p].used ==> p == v.w.top || p == v.w.dv || p in v.binned
  {
    ChunkHere(v, v.w.top);
    if v.w.dv != 0 { DvChecked(v); }
    forall p | p in v.t && v.t[p].used ensures CheckInuse(v.w, p) { InuseChecked(v, p); }
    forall p | p in v.binned ensures CheckFree(v.w, b, p) { FreeChecked(v, b, p); }
    forall p | p in v.t && !v.t[p].used ensures p == v.w.top || p == v.w.dv || p in v.binned { ChunkHere(v, p); }
    hide CheckInuse, CheckFree;
  }

  lemma DvChecked(v: View)
    requires HeapOk(v) && v.w.dv != 0
    ensures CheckDv(v.w, v.binned)
  {
    ChunkHere(v, v.w.dv);
    NextHere(v, v.w.dv);
    hide HeapOk;
  }

  lemma InuseChecked(v: View, p: int)
    requires HeapOk(v) && p in v.t && v.t[p].used
    ensures CheckInuse(v.w, p)
  {
    ChunkHere(v, p);
    ChunkHere(v, v.w.top);
    NextHere(v, p);
    if !v.w.head[p].pinuse { ChunkHere(v, p - v.w.foot[p]); }
    hide HeapOk;
  }

  lemma FreeChecked(v: View, b: Bins, p: int)
    requires HeapOk(v) && BinsOk(b) && b.binned == v.binned && p in v.binned
    ensures CheckFree(v.w, b, p)
  {
    hide BinsOk;
    ChunkHere(v, p);
    NextHere(v, p);
    var k := FindInRing(b, p);
    hide HeapOk;
  }

  // ----- do_check_smallbin and do_check_treebin

  /** do_check_smallbin for chunk p of bin i: a free chunk of the bin's size, linked to one like it or to the bin's head. */
  predicate CheckSmall(w: HeapWords, b: Bins, i: nat, p: int)
  {
    CheckFree(w, b, p) && w.head[p].size / 8 == i &&
    (b.bk[p] == SmallBinAt(i) || (b.bk[p] in w.head && w.head[b.bk[p]].size == w.head[p].size)) &&
    CheckInuse(w, p + w.head[p].size)
  }

  /** Every chunk of a small bin passes, and a marked bin is not empty. */
  lemma SmallBinChecked(v: View, b: Bins, i: nat)
    requires HeapOk(v) && BinsOk(b) && b.binned == v.binned && i < NSMALLBINS
    ensures Bit(b.smallmap, i) ==> SmallBinAt(i) in b.bk && b.bk[SmallBinAt(i)] != SmallBinAt(i)
    ensures forall p :: p in b.binned && IsSmall(b.binned[p]) && b.binned[p] / 8 == i ==> CheckSmall(v.w, b, i, p)
  {
    assert MapsFit(b, i);
    if Bit(b.smallmap, i) { SmallHeadLinks(b, i); }
    hide BinsOk, HeapOk, CheckSmall;
    forall p | p in b.binned && IsSmall(b.binned[p]) && b.binned[p] / 8 == i ensures CheckSmall(v.w, b, i, p) {
      SmallChecked(v, b, i, p);
    }
  }

  lemma SmallHeadLinks(b: Bins, i: nat)
    requires BinsOk(b) && 8 * i in b.rings && IsSmall(8 * i)
    ensures SmallBinAt(i) in b.bk && b.bk[SmallBinAt(i)] != SmallBinAt(i)
  {
    assert RingFits(b, 8 * i);
    NeighboursOf(b.fd, b.bk, b.rings[8 * i], 0);
    hide BinsOk;
  }

  lemma SmallChecked(v: View, b: Bins, i: nat, p: int)
    requires HeapOk(v) && BinsOk(b) && b.binned == v.binned && i < NSMALLBINS
    requires p in b.binned && IsSmall(b.binned[p]) && b.binned[p] / 8 == i
    ensures CheckSmall(v.w, b, i, p)
  {
    FreeChecked(v, b, p);
    ChunkHere(v, p);
    NextHere(v, p);
    InuseChecked(v, p + v.t[p].size);
    BackwardSame(b, p);
    if b.bk[p] in b.binned { ChunkHere(v, b.bk[p]); }
    hide HeapOk, BinsOk, CheckInuse;
  }

  /** The chunk before p in its small bin has its size, or p is the first. */
  lemma BackwardSame(b: Bins, p: int)
    requires BinsOk(b) && p in b.binned && IsSmall(b.binned[p])
    ensures p in b.bk &&
            (b.bk[p] == SmallBinAt(b.binned[p] / 8) || (b.bk[p] in b.binned && b.binned[b.bk[p]] == b.binned[p]))
  {
    hide TrieOk, AllMapsFit;
    var k := FindInRing(b, p);
    var ring := b.rings[b.binned[p]];
    if k > 1 { assert BinnedAs(b, ring[k - 1], b.binned[p]); }
  }

  /** do_check_treebin: a bin without a root is not marked, and the root of a marked one is a chunk in the bin. */
  lemma TreeBinChecked(b: Bins, i: nat)
    requires BinsOk(b) && i < NTREEBINS
    ensures i < |b.tree.roots| && (Bit(b.treemap, i) <==> b.tree.roots[i] != 0)
    ensures b.tree.roots[i] != 0 ==> b.tree.roots[i] in b.level && CheckTreeNode(b, b.tree.roots[i])
  {
    TreeMapTest(b, i);
    assert MapsFit(b, i);
    hide CheckTreeNode, ComputeTreeIndex;
    assert RootOk(b.tree, ShapeOf(b), i);
    if b.tree.roots[i] != 0 {
      LevelsBinned(b);
      TreeChecked(b, b.tree.roots[i]);
    }
  }

  // ----- do_check_tree

  /** do_check_tree for the chunk t: its index, and the links and sizes around it; a chained chunk has no tree links. */
  predicate CheckTreeNode(b: Bins, t: int)
  {
    t in b.binned && t in b.index && HasLinks(b.tree, t) &&
    var size, i := b.binned[t], b.index[t];
    var u, c0, c1 := b.tree.parent[t], b.tree.child0[t], b.tree.child1[t];
    LargeSize(size) && i == ComputeTreeIndex(size) && MinSize(i) <= size && (i == NTREEBINS - 1 || size < MinSize(i + 1)) &&
    (u == 0 ==> c0 == 0 && c1 == 0) &&
    (u > 0 ==> u != t && u in b.tree.child0 && u in b.tree.child1 && (b.tree.child0[u] == t || b.tree.child1[u] == t)) &&
    (u < 0 ==> i < |b.tree.roots| && b.tree.roots[i] == t && u == TreeBinAt(i)) &&
    (c0 != 0 ==> c0 != t && c0 in b.tree.parent && b.tree.parent[c0] == t) &&
    (c1 != 0 ==> c1 != t && c1 in b.tree.parent && b.tree.parent[c1] == t) &&
    (c0 != 0 && c1 != 0 ==> c0 in b.binned && c1 in b.binned && b.binned[c0] < b.binned[c1])
  }

  /** The two children of a node: linked back to it, and of smaller and larger sizes. */
  lemma ChildrenHere(m: TreeMemory, h: Shape, t: int)
    requires TrieOk(m, h) && t in h.level
    ensures HasLinks(m, t)
    ensures forall c :: c != 0 && (c == m.child0[t] || c == m.child1[t]) ==>
              c != t && c in m.parent && m.parent[c] == t && c in h.size
    ensures m.child0[t] != 0 && m.child1[t] != 0 ==> h.size[m.child0[t]] < h.size[m.child1[t]]
  {
    assert ChildOk(m, h, t, 0) && ChildOk(m, h, t, 1);
    hide TrieOk, ComputeTreeIndex, Prefix, RootLevel;
    var c0, c1 := m.child0[t], m.child1[t];
    if c0 != 0 && c1 != 0 { PrefixOrders(h.size[c0], h.size[c1], h.level[c0]); }
  }

  lemma ParentHere(m: TreeMemory, h: Shape, t: int)
    requires TrieOk(m, h) && t in h.level
    ensures NodeOk(m, h, t) && m.parent[t] != 0
    ensures var u, i := m.parent[t], BinOf(h, t);
            if u > 0 then u != t && u in m.child0 && u in m.child1 && (m.child0[u] == t || m.child1[u] == t)
            else i < |m.roots| && m.roots[i] == t && u == TreeBinAt(i)
  {
    assert NodeOk(m, h, t) && ParentOk(m, h, t);
    hide TrieOk, ComputeTreeIndex, Prefix, RootLevel;
  }

  /** A tree node passes. */
  lemma NodeChecked(b: Bins, t: int)
    requires TrieOk(b.tree, ShapeOf(b)) && t in b.level && ChunkFits(b, t) && !IsSmall(b.binned[t])
    ensures CheckTreeNode(b, t) && b.tree.parent[t] != 0
  {
    ChildrenHere(b.tree, ShapeOf(b), t);
    ParentHere(b.tree, ShapeOf(b), t);
    TreeIndexIsBin(b.binned[t]);
    hide TrieOk, NodeOk, ComputeTreeIndex, MinSize;
  }

  /** Every chunk in a tree bin passes, and the one with a parent is the first on the chain of its size. */
  lemma TreeChecked(b: Bins, t: int)
    requires BinsOk(b) && t in b.binned && !IsSmall(b.binned[t])
    ensures CheckTreeNode(b, t)
    ensures b.tree.parent[t] != 0 <==> b.binned[t] in b.rings && |b.rings[b.binned[t]]| > 0 && b.rings[b.binned[t]][0] == t
  {
    hide ComputeTreeIndex, TrieOk, CheckTreeNode;
    assert ChunkFits(b, t);
    if t in b.level {
      NodeChecked(b, t);
    } else {
      ChainedChecked(b, t);
    }
  }

  lemma ChainedChecked(b: Bins, t: int)
    requires ChunkFits(b, t) && !IsSmall(b.binned[t]) && t !in b.level
    ensures CheckTreeNode(b, t) && b.tree.parent[t] == 0
  {
    TreeIndexIsBin(b.binned[t]);
    hide ComputeTreeIndex, MinSize;
  }
}
