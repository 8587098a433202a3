/** What a caller sees of the stores of the allocator: they miss every block that is in use before and after. */
module Stores {
  import opened BinState
  import opened Chunks
  import opened BinWrites
  import opened Heap
  import opened HeapGrows

  /** The words of the allocator among the chunks: heads, prev_foot fields, and the links of chunks in bins. */
  datatype Words = Words(head: map<int, Head>, foot: map<int, int>, bins: BinWords)

  /** The byte at a belongs to a link that differs. */
  predicate LinksTouch(m: BinWords, m': BinWords, a: int)
  {
    Touches(m.fd, m'.fd, 8, a) || Touches(m.bk, m'.bk, 12, a) ||
    Touches(m.tree.child0, m'.tree.child0, 16, a) || Touches(m.tree.child1, m'.tree.child1, 20, a) ||
    Touches(m.tree.parent, m'.tree.parent, 24, a) || Touches(m.index, m'.index, 28, a)
  }

  /** The byte at a belongs to a word that differs. */
  predicate Stored(s: Words, s': Words, a: int)
  {
    Touches(s.head, s'.head, 4, a) || Touches(s.foot, s'.foot, 0, a) || LinksTouch(s.bins, s'.bins, a)
  }

  /** The blocks in use and the words around them, at one time. */
  datatype Store = Store(used: map<int, nat>, words: Words)

  function StoreOf(v: View, m: BinWords): Store { Store(Used(v.t), Words(v.w.head, v.w.foot, m)) }

  /** No word that differs shares a byte with a block that is in use before and after. */
  ghost predicate Spared(s: Store, s': Store)
  {
    forall p, a {:trigger InBlock(s'.used, p, a)} ::
      InBlock(s.used, p, a) && InBlock(s'.used, p, a) ==> !Stored(s.words, s'.words, a)
  }

  lemma NothingStored(s: Store, s': Store)
    requires s'.words == s.words || s.used == map[]
    ensures Spared(s, s')
  {}

  lemma LinksSame(m: BinWords, b: map<int, nat>)
    ensures LinksWithin(m, m, b, b)
  {}

  /** What is in use before and after was in use in between, to no lesser extent. */
  predicate UsedBetween(u: map<int, nat>, u1: map<int, nat>, u2: map<int, nat>)
  {
    forall p :: p in u && p in u2 ==> p in u1 && (u1[p] >= u[p] || u1[p] >= u2[p])
  }

  lemma TouchesThen<T>(m: map<int, T>, m1: map<int, T>, m2: map<int, T>, off: int, a: int)
    ensures Touches(m, m2, off, a) ==> Touches(m, m1, off, a) || Touches(m1, m2, off, a)
  {}

  lemma StoredThen(s: Words, s1: Words, s2: Words, a: int)
    ensures Stored(s, s2, a) ==> Stored(s, s1, a) || Stored(s1, s2, a)
  {
    hide Touches;
    TouchesThen(s.head, s1.head, s2.head, 4, a);
    TouchesThen(s.foot, s1.foot, s2.foot, 0, a);
    TouchesThen(s.bins.fd, s1.bins.fd, s2.bins.fd, 8, a);
    TouchesThen(s.bins.bk, s1.bins.bk, s2.bins.bk, 12, a);
    TouchesThen(s.bins.tree.child0, s1.bins.tree.child0, s2.bins.tree.child0, 16, a);
    TouchesThen(s.bins.tree.child1, s1.bins.tree.child1, s2.bins.tree.child1, 20, a);
    TouchesThen(s.bins.tree.parent, s1.bins.tree.parent, s2.bins.tree.parent, 24, a);
    TouchesThen(s.bins.index, s1.bins.index, s2.bins.index, 28, a);
  }

  lemma SparedThen(s: Store, s1: Store, s2: Store)
    requires Spared(s, s1) && Spared(s1, s2) && UsedBetween(s.used, s1.used, s2.used)
    ensures Spared(s, s2)
  {
    hide Stored;
    forall p, a | InBlock(s.used, p, a) && InBlock(s2.used, p, a) ensures !Stored(s.words, s2.words, a) {
      assert InBlock(s1.used, p, a);
      StoredThen(s.words, s1.words, s2.words, a);
    }
  }

  // ----- links lie in free chunks

  /** A chunk in a bin, from its head on, and a block have no byte in common. */
  lemma BinnedClear(v: View, x: int, p: int, a: int)
    requires HeapOk(v) && x in v.binned && InBlock(Used(v.t), p, a)
    ensures a < x + 4 || x + v.binned[x] + 4 <= a
  {
    ChunkHere(v, x);
    ChunkHere(v, p);
    assert Ordered(v.t, x, p) && Ordered(v.t, p, x);
    hide HeapOk;
  }

  lemma LinkClear(v: View, v': View, m: BinWords, m': BinWords, x: int, p: int, a: int)
    requires (NoHeap(v) || HeapOk(v)) && HeapOk(v') && LinksWithin(m, m', v.binned, v'.binned)
    requires InBlock(Used(v.t), p, a) && InBlock(Used(v'.t), p, a)
    ensures RingDiffers(m, m', x) ==> a < x + 8 || x + 16 <= a
    ensures TreeDiffers(m.tree, m'.tree, x) || Differs(m.index, m'.index, x) ==> a < x + 16 || x + 32 <= a
  {
    assert LinkWrites(m, m', v.binned, v'.binned, x);
    ChunkHere(v', p);
    if x in v.binned { BinnedClear(v, x, p, a); ChunkHere(v, x); }
    if x in v'.binned { BinnedClear(v', x, p, a); ChunkHere(v', x); }
    hide HeapOk, RingDiffers, TreeDiffers, Differs, LinksWithin;
  }

  /** The word that the byte at a belongs to. */
  lemma TouchedBy<T>(m: map<int, T>, m': map<int, T>, off: int, a: int) returns (x: int)
    requires Touches(m, m', off, a)
    ensures Differs(m, m', x) && x + off <= a < x + off + 4
  {
    x := a - off;
    if !Differs(m, m', x) { x := x - 1; }
    if !Differs(m, m', x) { x := x - 1; }
    if !Differs(m, m', x) { x := x - 1; }
  }

  lemma LinksSpared(v: View, v': View, m: BinWords, m': BinWords, p: int, a: int)
    requires (NoHeap(v) || HeapOk(v)) && HeapOk(v') && LinksWithin(m, m', v.binned, v'.binned)
    requires InBlock(Used(v.t), p, a) && InBlock(Used(v'.t), p, a)
    ensures !LinksTouch(m, m', a)
  {
    hide HeapOk, NoHeap, LinksWithin, InBlock, Used, Differs, Touches;
    if LinksTouch(m, m', a) {
      var t, t' := m.tree, m'.tree;
      var x: int;
      if Touches(m.fd, m'.fd, 8, a) { x := TouchedBy(m.fd, m'.fd, 8, a); }
      else if Touches(m.bk, m'.bk, 12, a) { x := TouchedBy(m.bk, m'.bk, 12, a); }
      else if Touches(t.child0, t'.child0, 16, a) { x := TouchedBy(t.child0, t'.child0, 16, a); }
      else if Touches(t.child1, t'.child1, 20, a) { x := TouchedBy(t.child1, t'.child1, 20, a); }
      else if Touches(t.parent, t'.parent, 24, a) { x := TouchedBy(t.parent, t'.parent, 24, a); }
      else { x := TouchedBy(m.index, m'.index, 28, a); }
      LinkClear(v, v', m, m', x, p, a);
      assert false;
    }
  }

  /** A step that writes tags beside all blocks, and links only of chunks in bins, spares what stays in use. */
  lemma StepSpared(v: View, v': View, m: BinWords, m': BinWords)
    requires (NoHeap(v) || HeapOk(v)) && HeapOk(v') && TagsSpare(v.w, v'.w, Used(v'.t))
    requires LinksWithin(m, m', v.binned, v'.binned)
    ensures Spared(StoreOf(v, m), StoreOf(v', m'))
  {
    var s, s' := StoreOf(v, m), StoreOf(v', m');
    forall p, a | InBlock(s.used, p, a) && InBlock(s'.used, p, a) ensures !Stored(s.words, s'.words, a) {
      LinksSpared(v, v', m, m', p, a);
      hide HeapOk, LinksWithin, InBlock, Used, Touches, LinksTouch;
      assert !TagsTouch(v.w, v'.w, a);
    }
  }
}
