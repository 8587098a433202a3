/**
  Why the walks of tmalloc_large and tmalloc_small find the smallest chunk that fits: what is not yet
  accounted for lies under the node at hand, or under the deepest right subtree passed by.
*/
module BestFit {
  import opened TreeIndex
  import opened Tries

  /** a - b on 32-bit words. */
  function Minus32(a: int, b: int): (d: int)
    ensures 0 <= d < WORD
  {
    (a - b) % WORD
  }

  lemma Minus32Wraps(a: int, b: int)
    requires 0 <= a < WORD && 0 <= b < WORD
    ensures Minus32(a, b) == if a >= b then a - b else a - b + WORD
  {}

  /** Node y is too small for nb, or leaves no less than the best remainder so far. */
  predicate Accounted(h: Shape, nb: int, rsize: int, y: int)
  {
    y in h.size && (h.size[y] < nb || rsize <= h.size[y] - nb)
  }

  /** The best node so far: none yet, or v with remainder rsize. */
  predicate BestSoFar(h: Shape, nb: int, v: int, rsize: int)
  {
    if v == 0 then rsize == WORD - nb
    else v in h.level && v in h.size && nb <= h.size[v] < WORD && rsize == h.size[v] - nb
  }

  /** y lies under t, or is larger than t. */
  predicate UnderOrAbove(m: TreeMemory, h: Shape, t: int, y: int)
  {
    t in h.level && t in h.size && y in h.size && (Covers(m, h, t, y) || h.size[t] < h.size[y])
  }

  predicate Located(m: TreeMemory, h: Shape, nb: int, rsize: int, t: int, rst: int, y: int)
  {
    Accounted(h, nb, rsize, y) || (t != 0 && Covers(m, h, t, y)) || (rst != 0 && UnderOrAbove(m, h, rst, y))
  }

  /** Every node of bin i is accounted for, under t, or at or above the subtree rst. */
  ghost predicate AllLocated(m: TreeMemory, h: Shape, nb: int, rsize: int, t: int, rst: int, i: nat)
  {
    forall y {:trigger Located(m, h, nb, rsize, t, rst, y)} ::
      y in h.level && NodeOk(m, h, y) && BinOf(h, y) == i ==> Located(m, h, nb, rsize, t, rst, y)
  }

  /** rst is a right subtree passed by on the way to t: it holds the sizes just above nb's slot at its level. */
  predicate PassedRight(m: TreeMemory, h: Shape, nb: nat, t: int, rst: int)
  {
    rst == 0 ||
    (NodeOk(m, h, rst) && NodeOk(m, h, t) && h.level[rst] >= h.level[t] && BinOf(h, rst) == BinOf(h, t) &&
     Prefix(h.size[rst], h.level[rst]) == Prefix(nb, h.level[rst]) + 1)
  }

  /** The first walk of tmalloc_large at node t. */
  ghost predicate Walking(m: TreeMemory, h: Shape, nb: nat, v: int, rsize: int, t: int, rst: int)
  {
    TrieOk(m, h) && LargeSize(nb) && NodeOk(m, h, t) && SameSlot(nb, h.size[t], h.level[t]) &&
    BestSoFar(h, nb, v, rsize) && PassedRight(m, h, nb, t, rst) &&
    AllLocated(m, h, nb, rsize, t, rst, ComputeTreeIndex(nb))
  }

  lemma WalkStarts(m: TreeMemory, h: Shape, nb: nat)
    requires TrieOk(m, h) && LargeSize(nb)
    ensures |m.roots| == NTREEBINS
    ensures var t := m.roots[ComputeTreeIndex(nb)];
            if t != 0 then Walking(m, h, nb, 0, WORD - nb, t, 0)
            else AllLocated(m, h, nb, WORD - nb, 0, 0, ComputeTreeIndex(nb))
  {
    var i := ComputeTreeIndex(nb);
    RootFits(m, h, i);
    var t := m.roots[i];
    if t != 0 { SameBinSamePrefix(nb, h.size[t]); }
    forall y | y in h.level && NodeOk(m, h, y) && BinOf(h, y) == i ensures Located(m, h, nb, WORD - nb, t, 0, y) {
      RootCovers(m, h, y);
    }
  }

  /** Looking at node t: take it when it fits better. */
  lemma LookAt(h: Shape, nb: nat, v: int, rsize: int, t: int)
    requires t in h.level && t in h.size && t > 0 && h.size[t] < WORD && 0 < nb < WORD && BestSoFar(h, nb, v, rsize)
    ensures var trem := Minus32(h.size[t], nb);
            var v', r' := if trem < rsize then t else v, if trem < rsize then trem else rsize;
            BestSoFar(h, nb, v', r') && Accounted(h, nb, r', t) && r' <= rsize
  {
    Minus32Wraps(h.size[t], nb);
  }

  /** Everything under a right subtree passed by is larger than everything under t. */
  lemma PassedIsLarger(m: TreeMemory, h: Shape, nb: nat, t: int, rst: int, x: int, y: int)
    requires rst != 0 && PassedRight(m, h, nb, t, rst) && SameSlot(nb, h.size[t], h.level[t])
    requires Covers(m, h, t, x) && Covers(m, h, rst, y)
    ensures h.size[x] < h.size[y]
  {
    var l := h.level[rst];
    PrefixUp(h.size[x], h.size[t], h.level[t], l);
    PrefixUp(nb, h.size[t], h.level[t], l);
    PrefixOrders(h.size[x], h.size[y], l);
  }

  /** The node the walk goes to, and the right subtree it passes by, when it leaves t. */
  function NextNode(m: TreeMemory, h: Shape, nb: nat, t: int): int
    requires NodeOk(m, h, t)
  {
    Child(m, t, Prefix(nb, h.level[t] - 1) % 2)
  }

  function NextRight(m: TreeMemory, h: Shape, nb: nat, t: int, rst: int): int
    requires NodeOk(m, h, t)
  {
    var rt := Child(m, t, 1);
    if rt != 0 && rt != NextNode(m, h, nb, t) then rt else rst
  }

  /** The links of t lead one level down, to prefixes that differ in the last bit. */
  lemma ChildPrefix(m: TreeMemory, h: Shape, t: int, b: int)
    requires TrieOk(m, h) && t in h.level && Sided(b) && NodeOk(m, h, t)
    ensures var c := Child(m, t, b);
            c != 0 ==> NodeOk(m, h, c) && BinOf(h, c) == BinOf(h, t) && h.level[c] + 1 == h.level[t] &&
                       Prefix(h.size[c], h.level[c]) == 2 * Prefix(h.size[t], h.level[t]) + b
  {
    hide ComputeTreeIndex, Prefix, RootLevel;
    assert ChildOk(m, h, t, b);
  }

  /** Nothing under t is too small for nb, or an exact fit has made that irrelevant. */
  ghost predicate UnderFits(m: TreeMemory, h: Shape, nb: int, rsize: int, t: int)
  {
    rsize == 0 || forall y {:trigger Covers(m, h, t, y)} :: Covers(m, h, t, y) ==> h.size[y] >= nb
  }

  lemma RightFits(m: TreeMemory, h: Shape, nb: nat, t: int, rst: int, rsize: int)
    requires rst != 0 && NodeOk(m, h, rst) && Prefix(h.size[rst], h.level[rst]) == Prefix(nb, h.level[rst]) + 1
    ensures UnderFits(m, h, nb, rsize, rst)
  {
    forall y | Covers(m, h, rst, y) ensures h.size[y] >= nb { PrefixOrders(nb, h.size[y], h.level[rst]); }
  }

  lemma NextWalks(m: TreeMemory, h: Shape, nb: nat, v: int, rsize: int, t: int, rst: int)
    requires Walking(m, h, nb, v, rsize, t, rst)
    ensures var c, rst' := NextNode(m, h, nb, t), NextRight(m, h, nb, t, rst);
            (c != 0 ==> NodeOk(m, h, c) && SameSlot(nb, h.size[c], h.level[c]) && PassedRight(m, h, nb, c, rst') &&
                        h.level[c] + 1 == h.level[t]) &&
            (rst' != 0 ==> rst' in h.level && NodeOk(m, h, rst') && BinOf(h, rst') == ComputeTreeIndex(nb) &&
                           UnderFits(m, h, nb, rsize, rst'))
  {
    ChildPrefix(m, h, t, 0);
    ChildPrefix(m, h, t, 1);
    PrefixStep(nb, h.level[t] - 1);
    var rst' := NextRight(m, h, nb, t, rst);
    if rst' != 0 { RightFits(m, h, nb, t, rst', rsize); }
    hide ComputeTreeIndex, Prefix, RootLevel, TrieOk, AllLocated, BestSoFar;
  }

  lemma LocatedNext(m: TreeMemory, h: Shape, nb: nat, v: int, rsize: int, t: int, rst: int, rsize': int, y: int)
    requires Walking(m, h, nb, v, rsize, t, rst) && Accounted(h, nb, rsize', t) && rsize' <= rsize
    requires NodeOk(m, h, y) && BinOf(h, y) == ComputeTreeIndex(nb)
    ensures Located(m, h, nb, rsize', NextNode(m, h, nb, t), NextRight(m, h, nb, t, rst), y)
  {
    hide ComputeTreeIndex, Prefix, RootLevel, TrieOk;
    var l := h.level[t];
    var c, rt, rst' := NextNode(m, h, nb, t), Child(m, t, 1), NextRight(m, h, nb, t, rst);
    assert Located(m, h, nb, rsize, t, rst, y);
    NextWalks(m, h, nb, v, rsize, t, rst);
    ChildPrefix(m, h, t, 1);
    if Accounted(h, nb, rsize', y) {
    } else if Covers(m, h, t, y) {
      Descend(m, h, t, y);
      PrefixStep(h.size[y], l - 1);
      PrefixStep(nb, l - 1);
      if Prefix(h.size[y], l - 1) < Prefix(nb, l - 1) { PrefixOrders(h.size[y], nb, l - 1); }
    } else if rst' != rst {
      var x := rst';
      assert Covers(m, h, t, x) by { PrefixStep(h.size[x], h.level[x]); }
      if Covers(m, h, rst, y) { PassedIsLarger(m, h, nb, t, rst, x, y); } else { PassedIsLarger(m, h, nb, t, rst, x, rst); }
    }
  }

  /** The node the second walk goes to: the leftmost child there is. */
  function LeftmostChild(m: TreeMemory, t: int): int
    requires HasLinks(m, t)
  {
    if m.child0[t] != 0 then m.child0[t] else m.child1[t]
  }

  /** Node y is accounted for, or under t, or larger than t. */
  predicate Pending(m: TreeMemory, h: Shape, nb: int, rsize: int, t: int, y: int)
  {
    Accounted(h, nb, rsize, y) || (t != 0 && UnderOrAbove(m, h, t, y))
  }

  ghost predicate AllPending(m: TreeMemory, h: Shape, nb: int, rsize: int, t: int)
  {
    forall y {:trigger Pending(m, h, nb, rsize, t, y)} :: y in h.level ==> Pending(m, h, nb, rsize, t, y)
  }

  /** The second walk at t: every node that might do better lies under t or is larger than t. */
  ghost predicate Descending(m: TreeMemory, h: Shape, nb: nat, v: int, rsize: int, t: int)
  {
    TrieOk(m, h) && 0 < nb < WORD && BestSoFar(h, nb, v, rsize) && (t != 0 ==> t in h.level) &&
    AllPending(m, h, nb, rsize, t)
  }

  /** One round of the second walk. */
  lemma LeftmostDescends(m: TreeMemory, h: Shape, nb: nat, v: int, rsize: int, t: int, v': int, rsize': int)
    requires Descending(m, h, nb, v, rsize, t) && t != 0 && UnderFits(m, h, nb, rsize, t) && rsize' <= rsize
    requires BestSoFar(h, nb, v', rsize') && Accounted(h, nb, rsize', t)
    ensures NodeOk(m, h, t)
    ensures var c := LeftmostChild(m, t);
            Descending(m, h, nb, v', rsize', c) &&
            (c != 0 ==> NodeOk(m, h, c) && h.level[c] < h.level[t] && UnderFits(m, h, nb, rsize', c))
  {
    assert NodeOk(m, h, t);
    var c := LeftmostChild(m, t);
    ChildPrefix(m, h, t, 0);
    ChildPrefix(m, h, t, 1);
    assert h.size[t] >= nb || rsize' == 0 by { assert Covers(m, h, t, t); }
    LeftmostFits(m, h, nb, rsize, t, rsize');
    forall y | y in h.level ensures Pending(m, h, nb, rsize', c, y) {
      assert Pending(m, h, nb, rsize, t, y);
      if !Accounted(h, nb, rsize', y) && Covers(m, h, t, y) { LeftmostPending(m, h, t, y); }
    }
  }

  /** What lies under t lies under its leftmost child or is larger than it. */
  lemma LeftmostPending(m: TreeMemory, h: Shape, t: int, y: int)
    requires TrieOk(m, h) && Covers(m, h, t, y) && y != t
    ensures var c := LeftmostChild(m, t); c != 0 && UnderOrAbove(m, h, c, y)
  {
    Descend(m, h, t, y);
    var c, d := LeftmostChild(m, t), Child(m, t, Prefix(h.size[y], h.level[t] - 1) % 2);
    ChildPrefix(m, h, t, 0);
    ChildPrefix(m, h, t, 1);
    if c != d { PrefixOrders(h.size[c], h.size[y], h.level[c]); }
  }

  /** The best node lies in bin i, if there is one. */
  predicate InBin(h: Shape, v: int, i: nat)
  {
    v != 0 ==> v in h.size && LargeSize(h.size[v]) && BinOf(h, v) == i
  }

  /** Nodes of lower bins are too small, those of higher bins are larger than anything found in bin i. */
  lemma OtherBins(m: TreeMemory, h: Shape, nb: nat, v: int, rsize: int, t: int)
    requires TrieOk(m, h) && LargeSize(nb) && BestSoFar(h, nb, v, rsize)
    requires InBin(h, v, ComputeTreeIndex(nb)) && InBin(h, t, ComputeTreeIndex(nb)) && (t != 0 ==> t in h.level)
    requires v != 0 || t != 0
    requires AllLocated(m, h, nb, rsize, 0, t, ComputeTreeIndex(nb))
    ensures AllPending(m, h, nb, rsize, t)
  {
    var i := ComputeTreeIndex(nb);
    forall y | y in h.level ensures Pending(m, h, nb, rsize, t, y) {
      assert NodeOk(m, h, y);
      if BinOf(h, y) == i {
        assert Located(m, h, nb, rsize, 0, t, y);
      } else if BinOf(h, y) < i {
        TreeIndexMonotone(h.size[y], nb);
      } else {
        TreeIndexMonotone(h.size[if v != 0 then v else t], h.size[y]);
      }
    }
  }

  /** An exact fit settles everything. */
  lemma ExactFit(m: TreeMemory, h: Shape, nb: nat, t: int)
    requires TrieOk(m, h)
    ensures AllPending(m, h, nb, 0, t)
  {
    forall y | y in h.level ensures Pending(m, h, nb, 0, t, y) { assert NodeOk(m, h, y); }
  }

  /** With nothing in nb's own bin, the root of the next bin has everything that fits under or above it. */
  lemma NextBinPending(m: TreeMemory, h: Shape, nb: nat, i: nat)
    requires TrieOk(m, h) && LargeSize(nb) && |m.roots| == NTREEBINS
    requires AllLocated(m, h, nb, WORD - nb, 0, 0, ComputeTreeIndex(nb))
    requires i <= NTREEBINS && (i < NTREEBINS ==> m.roots[i] != 0)
    requires forall j :: ComputeTreeIndex(nb) < j < i ==> m.roots[j] == 0
    ensures AllPending(m, h, nb, WORD - nb, if i < NTREEBINS then m.roots[i] else 0)
  {
    var t := if i < NTREEBINS then m.roots[i] else 0;
    forall y | y in h.level ensures Pending(m, h, nb, WORD - nb, t, y) {
      RootCovers(m, h, y);
      if BinOf(h, y) == ComputeTreeIndex(nb) {
        assert Located(m, h, nb, WORD - nb, 0, 0, y);
      } else if BinOf(h, y) < ComputeTreeIndex(nb) {
        TreeIndexMonotone(h.size[y], nb);
      } else if BinOf(h, y) != i {
        RootFits(m, h, i);
        TreeIndexMonotone(h.size[t], h.size[y]);
      }
    }
  }

  lemma LargeFits(nb: nat)
    requires LargeSize(nb)
    ensures 256 <= nb < WORD && Minus32(0, nb) == WORD - nb
  {
    Minus32Wraps(0, nb);
  }

  lemma RootNode(m: TreeMemory, h: Shape, i: nat)
    requires TrieOk(m, h) && i < NTREEBINS && |m.roots| == NTREEBINS && m.roots[i] != 0
    ensures var t := m.roots[i];
            t in h.level && t in h.size && NodeOk(m, h, t) && BinOf(h, t) == i && h.level[t] == RootLevel(i) &&
            t > 0 && h.size[t] < WORD
  {
    RootFits(m, h, i);
  }

  /** One round of the first walk: what is known at the next node, or when there is none. */
  lemma WalkOn(m: TreeMemory, h: Shape, nb: nat, v: int, rsize: int, t: int, rst: int, v': int, rsize': int)
    requires Walking(m, h, nb, v, rsize, t, rst) && rsize' <= rsize
    requires BestSoFar(h, nb, v', rsize') && Accounted(h, nb, rsize', t)
    ensures HasLinks(m, t) && NodeOk(m, h, t) && 3 <= h.level[t] <= 32
    ensures var c, rst', i := NextNode(m, h, nb, t), NextRight(m, h, nb, t, rst), ComputeTreeIndex(nb);
            (c != 0 ==>
                    Walking(m, h, nb, v', rsize', c, rst') && c in h.level && c in h.size && c > 0 && h.size[c] < WORD &&
                        LargeSize(h.size[c]) && BinOf(h, c) == i && h.level[c] + 1 == h.level[t]) &&
            (c == 0 ==> AllLocated(m, h, nb, rsize', 0, rst', i) && InBin(h, rst', i) &&
                        (rst' != 0 ==> rst' in h.level && rst' in h.size && UnderFits(m, h, nb, rsize', rst')))
  {
    hide Prefix, RootLevel;
    NextWalks(m, h, nb, v, rsize, t, rst);
    var c, rst', i := NextNode(m, h, nb, t), NextRight(m, h, nb, t, rst), ComputeTreeIndex(nb);
    LevelBound(i);
    forall y | y in h.level && NodeOk(m, h, y) && BinOf(h, y) == i ensures Located(m, h, nb, rsize', c, rst', y) {
      LocatedNext(m, h, nb, v, rsize, t, rst, rsize', y);
    }
    hide ComputeTreeIndex;
  }

  lemma LevelBound(i: nat)
    requires i < NTREEBINS
    ensures RootLevel(i) <= 32
  {}

  lemma NodeKnown(m: TreeMemory, h: Shape, nb: nat, v: int, rsize: int, t: int)
    requires Descending(m, h, nb, v, rsize, t) && t != 0
    ensures NodeOk(m, h, t) && Covers(m, h, t, t)
  {
    assert NodeOk(m, h, t);
  }

  lemma LookDown(m: TreeMemory, h: Shape, nb: nat, v: int, rsize: int, t: int)
    requires Descending(m, h, nb, v, rsize, t) && t != 0
    ensures NodeOk(m, h, t) && Covers(m, h, t, t)
    ensures var trem := Minus32(h.size[t], nb);
            var v', r' := if trem < rsize then t else v, if trem < rsize then trem else rsize;
            BestSoFar(h, nb, v', r') && Accounted(h, nb, r', t) && r' <= rsize
  {
    NodeKnown(m, h, nb, v, rsize, t);
    LookAt(h, nb, v, rsize, t);
  }

  lemma LeftmostFits(m: TreeMemory, h: Shape, nb: int, rsize: int, t: int, rsize': int)
    requires TrieOk(m, h) && t in h.level && NodeOk(m, h, t) && UnderFits(m, h, nb, rsize, t) && 0 <= rsize' <= rsize
    ensures var c := LeftmostChild(m, t); c != 0 ==> UnderFits(m, h, nb, rsize', c)
  {
    var c := LeftmostChild(m, t);
    ChildPrefix(m, h, t, 0);
    ChildPrefix(m, h, t, 1);
    if c != 0 {
      PrefixStep(h.size[c], h.level[c]);
      forall y | Covers(m, h, c, y) ensures Covers(m, h, t, y) {
        PrefixUp(h.size[c], h.size[y], h.level[c], h.level[t]);
      }
      if rsize == 0 { assert rsize' == 0; }
    }
  }
}
