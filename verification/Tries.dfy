/**
  The bitwise tries of malloc.c: one node per distinct size, each node's children split the sizes
  below it by the next bit. A node's place is its level, the number of size bits still undecided
  below it; all sizes under a node agree with it above that level.
*/
module Tries {
  import opened TreeIndex

  /** The words of memory a trie is made of: the bin heads, and three link fields by chunk address. */
  datatype TreeMemory = TreeMemory(roots: seq<int>, child0: map<int, int>, child1: map<int, int>, parent: map<int, int>)

  /** The chunk sizes and the levels of the tree nodes among them, by address. */
  datatype Shape = Shape(size: map<int, nat>, level: map<int, nat>)

  /** The address of treebins[i], where a root's parent link points. */
  function TreeBinAt(i: int): int { -1 - i }

  predicate LargeSize(s: nat)
  {
    MIN_LARGE_SIZE <= s < WORD && s % 8 == 0
  }

  predicate Sided(b: int) { b == 0 || b == 1 }

  predicate HasLinks(m: TreeMemory, x: int)
  {
    x in m.child0 && x in m.child1 && x in m.parent
  }

  function Child(m: TreeMemory, x: int, b: int): int
    requires HasLinks(m, x)
  {
    if b == 0 then m.child0[x] else m.child1[x]
  }

  predicate NodeOk(m: TreeMemory, h: Shape, x: int)
  {
    x in h.level && x in h.size && x > 0 && HasLinks(m, x) && LargeSize(h.size[x]) &&
    3 <= h.level[x] <= RootLevel(ComputeTreeIndex(h.size[x]))
  }

  function BinOf(h: Shape, x: int): nat
    requires x in h.size && LargeSize(h.size[x])
  {
    ComputeTreeIndex(h.size[x])
  }

  ghost predicate NodesOk(m: TreeMemory, h: Shape)
  {
    forall x {:trigger NodeOk(m, h, x)} :: x in h.level ==> NodeOk(m, h, x)
  }

  /** Sizes s and t of one bin fall into the same slot at level l. */
  predicate SameSlot(s: nat, t: nat, l: nat)
  {
    LargeSize(s) && LargeSize(t) && ComputeTreeIndex(s) == ComputeTreeIndex(t) && Prefix(s, l) == Prefix(t, l)
  }

  /** Two nodes have different sizes and, at one level, different slots. */
  predicate Apart(h: Shape, x: int, y: int)
  {
    x in h.level && y in h.level && x in h.size && y in h.size &&
    h.size[x] != h.size[y] && (h.level[x] == h.level[y] ==> !SameSlot(h.size[x], h.size[y], h.level[x]))
  }

  ghost predicate AllApart(h: Shape)
  {
    forall x, y {:trigger Apart(h, x, y)} :: x in h.level && y in h.level && x != y ==> Apart(h, x, y)
  }

  /** The link from x to its child on side b is empty, or leads to a node one level down in that half of x's slot. */
  predicate ChildOk(m: TreeMemory, h: Shape, x: int, b: int)
  {
    NodeOk(m, h, x) &&
    var c := Child(m, x, b);
    c == 0 || (NodeOk(m, h, c) && BinOf(h, c) == BinOf(h, x) && h.level[c] + 1 == h.level[x] &&
               Prefix(h.size[c], h.level[c]) == 2 * Prefix(h.size[x], h.level[x]) + b && m.parent[c] == x)
  }

  ghost predicate ChildrenOk(m: TreeMemory, h: Shape)
  {
    forall x, b {:trigger ChildOk(m, h, x, b)} :: x in h.level && Sided(b) ==> ChildOk(m, h, x, b)
  }

  /** The side on which x hangs off its parent. */
  function Side(h: Shape, x: int): (b: int)
    requires x in h.level && x in h.size
    ensures Sided(b)
  {
    Prefix(h.size[x], h.level[x]) % 2
  }

  /** x is the root of its bin, or its parent link leads to the node that links to it. */
  predicate ParentOk(m: TreeMemory, h: Shape, x: int)
  {
    NodeOk(m, h, x) &&
    var i, u := BinOf(h, x), m.parent[x];
    if h.level[x] == RootLevel(i) then u == TreeBinAt(i) && i < |m.roots| && m.roots[i] == x
    else NodeOk(m, h, u) && h.level[u] == h.level[x] + 1 && BinOf(h, u) == i && Child(m, u, Side(h, x)) == x
  }

  ghost predicate ParentsOk(m: TreeMemory, h: Shape)
  {
    forall x {:trigger ParentOk(m, h, x)} :: x in h.level ==> ParentOk(m, h, x)
  }

  predicate RootOk(m: TreeMemory, h: Shape, i: nat)
    requires i < |m.roots|
  {
    var r := m.roots[i];
    r == 0 || (NodeOk(m, h, r) && BinOf(h, r) == i && h.level[r] == RootLevel(i))
  }

  ghost predicate RootsOk(m: TreeMemory, h: Shape)
  {
    |m.roots| == NTREEBINS && forall i {:trigger RootOk(m, h, i)} :: 0 <= i < NTREEBINS ==> RootOk(m, h, i)
  }

  ghost predicate TrieOk(m: TreeMemory, h: Shape)
  {
    NodesOk(m, h) && AllApart(h) && ChildrenOk(m, h) && ParentsOk(m, h) && RootsOk(m, h)
  }

  // ----- walking

  /** y lies in x's slot: it is x or below x. */
  predicate Covers(m: TreeMemory, h: Shape, x: int, y: int)
  {
    NodeOk(m, h, x) && NodeOk(m, h, y) && h.level[y] <= h.level[x] && SameSlot(h.size[x], h.size[y], h.level[x])
  }

  lemma ParentCovers(m: TreeMemory, h: Shape, y: int)
    requires TrieOk(m, h) && y in h.level
    ensures NodeOk(m, h, y)
    ensures h.level[y] < RootLevel(BinOf(h, y)) ==>
              var u := m.parent[y];
              Covers(m, h, u, y) && h.level[u] == h.level[y] + 1 && Child(m, u, Side(h, y)) == y
    ensures h.level[y] == RootLevel(BinOf(h, y)) ==> |m.roots| == NTREEBINS && m.roots[BinOf(h, y)] == y
  {
    assert ParentOk(m, h, y);
    if h.level[y] < RootLevel(BinOf(h, y)) {
      var u := m.parent[y];
      assert ChildOk(m, h, u, Side(h, y));
      assert Prefix(h.size[y], h.level[u]) == Prefix(h.size[y], h.level[y]) / 2;
    }
  }

  /** Below x and different from x means below the child of x that y's next bit picks, and that child is there. */
  lemma {:induction false} Descend(m: TreeMemory, h: Shape, x: int, y: int)
    requires TrieOk(m, h) && Covers(m, h, x, y) && x != y
    ensures h.level[y] < h.level[x]
    ensures var c := Child(m, x, Prefix(h.size[y], h.level[x] - 1) % 2);
            c in h.level && h.level[c] + 1 == h.level[x] && Covers(m, h, c, y)
    decreases h.level[x] - h.level[y]
  {
    assert Apart(h, x, y);
    var u := m.parent[y];
    ParentCovers(m, h, y);
    PrefixUp(h.size[y], h.size[u], h.level[u], h.level[x]);
    if u != x {
      Descend(m, h, x, u);
      PrefixUp(h.size[y], h.size[u], h.level[u], h.level[x] - 1);
    }
  }

  /** Every node lies under the root of its bin. */
  lemma {:induction false} RootCovers(m: TreeMemory, h: Shape, y: int)
    requires TrieOk(m, h) && y in h.level
    ensures NodeOk(m, h, y) && |m.roots| == NTREEBINS
    ensures Covers(m, h, m.roots[BinOf(h, y)], y)
    decreases 32 - (h.level[y] as int)
  {
    ParentCovers(m, h, y);
    var i := BinOf(h, y);
    if h.level[y] < RootLevel(i) {
      var u := m.parent[y];
      RootCovers(m, h, u);
      assert RootOk(m, h, i);
      SameBinSamePrefix(h.size[m.roots[i]], h.size[y]);
    }
  }

  // ----- adding a node

  function SetChild(m: TreeMemory, x: int, b: int, c: int): TreeMemory
  {
    if b == 0 then m.(child0 := m.child0[x := c]) else m.(child1 := m.child1[x := c])
  }

  /** X->child[0] = X->child[1] = 0 and X->parent = p. */
  function FreshNode(m: TreeMemory, x: int, p: int): TreeMemory
  {
    m.(child0 := m.child0[x := 0], child1 := m.child1[x := 0], parent := m.parent[x := p])
  }

  function AddLeaf(m: TreeMemory, t: int, b: int, x: int): TreeMemory
  {
    SetChild(FreshNode(m, x, t), t, b, x)
  }

  function AddRoot(m: TreeMemory, i: nat, x: int): TreeMemory
    requires i < |m.roots|
  {
    FreshNode(m, x, TreeBinAt(i)).(roots := m.roots[i := x])
  }

  function Grow(h: Shape, x: int, s: nat, l: nat): Shape
  {
    Shape(h.size[x := s], h.level[x := l])
  }

  /** What the descent of insert_large_chunk has established when it looks at node t for size s. */
  ghost predicate OnPath(m: TreeMemory, h: Shape, t: int, s: nat)
  {
    TrieOk(m, h) && NodeOk(m, h, t) && SameSlot(s, h.size[t], h.level[t]) &&
    forall y {:trigger h.size[y]} :: y in h.level && y in h.size && h.size[y] == s ==> h.level[y] <= h.level[t]
  }

  /** Node y has another size, and another slot if its level is l. */
  predicate Elsewhere(h: Shape, s: nat, l: nat, y: int)
  {
    y in h.level && y in h.size && h.size[y] != s && (h.level[y] == l ==> !SameSlot(s, h.size[y], l))
  }

  ghost predicate Vacant(h: Shape, s: nat, l: nat)
  {
    forall y {:trigger Elsewhere(h, s, l, y)} :: y in h.level ==> Elsewhere(h, s, l, y)
  }

  lemma PathStarts(m: TreeMemory, h: Shape, s: nat)
    requires TrieOk(m, h) && LargeSize(s)
    ensures var i := ComputeTreeIndex(s); |m.roots| == NTREEBINS && (m.roots[i] != 0 ==> OnPath(m, h, m.roots[i], s))
  {
    var i := ComputeTreeIndex(s);
    var t := m.roots[i];
    assert RootOk(m, h, i);
    if t != 0 {
      SameBinSamePrefix(s, h.size[t]);
      forall y | y in h.level && y in h.size && h.size[y] == s ensures h.level[y] <= h.level[t] {
        assert NodeOk(m, h, y);
      }
    }
  }

  /** No node of size s is above t or beside it, so one step down keeps to the path. */
  lemma PathDescends(m: TreeMemory, h: Shape, t: int, s: nat)
    requires OnPath(m, h, t, s) && h.size[t] != s
    ensures h.level[t] > 3
    ensures var b := Prefix(s, h.level[t] - 1) % 2; var c := Child(m, t, b);
            if c != 0 then OnPath(m, h, c, s) && h.level[c] + 1 == h.level[t] else Vacant(h, s, h.level[t] - 1)
  {
    var l := h.level[t];
    if l == 3 { PrefixOfAligned(s, h.size[t]); }
    var b := Prefix(s, l - 1) % 2;
    var c := Child(m, t, b);
    assert ChildOk(m, h, t, b);
    forall y | y in h.level
      ensures y in h.size
      ensures c == 0 ==> Elsewhere(h, s, l - 1, y)
      ensures c != 0 && h.size[y] == s ==> h.level[y] + 1 <= l
    {
      assert NodeOk(m, h, y);
      assert y != t ==> Apart(h, y, t);
      if h.size[y] == s && c == 0 { Descend(m, h, t, y); }
      if h.level[y] + 1 == l && SameSlot(s, h.size[y], h.level[y]) && c == 0 { Descend(m, h, t, y); }
    }
  }

  lemma EmptyBinVacant(m: TreeMemory, h: Shape, s: nat)
    requires TrieOk(m, h) && LargeSize(s)
    requires |m.roots| == NTREEBINS && m.roots[ComputeTreeIndex(s)] == 0
    ensures Vacant(h, s, RootLevel(ComputeTreeIndex(s)))
  {
    forall y | y in h.level ensures Elsewhere(h, s, RootLevel(ComputeTreeIndex(s)), y) {
      RootCovers(m, h, y);
    }
  }

  /** The new node x hangs below t, or is the root of a bin that was empty. */
  predicate Hooked(m: TreeMemory, h: Shape, m': TreeMemory, x: int, s: nat, l: nat, t: int)
  {
    LargeSize(s) && 3 <= l &&
    var i := ComputeTreeIndex(s);
    if l == RootLevel(i) then i < |m.roots| && m.roots[i] == 0 && m' == AddRoot(m, i, x)
    else NodeOk(m, h, t) && h.level[t] == l + 1 && SameSlot(s, h.size[t], l + 1) &&
         Child(m, t, Prefix(s, l) % 2) == 0 && m' == AddLeaf(m, t, Prefix(s, l) % 2, x)
  }

  /** insert_large_chunk on a size not yet in the trie keeps the trie. */
  lemma AddNodeOk(m: TreeMemory, h: Shape, m': TreeMemory, x: int, s: nat, l: nat, t: int)
    requires TrieOk(m, h) && x > 0 && x !in h.size && x !in h.level
    requires Hooked(m, h, m', x, s, l, t) && Vacant(h, s, l)
    ensures TrieOk(m', Grow(h, x, s, l))
  {
    hide ComputeTreeIndex, Prefix;
    AddNodeApart(m, h, x, s, l);
    if l == RootLevel(ComputeTreeIndex(s)) {
      AddRootKeeps(m, h, x, s);
    } else {
      var b := Prefix(s, l) % 2;
      AddLeafLevel(m, h, t, l);
      AddLeafKeeps(m, h, x, s, l, t, b);
    }
  }

  lemma AddLeafLevel(m: TreeMemory, h: Shape, t: int, l: nat)
    requires NodeOk(m, h, t) && h.level[t] == l + 1
    ensures l < RootLevel(ComputeTreeIndex(h.size[t]))
  {}

  lemma AddNodeApart(m: TreeMemory, h: Shape, x: int, s: nat, l: nat)
    requires TrieOk(m, h) && x !in h.level && Vacant(h, s, l)
    ensures AllApart(Grow(h, x, s, l))
  {
    hide ComputeTreeIndex, Prefix;
    var h' := Grow(h, x, s, l);
    forall y, z | y in h'.level && z in h'.level && y != z ensures Apart(h', y, z) {
      if y == x { assert Elsewhere(h, s, l, z); }
      else if z == x { assert Elsewhere(h, s, l, y); }
      else { assert Apart(h, y, z); }
    }
  }

  lemma RootsHigh()
    ensures forall k: nat {:trigger RootLevel(k)} :: k < NTREEBINS ==> RootLevel(k) >= 7
  {}

  lemma AddRootKeeps(m: TreeMemory, h: Shape, x: int, s: nat)
    requires TrieOk(m, h) && x > 0 && x !in h.size && x !in h.level && LargeSize(s)
    requires |m.roots| == NTREEBINS && m.roots[ComputeTreeIndex(s)] == 0
    ensures var i := ComputeTreeIndex(s); var m', h' := AddRoot(m, i, x), Grow(h, x, s, RootLevel(i));
            NodesOk(m', h') && ChildrenOk(m', h') && ParentsOk(m', h') && RootsOk(m', h')
  {
    hide Prefix, ComputeTreeIndex, RootLevel;
    var i := ComputeTreeIndex(s);
    var m', h' := AddRoot(m, i, x), Grow(h, x, s, RootLevel(i));
    RootsHigh();
    forall y | y in h'.level ensures NodeOk(m', h', y) && ParentOk(m', h', y) {
      assert y != x ==> NodeOk(m, h, y) && ParentOk(m, h, y);
    }
    forall y, b | y in h'.level && Sided(b) ensures ChildOk(m', h', y, b) {
      assert y != x ==> ChildOk(m, h, y, b);
    }
    forall k | 0 <= k < NTREEBINS ensures RootOk(m', h', k) { assert RootOk(m, h, k); }
  }

  lemma AddLeafKeeps(m: TreeMemory, h: Shape, x: int, s: nat, l: nat, t: int, b: int)
    requires TrieOk(m, h) && x > 0 && x !in h.size && x !in h.level && LargeSize(s)
    requires NodeOk(m, h, t) && h.level[t] == l + 1 && SameSlot(s, h.size[t], l + 1) && 3 <= l
    requires b == Prefix(s, l) % 2 && Child(m, t, b) == 0 && l < RootLevel(ComputeTreeIndex(h.size[t]))
    ensures var m', h' := AddLeaf(m, t, b, x), Grow(h, x, s, l);
            NodesOk(m', h') && ChildrenOk(m', h') && ParentsOk(m', h') && RootsOk(m', h')
  {
    PrefixStep(s, l);
    hide ComputeTreeIndex, Prefix, RootLevel;
    var m', h' := AddLeaf(m, t, b, x), Grow(h, x, s, l);
    forall y | y in h'.level ensures NodeOk(m', h', y) {
      assert y != x ==> NodeOk(m, h, y);
    }
    AddLeafParents(m, h, x, s, l, t, b);
    AddLeafChildren(m, h, x, s, l, t, b);
    forall k | 0 <= k < NTREEBINS ensures RootOk(m', h', k) { assert RootOk(m, h, k); }
  }

  lemma AddLeafChildren(m: TreeMemory, h: Shape, x: int, s: nat, l: nat, t: int, b: int)
    requires TrieOk(m, h) && x > 0 && x !in h.size && x !in h.level && LargeSize(s)
    requires NodeOk(m, h, t) && h.level[t] == l + 1 && SameSlot(s, h.size[t], l + 1) && 3 <= l
    requires b == Prefix(s, l) % 2 && Child(m, t, b) == 0 && l < RootLevel(ComputeTreeIndex(h.size[t]))
    ensures ChildrenOk(AddLeaf(m, t, b, x), Grow(h, x, s, l))
  {
    PrefixStep(s, l);
    hide ComputeTreeIndex, Prefix, RootLevel;
    var m', h' := AddLeaf(m, t, b, x), Grow(h, x, s, l);
    forall y, a | y in h'.level && Sided(a) ensures ChildOk(m', h', y, a) {
      if y != x {
        assert ChildOk(m, h, y, a);
        assert (y == t && a == b) || Child(m', y, a) == Child(m, y, a);
      }
    }
  }

  lemma AddLeafParents(m: TreeMemory, h: Shape, x: int, s: nat, l: nat, t: int, b: int)
    requires TrieOk(m, h) && x > 0 && x !in h.size && x !in h.level && LargeSize(s)
    requires NodeOk(m, h, t) && h.level[t] == l + 1 && SameSlot(s, h.size[t], l + 1) && 3 <= l
    requires b == Prefix(s, l) % 2 && Child(m, t, b) == 0 && l < RootLevel(ComputeTreeIndex(h.size[t]))
    ensures ParentsOk(AddLeaf(m, t, b, x), Grow(h, x, s, l))
  {
    hide ComputeTreeIndex, Prefix, RootLevel;
    var m', h' := AddLeaf(m, t, b, x), Grow(h, x, s, l);
    forall y | y in h'.level ensures ParentOk(m', h', y) {
      if y != x {
        assert ParentOk(m, h, y);
        assert h.level[y] != RootLevel(BinOf(h, y)) ==>
            (m.parent[y] == t && Side(h, y) == b) || Child(m', m.parent[y], Side(h, y)) == Child(m, m.parent[y], Side(h, y));
      }
    }
  }

  // ----- taking a node out

  predicate IsLeaf(m: TreeMemory, x: int)
  {
    HasLinks(m, x) && m.child0[x] == 0 && m.child1[x] == 0
  }

  /** Stores r in the slot that holds x: its bin head, or its parent's link on x's side. */
  function SetSlot(m: TreeMemory, h: Shape, x: int, r: int): TreeMemory
    requires NodeOk(m, h, x) && |m.roots| == NTREEBINS
  {
    if h.level[x] == RootLevel(BinOf(h, x)) then m.(roots := m.roots[BinOf(h, x) := r])
    else SetChild(m, m.parent[x], Side(h, x), r)
  }

  function Without(h: Shape, x: int): Shape
  {
    h.(level := h.level - {x})
  }

  /** Clearing the slot of a leaf takes just that leaf out of the trie. */
  lemma RemoveLeafOk(m: TreeMemory, h: Shape, x: int)
    requires TrieOk(m, h) && x in h.level && IsLeaf(m, x)
    ensures NodeOk(m, h, x) && TrieOk(SetSlot(m, h, x, 0), Without(h, x))
  {
    assert NodeOk(m, h, x);
    hide ParentOk, ChildOk, Apart, ComputeTreeIndex, Prefix, RootLevel, LargeSize;
    var m', h' := SetSlot(m, h, x, 0), Without(h, x);
    RemoveLeafParents(m, h, x);
    RemoveLeafChildren(m, h, x);
    RemoveApart(h, x);
    forall y | y in h'.level ensures NodeOk(m', h', y) { assert NodeOk(m, h, y); }
    RemoveLeafRoots(m, h, x);
  }

  lemma RemoveApart(h: Shape, x: int)
    requires AllApart(h)
    ensures AllApart(Without(h, x))
  {
    hide ComputeTreeIndex, Prefix;
    var h' := Without(h, x);
    forall y, z | y in h'.level && z in h'.level && y != z ensures Apart(h', y, z) { assert Apart(h, y, z); }
  }

  lemma RemoveLeafRoots(m: TreeMemory, h: Shape, x: int)
    requires TrieOk(m, h) && x in h.level && IsLeaf(m, x) && NodeOk(m, h, x)
    ensures RootsOk(SetSlot(m, h, x, 0), Without(h, x))
  {
    assert ParentOk(m, h, x);
    hide ComputeTreeIndex, Prefix, RootLevel;
    var m', h' := SetSlot(m, h, x, 0), Without(h, x);
    forall k | 0 <= k < NTREEBINS ensures RootOk(m', h', k) { assert RootOk(m, h, k); }
  }

  lemma RemoveLeafChild(m: TreeMemory, h: Shape, x: int, y: int, b: int)
    requires ParentOk(m, h, x) && |m.roots| == NTREEBINS && ChildOk(m, h, y, b) && y != x && Sided(b)
    ensures ChildOk(SetSlot(m, h, x, 0), Without(h, x), y, b)
  {
    hide ComputeTreeIndex, Prefix, RootLevel;
    if Child(m, y, b) == x { assert Side(h, x) == b; }
  }

  lemma RemoveLeafChildren(m: TreeMemory, h: Shape, x: int)
    requires TrieOk(m, h) && x in h.level && IsLeaf(m, x) && NodeOk(m, h, x)
    ensures ChildrenOk(SetSlot(m, h, x, 0), Without(h, x))
  {
    assert ParentOk(m, h, x);
    hide ComputeTreeIndex, Prefix, RootLevel;
    forall y, b | y in Without(h, x).level && Sided(b) ensures ChildOk(SetSlot(m, h, x, 0), Without(h, x), y, b) {
      assert ChildOk(m, h, y, b);
      hide ChildOk;
      RemoveLeafChild(m, h, x, y, b);
    }
  }

  lemma RemoveLeafParent(m: TreeMemory, h: Shape, x: int, y: int)
    requires ParentOk(m, h, x) && |m.roots| == NTREEBINS && ParentOk(m, h, y) && y != x && IsLeaf(m, x)
    ensures ParentOk(SetSlot(m, h, x, 0), Without(h, x), y)
  {
    hide ComputeTreeIndex, Prefix, RootLevel;
  }

  lemma RemoveLeafParents(m: TreeMemory, h: Shape, x: int)
    requires TrieOk(m, h) && x in h.level && IsLeaf(m, x) && NodeOk(m, h, x)
    ensures ParentsOk(SetSlot(m, h, x, 0), Without(h, x))
  {
    assert ParentOk(m, h, x);
    hide ComputeTreeIndex, Prefix, RootLevel;
    forall y | y in Without(h, x).level ensures ParentOk(SetSlot(m, h, x, 0), Without(h, x), y) {
      assert ParentOk(m, h, y);
      hide ParentOk;
      RemoveLeafParent(m, h, x, y);
    }
  }

  /** r is a chunk outside the trie, without children, of a size that fits x's slot and no other node. */
  ghost predicate Replaces(m: TreeMemory, h: Shape, x: int, r: int)
  {
    NodeOk(m, h, x) && r > 0 && r in h.size && r !in h.level && IsLeaf(m, r) &&
    SameSlot(h.size[x], h.size[r], h.level[x]) &&
    forall y {:trigger h.size[y]} :: y in h.level && y in h.size && y != x ==> h.size[y] != h.size[r]
  }

  /** R->child[b] = X->child[b] and back, when X has that child. */
  function Adopt(m: TreeMemory, r: int, b: int, c: int): TreeMemory
  {
    if c == 0 then m else SetChild(m, r, b, c).(parent := m.parent[c := r])
  }

  /** unlink_large_chunk's relinking of x's parent and children to its replacement r. */
  function PutInPlace(m: TreeMemory, h: Shape, x: int, r: int): TreeMemory
    requires NodeOk(m, h, x) && |m.roots| == NTREEBINS
  {
    var m1 := SetSlot(m, h, x, r);
    var m2 := m1.(parent := m1.parent[r := m.parent[x]]);
    Adopt(Adopt(m2, r, 0, m.child0[x]), r, 1, m.child1[x])
  }

  function Exchange(h: Shape, x: int, r: int): Shape
    requires x in h.level
  {
    h.(level := (h.level - {x})[r := h.level[x]])
  }

  lemma PutInPlaceOk(m: TreeMemory, h: Shape, x: int, r: int)
    requires TrieOk(m, h) && Replaces(m, h, x, r)
    ensures TrieOk(PutInPlace(m, h, x, r), Exchange(h, x, r))
  {
    hide ParentOk, ChildOk, Apart, ComputeTreeIndex, Prefix, RootLevel, RootOk;
    PutNodes(m, h, x, r);
    PutApart(m, h, x, r);
    PutChildren(m, h, x, r);
    PutParents(m, h, x, r);
    PutRoots(m, h, x, r);
  }

  lemma PutNodes(m: TreeMemory, h: Shape, x: int, r: int)
    requires TrieOk(m, h) && Replaces(m, h, x, r)
    ensures NodesOk(PutInPlace(m, h, x, r), Exchange(h, x, r))
  {
    hide ComputeTreeIndex, Prefix, RootLevel;
    var m', h' := PutInPlace(m, h, x, r), Exchange(h, x, r);
    forall y | y in h'.level ensures NodeOk(m', h', y) { assert y != r ==> NodeOk(m, h, y); }
  }

  lemma PutApart(m: TreeMemory, h: Shape, x: int, r: int)
    requires TrieOk(m, h) && Replaces(m, h, x, r)
    ensures AllApart(Exchange(h, x, r))
  {
    hide ComputeTreeIndex, Prefix;
    var h' := Exchange(h, x, r);
    forall y, z | y in h'.level && z in h'.level && y != z ensures Apart(h', y, z) {
      assert Apart(h, if y == r then x else y, if z == r then x else z);
      assert y != r ==> NodeOk(m, h, y);
      assert z != r ==> NodeOk(m, h, z);
    }
  }

  lemma PutRoots(m: TreeMemory, h: Shape, x: int, r: int)
    requires TrieOk(m, h) && Replaces(m, h, x, r)
    ensures RootsOk(PutInPlace(m, h, x, r), Exchange(h, x, r))
  {
    assert ParentOk(m, h, x);
    hide ComputeTreeIndex, Prefix, RootLevel;
    forall k | 0 <= k < NTREEBINS ensures RootOk(PutInPlace(m, h, x, r), Exchange(h, x, r), k) {
      assert RootOk(m, h, k);
      hide RootOk;
      PutRoot(m, h, x, r, k);
    }
  }

  lemma PutRoot(m: TreeMemory, h: Shape, x: int, r: int, k: nat)
    requires ParentOk(m, h, x) && |m.roots| == NTREEBINS && k < NTREEBINS && RootOk(m, h, k) && Replaces(m, h, x, r)
    ensures RootOk(PutInPlace(m, h, x, r), Exchange(h, x, r), k)
  {
    hide ComputeTreeIndex, Prefix, RootLevel;
  }

  /** The child links after the exchange: r has those of x, the link to x leads to r, all others stay. */
  lemma PutChildLinks(m: TreeMemory, h: Shape, x: int, r: int, y: int, b: int)
    requires Replaces(m, h, x, r) && |m.roots| == NTREEBINS && Sided(b) && HasLinks(m, y)
    requires ParentOk(m, h, x)
    ensures HasLinks(PutInPlace(m, h, x, r), y)
    ensures Child(PutInPlace(m, h, x, r), y, b) ==
            if y == r then Child(m, x, b)
            else if h.level[x] != RootLevel(BinOf(h, x)) && y == m.parent[x] && b == Side(h, x) then r
            else Child(m, y, b)
  {
    hide ComputeTreeIndex, Prefix, RootLevel, LargeSize;
  }

  /** The parent links: r has that of x, the children of x lead to r, all others stay. */
  lemma PutParentLinks(m: TreeMemory, h: Shape, x: int, r: int, y: int)
    requires Replaces(m, h, x, r) && |m.roots| == NTREEBINS && HasLinks(m, y)
    requires ChildOk(m, h, x, 0) && ChildOk(m, h, x, 1)
    ensures HasLinks(PutInPlace(m, h, x, r), y)
    ensures PutInPlace(m, h, x, r).parent[y] ==
            if y == r then m.parent[x] else if y > 0 && (y == m.child0[x] || y == m.child1[x]) then r else m.parent[y]
    ensures PutInPlace(m, h, x, r).roots ==
            if h.level[x] == RootLevel(BinOf(h, x)) then m.roots[BinOf(h, x) := r] else m.roots
  {
    hide ComputeTreeIndex, Prefix, RootLevel, LargeSize;
  }

  lemma PutChild(m: TreeMemory, h: Shape, x: int, r: int, y: int, b: int)
    requires Replaces(m, h, x, r) && |m.roots| == NTREEBINS && Sided(b) && y != x
    requires ParentOk(m, h, x) && ChildOk(m, h, x, 0) && ChildOk(m, h, x, 1)
    requires y != r ==> ChildOk(m, h, y, b)
    ensures ChildOk(PutInPlace(m, h, x, r), Exchange(h, x, r), y, b)
  {
    hide ComputeTreeIndex, Prefix, RootLevel, PutInPlace;
    PutChildLinks(m, h, x, r, y, b);
    var c := Child(m, if y == r then x else y, b);
    PutParentLinks(m, h, x, r, r);
    if c != 0 {
      if c == x { assert Side(h, x) == b; } else { PutParentLinks(m, h, x, r, c); }
    }
  }

  lemma PutChildren(m: TreeMemory, h: Shape, x: int, r: int)
    requires TrieOk(m, h) && Replaces(m, h, x, r)
    ensures ChildrenOk(PutInPlace(m, h, x, r), Exchange(h, x, r))
  {
    assert ParentOk(m, h, x);
    assert ChildOk(m, h, x, 0) && ChildOk(m, h, x, 1);
    hide ComputeTreeIndex, Prefix, RootLevel;
    forall y, b | y in Exchange(h, x, r).level && Sided(b) ensures ChildOk(PutInPlace(m, h, x, r), Exchange(h, x, r), y, b) {
      assert y != r ==> ChildOk(m, h, y, b);
      hide ChildOk;
      PutChild(m, h, x, r, y, b);
    }
  }

  lemma PutParent(m: TreeMemory, h: Shape, x: int, r: int, y: int)
    requires Replaces(m, h, x, r) && |m.roots| == NTREEBINS && y != x
    requires ParentOk(m, h, x) && ChildOk(m, h, x, 0) && ChildOk(m, h, x, 1)
    requires y != r ==> ParentOk(m, h, y)
    ensures ParentOk(PutInPlace(m, h, x, r), Exchange(h, x, r), y)
  {
    hide ComputeTreeIndex, Prefix, RootLevel, PutInPlace;
    var z := if y == r then x else y;
    PutParentLinks(m, h, x, r, y);
    if h.level[z] != RootLevel(BinOf(h, z)) {
      var u := m.parent[z];
      PutChildLinks(m, h, x, r, if u == x then r else u, Side(h, z));
      if u != x { PutChildLinks(m, h, x, r, y, 0); }
    }
  }

  lemma PutParents(m: TreeMemory, h: Shape, x: int, r: int)
    requires TrieOk(m, h) && Replaces(m, h, x, r)
    ensures ParentsOk(PutInPlace(m, h, x, r), Exchange(h, x, r))
  {
    assert ParentOk(m, h, x);
    assert ChildOk(m, h, x, 0) && ChildOk(m, h, x, 1);
    hide ComputeTreeIndex, Prefix, RootLevel;
    forall y | y in Exchange(h, x, r).level ensures ParentOk(PutInPlace(m, h, x, r), Exchange(h, x, r), y) {
      assert y != r ==> ParentOk(m, h, y);
      hide ParentOk;
      PutParent(m, h, x, r, y);
    }
  }

  /** Clearing a slot, or exchanging a node, leaves the links of chunks outside the trie alone. */
  lemma SetSlotFrame(m: TreeMemory, h: Shape, x: int, r: int, q: int)
    requires TrieOk(m, h) && NodeOk(m, h, x) && q !in h.level && HasLinks(m, q)
    ensures HasLinks(SetSlot(m, h, x, r), q)
    ensures var m' := SetSlot(m, h, x, r);
            m'.child0[q] == m.child0[q] && m'.child1[q] == m.child1[q] && m'.parent[q] == m.parent[q]
  {
    assert ParentOk(m, h, x);
    hide ComputeTreeIndex, Prefix, RootLevel, LargeSize;
  }

  lemma PutFrame(m: TreeMemory, h: Shape, x: int, r: int, q: int)
    requires TrieOk(m, h) && Replaces(m, h, x, r) && q !in h.level && q != r && HasLinks(m, q)
    ensures HasLinks(PutInPlace(m, h, x, r), q)
    ensures var m' := PutInPlace(m, h, x, r);
            m'.child0[q] == m.child0[q] && m'.child1[q] == m.child1[q] && m'.parent[q] == m.parent[q]
  {
    assert ParentOk(m, h, x) && ChildOk(m, h, x, 0) && ChildOk(m, h, x, 1);
    PutChildLinks(m, h, x, r, q, 0);
    PutChildLinks(m, h, x, r, q, 1);
    PutParentLinks(m, h, x, r, q);
    hide ComputeTreeIndex, Prefix, RootLevel, LargeSize, PutInPlace;
  }

  // ----- what the code reads off the links

  /** One link down from a node covered by p is a node covered by p, whose parent and side the link tells. */
  lemma ChildCovered(m: TreeMemory, h: Shape, p: int, x: int, b: int)
    requires TrieOk(m, h) && Covers(m, h, p, x) && Sided(b) && Child(m, x, b) != 0
    ensures var c := Child(m, x, b);
            c in h.level && Covers(m, h, p, c) && h.level[c] < h.level[x] && m.parent[c] == x && Side(h, c) == b &&
            h.level[c] < RootLevel(BinOf(h, c))
  {
    hide ComputeTreeIndex, RootLevel;
    assert ChildOk(m, h, x, b);
    var c := Child(m, x, b);
    PrefixStep(h.size[c], h.level[c]);
    PrefixUp(h.size[c], h.size[x], h.level[x], h.level[p]);
  }

  /** A node is the root of its bin exactly when the bin's head says so, and otherwise hangs off its parent on one side only. */
  lemma SlotTests(m: TreeMemory, h: Shape, x: int)
    requires TrieOk(m, h) && x in h.level
    ensures NodeOk(m, h, x) && |m.roots| == NTREEBINS && m.parent[x] != 0 && m.parent[x] != x
    ensures m.roots[BinOf(h, x)] == x <==> h.level[x] == RootLevel(BinOf(h, x))
    ensures h.level[x] != RootLevel(BinOf(h, x)) ==>
              var u := m.parent[x]; HasLinks(m, u) && (Child(m, u, 0) == x <==> Side(h, x) == 0)
  {
    assert ParentOk(m, h, x);
    RootFits(m, h, BinOf(h, x));
    hide ComputeTreeIndex, RootLevel, Prefix;
    if h.level[x] != RootLevel(BinOf(h, x)) {
      assert ChildOk(m, h, m.parent[x], 0);
    }
  }

  lemma RootFits(m: TreeMemory, h: Shape, i: nat)
    requires TrieOk(m, h) && i < NTREEBINS
    ensures |m.roots| == NTREEBINS && RootOk(m, h, i)
  {}
}
