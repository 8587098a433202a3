/**
  The bins of malloc.c as a value: the two bin maps, the link fields of the free chunks in bins, and
  what they stand for. Every distinct size has one ring; the rings of small sizes run through the
  head of their small bin, those of large sizes start at the tree node of that size.
*/
module BinState {
  import opened Bits
  import opened TreeIndex
  import opened Tries
  import opened Rings

  const NSMALLBINS: nat := 32
  const MIN_CHUNK_SIZE: nat := 16

  /** The address of small bin i, which the code treats as a chunk. */
  function SmallBinAt(i: int): int { -100 - i }

  predicate ChunkSize(s: nat)
  {
    MIN_CHUNK_SIZE <= s < WORD && s % 8 == 0
  }

  predicate IsSmall(s: nat) { s < MIN_LARGE_SIZE }

  datatype Bins = Bins(
    smallmap: Binmap,
    treemap: Binmap,
    tree: TreeMemory,
    fd: map<int, int>,
    bk: map<int, int>,
    index: map<int, nat>,
    rings: map<nat, seq<int>>,
    level: map<int, nat>,
    binned: map<int, nat>
  )

  /** The words of memory behind the bins: the two maps, the bin heads, and the link fields of free chunks. */
  datatype BinWords = BinWords(
    smallmap: Binmap,
    treemap: Binmap,
    tree: TreeMemory,
    fd: map<int, int>,
    bk: map<int, int>,
    index: map<int, nat>
  )

  /** What the words stand for: a ring per size, the levels of the tree nodes, and the chunks with their sizes. */
  datatype Filing = Filing(rings: map<nat, seq<int>>, level: map<int, nat>, binned: map<int, nat>)

  function BinsOf(w: BinWords, f: Filing): Bins
  {
    Bins(w.smallmap, w.treemap, w.tree, w.fd, w.bk, w.index, f.rings, f.level, f.binned)
  }

  function ShapeOf(b: Bins): Shape { Shape(b.binned, b.level) }

  /** x is a chunk of size s in a bin. */
  predicate BinnedAs(b: Bins, x: int, s: nat)
  {
    x > 0 && x in b.binned && b.binned[x] == s
  }

  /** Where the chunks of a ring start: after the head of the small bin, or right away. */
  function FirstChunk(s: nat): nat { if IsSmall(s) then 1 else 0 }

  predicate RingFits(b: Bins, s: nat)
  {
    s in b.rings && ChunkSize(s) && RingOk(b.fd, b.bk, b.rings[s]) && FirstChunk(s) < |b.rings[s]| &&
    (IsSmall(s) ==> b.rings[s][0] == SmallBinAt(s / 8)) &&
    forall k :: FirstChunk(s) <= k < |b.rings[s]| ==> BinnedAs(b, b.rings[s][k], s)
  }

  ghost predicate RingsFit(b: Bins)
  {
    forall s {:trigger RingFits(b, s)} :: s in b.rings ==> RingFits(b, s)
  }

  /** Chunk p is in the ring of its size; if large it is the tree node of that size or hangs off it. */
  predicate ChunkFits(b: Bins, p: int)
  {
    p in b.binned && p > 0 && p % 8 == 0 &&
    var s := b.binned[p];
    ChunkSize(s) && s in b.rings && p in b.rings[s] && |b.rings[s]| >= 1 &&
    (!IsSmall(s) ==>
       (p in b.level <==> b.rings[s][0] == p) &&
       (p !in b.level ==> IsLeaf(b.tree, p) && b.tree.parent[p] == 0) &&
       p in b.index && b.index[p] == ComputeTreeIndex(s))
  }

  ghost predicate ChunksFit(b: Bins)
  {
    forall p {:trigger ChunkFits(b, p)} :: p in b.binned ==> ChunkFits(b, p)
  }

  predicate MapsFit(b: Bins, i: nat)
  {
    (Bit(b.smallmap, i) <==> 8 * i in b.rings && IsSmall(8 * i)) &&
    (i < |b.tree.roots| ==> (Bit(b.treemap, i) <==> b.tree.roots[i] != 0))
  }

  ghost predicate AllMapsFit(b: Bins)
  {
    forall i: nat {:trigger MapsFit(b, i)} :: i < 32 ==> MapsFit(b, i)
  }

  ghost predicate BinsOk(b: Bins)
  {
    RingsFit(b) && ChunksFit(b) && AllMapsFit(b) && TrieOk(b.tree, ShapeOf(b))
  }

  // ----- the empty bins

  function EmptyBins(): Bins
  {
    Bins(0, 0, TreeMemory(seq(32, _ => 0), map[], map[], map[]), map[], map[], map[], map[], map[], map[])
  }

  lemma EmptyBinsOk()
    ensures BinsOk(EmptyBins())
  {
    var b := EmptyBins();
    forall i: nat | i < 32 ensures MapsFit(b, i) { BitZero(i); }
  }

  // ----- one ring changes, the others do not

  lemma RingsDisjoint(b: Bins, s: nat, t: nat, x: int)
    requires RingFits(b, s) && RingFits(b, t) && x in b.rings[s] && x in b.rings[t]
    ensures s == t
  {
    var i :| 0 <= i < |b.rings[s]| && b.rings[s][i] == x;
    var j :| 0 <= j < |b.rings[t]| && b.rings[t][j] == x;
  }

  /** b' differs from b in no link and no size of the ring t. */
  predicate SameRing(b: Bins, b': Bins, t: nat)
  {
    t in b.rings && t in b'.rings && b'.rings[t] == b.rings[t] &&
    forall x :: x in b.rings[t] ==>
      (x in b.fd ==> x in b'.fd && b'.fd[x] == b.fd[x]) && (x in b.bk ==> x in b'.bk && b'.bk[x] == b.bk[x]) &&
      (x in b.binned ==> x in b'.binned && b'.binned[x] == b.binned[x])
  }

  lemma SameRingFits(b: Bins, b': Bins, t: nat)
    requires RingFits(b, t) && SameRing(b, b', t)
    ensures RingFits(b', t)
  {
    RingFrame(b.fd, b.bk, b'.fd, b'.bk, b.rings[t]);
  }

  /** A trie does not see the sizes of chunks that are not its nodes. */
  lemma TrieFrame(m: TreeMemory, h: Shape, m': TreeMemory, h': Shape)
    requires TrieOk(m, h) && h'.level == h.level && m'.roots == m.roots
    requires forall x :: x in h.level ==> x in h'.size && (x in h.size ==> h'.size[x] == h.size[x])
    requires forall x :: x in h.level && HasLinks(m, x) ==> HasLinks(m', x) && m'.child0[x] == m.child0[x] &&
                                                            m'.child1[x] == m.child1[x] && m'.parent[x] == m.parent[x]
    ensures TrieOk(m', h')
  {
    hide ComputeTreeIndex, Prefix, RootLevel;
    forall x | x in h'.level ensures NodeOk(m', h', x) { assert NodeOk(m, h, x); }
    forall x, y | x in h'.level && y in h'.level && x != y ensures Apart(h', x, y) { assert Apart(h, x, y); }
    forall x, c | x in h'.level && Sided(c) ensures ChildOk(m', h', x, c) { assert ChildOk(m, h, x, c); }
    forall x | x in h'.level ensures ParentOk(m', h', x) { assert ParentOk(m, h, x); }
    forall i | 0 <= i < NTREEBINS ensures RootOk(m', h', i) { assert RootOk(m, h, i); }
  }

  // ----- small chunks

  /** insert_small_chunk: marks the bin if it was empty, and links p in right after the bin's head. */
  function InsertSmall(b: Bins, p: int, s: nat): Bins
    requires IsSmall(s)
    requires s in b.rings ==> SmallBinAt(s / 8) in b.fd
  {
    var head := SmallBinAt(s / 8);
    var f := if s in b.rings then b.fd[head] else head;
    b.(smallmap := if s in b.rings then b.smallmap else Or(b.smallmap, Idx2Bit(s / 8)),
       fd := FdAfter(b.fd, head, f, p),
       bk := BkAfter(b.bk, head, f, p),
       rings := RingsWithSmall(b.rings, p, s),
       binned := b.binned[p := s])
  }

  function RingsWithSmall(rings: map<nat, seq<int>>, p: int, s: nat): map<nat, seq<int>>
  {
    rings[s := [SmallBinAt(s / 8), p] + if s in rings && |rings[s]| > 0 then rings[s][1..] else []]
  }

  predicate NewChunk(b: Bins, p: int, s: nat)
  {
    p > 0 && p % 8 == 0 && p !in b.binned && ChunkSize(s)
  }

  lemma SmallHeadLinked(b: Bins, s: nat)
    requires BinsOk(b) && s in b.rings && IsSmall(s)
    ensures SmallBinAt(s / 8) in b.fd && |b.rings[s]| >= 2 && b.rings[s][0] == SmallBinAt(s / 8) &&
            b.fd[SmallBinAt(s / 8)] == b.rings[s][1]
  {
    hide TrieOk;
    assert RingFits(b, s);
    NeighboursOf(b.fd, b.bk, b.rings[s], 0);
  }

  lemma InsertSmallRings(b: Bins, p: int, s: nat)
    requires BinsOk(b) && NewChunk(b, p, s) && IsSmall(s)
    requires s in b.rings ==> SmallBinAt(s / 8) in b.fd
    ensures RingsFit(InsertSmall(b, p, s))
  {
    hide TrieOk, AllMapsFit, ChunksFit;
    var b' := InsertSmall(b, p, s);
    var head := SmallBinAt(s / 8);
    if s in b.rings {
      assert RingFits(b, s);
      InsertAfterHead(b.fd, b.bk, b.rings[s], p);
      NeighboursOf(b.fd, b.bk, b.rings[s], 0);
    } else {
      PairRing(b.fd, b.bk, head, p);
    }
    forall t | t in b'.rings ensures RingFits(b', t) {
      if t == s {
      } else {
        assert RingFits(b, t);
        forall x | x in b.rings[t] ensures x != head && x != p && (s in b.rings ==> x !in b.rings[s]) {
          if s in b.rings && x in b.rings[s] { RingsDisjoint(b, s, t, x); }
        }
        SameRingFits(b, b', t);
      }
    }
  }

  lemma InsertSmallOk(b: Bins, p: int, s: nat)
    requires BinsOk(b) && NewChunk(b, p, s) && IsSmall(s)
    requires s in b.rings ==> SmallBinAt(s / 8) in b.fd
    ensures BinsOk(InsertSmall(b, p, s))
  {
    var b' := InsertSmall(b, p, s);
    InsertSmallRings(b, p, s);
    InsertSmallChunks(b, p, s);
    InsertSmallMaps(b, p, s);
    LevelsBinned(b);
    hide RingsFit, ChunksFit, AllMapsFit, TrieOk;
    TrieFrame(b.tree, ShapeOf(b), b'.tree, ShapeOf(b'));
  }

  lemma LevelsBinned(b: Bins)
    requires BinsOk(b)
    ensures forall x :: x in b.level ==> x in b.binned && x > 0 && !IsSmall(b.binned[x])
  {
    forall x | x in b.level ensures x in b.binned && x > 0 && !IsSmall(b.binned[x]) {
      assert NodeOk(b.tree, ShapeOf(b), x);
    }
  }

  lemma InsertSmallChunks(b: Bins, p: int, s: nat)
    requires BinsOk(b) && NewChunk(b, p, s) && IsSmall(s)
    requires s in b.rings ==> SmallBinAt(s / 8) in b.fd
    ensures ChunksFit(InsertSmall(b, p, s))
  {
    hide TrieOk, AllMapsFit;
    var b' := InsertSmall(b, p, s);
    forall q | q in b'.binned ensures ChunkFits(b', q) {
      if q != p {
        assert ChunkFits(b, q);
        if b.binned[q] == s {
          assert RingFits(b, s);
          assert q in b.rings[s][1..];
        }
      }
    }
  }

  lemma InsertSmallMaps(b: Bins, p: int, s: nat)
    requires BinsOk(b) && NewChunk(b, p, s) && IsSmall(s)
    requires s in b.rings ==> SmallBinAt(s / 8) in b.fd
    ensures AllMapsFit(InsertSmall(b, p, s))
  {
    hide TrieOk, RingsFit, ChunksFit, Bit, Or, Idx2Bit;
    var b' := InsertSmall(b, p, s);
    forall i: nat | i < 32 ensures MapsFit(b', i) {
      assert MapsFit(b, i);
      MarkBin(b.smallmap, s / 8, i);
    }
  }

  /** The ring of s without its k-th element, or no ring when no chunk is left in it. */
  function RingsWithout(rings: map<nat, seq<int>>, s: nat, k: nat): map<nat, seq<int>>
    requires s in rings && k < |rings[s]|
  {
    if |rings[s]| == FirstChunk(s) + 1 then rings - {s} else rings[s := rings[s][..k] + rings[s][k + 1..]]
  }

  /** unlink_small_chunk: the k-th chunk of its ring goes; links are left alone when it was the last one. */
  function RemoveSmall(b: Bins, p: int, k: nat): Bins
    requires p in b.binned && b.binned[p] in b.rings && k < |b.rings[b.binned[p]]| && p in b.fd && p in b.bk
    requires IsSmall(b.binned[p])
  {
    var s := b.binned[p];
    var b1 := b.(rings := RingsWithout(b.rings, s, k), binned := b.binned - {p});
    if |b.rings[s]| == 2 then b1.(smallmap := Bits.Without(b.smallmap, Idx2Bit(s / 8)))
    else b1.(fd := b.fd[b.bk[p] := b.fd[p]], bk := b.bk[b.fd[p] := b.bk[p]])
  }

  /** p is the k-th element of the ring of its size. */
  predicate InRing(b: Bins, p: int, k: nat)
  {
    p in b.binned && p in b.fd && p in b.bk && b.binned[p] in b.rings &&
    FirstChunk(b.binned[p]) <= k < |b.rings[b.binned[p]]| && b.rings[b.binned[p]][k] == p
  }

  lemma FindInRing(b: Bins, p: int) returns (k: nat)
    requires BinsOk(b) && p in b.binned
    ensures InRing(b, p, k) && RingFits(b, b.binned[p]) && Neighbours(b.fd, b.bk, b.rings[b.binned[p]], k)
  {
    hide TrieOk, AllMapsFit;
    assert ChunkFits(b, p);
    assert RingFits(b, b.binned[p]);
    k :| 0 <= k < |b.rings[b.binned[p]]| && b.rings[b.binned[p]][k] == p;
    NeighboursOf(b.fd, b.bk, b.rings[b.binned[p]], k);
  }

  lemma RemoveSmallRings(b: Bins, p: int, k: nat)
    requires BinsOk(b) && InRing(b, p, k) && IsSmall(b.binned[p])
    ensures RingsFit(RemoveSmall(b, p, k))
  {
    hide TrieOk, AllMapsFit, ChunksFit;
    var s := b.binned[p];
    var b' := RemoveSmall(b, p, k);
    assert RingFits(b, s);
    if |b.rings[s]| > 2 { RemoveAt(b.fd, b.bk, b.rings[s], k); }
    forall t | t in b'.rings ensures RingFits(b', t) {
      if t != s {
        assert RingFits(b, t);
        forall x | x in b.rings[t] ensures x !in b.rings[s] {
          if x in b.rings[s] { RingsDisjoint(b, s, t, x); }
        }
        SameRingFits(b, b', t);
      }
    }
  }

  lemma RemoveSmallChunks(b: Bins, p: int, k: nat)
    requires BinsOk(b) && InRing(b, p, k) && IsSmall(b.binned[p])
    ensures ChunksFit(RemoveSmall(b, p, k))
  {
    forall q | q in RemoveSmall(b, p, k).binned ensures ChunkFits(RemoveSmall(b, p, k), q) {
      RemoveSmallChunk(b, p, k, q);
    }
    hide BinsOk, InRing, ChunkFits;
  }

  lemma RemoveSmallChunk(b: Bins, p: int, k: nat, q: int)
    requires BinsOk(b) && InRing(b, p, k) && IsSmall(b.binned[p]) && q in RemoveSmall(b, p, k).binned
    ensures ChunkFits(RemoveSmall(b, p, k), q)
  {
    hide TrieOk, AllMapsFit, ComputeTreeIndex;
    var s, b' := b.binned[p], RemoveSmall(b, p, k);
    assert RingFits(b, s);
    assert ChunkFits(b, q);
    if b.binned[q] == s {
      var j :| 0 <= j < |b.rings[s]| && b.rings[s][j] == q;
      assert j != 0;
      assert q == if j < k then b'.rings[s][j] else b'.rings[s][j - 1];
    }
  }

  lemma RingsWithoutKeys(rings: map<nat, seq<int>>, s: nat, k: nat, t: nat)
    requires s in rings && k < |rings[s]|
    ensures t in RingsWithout(rings, s, k) <==> t in rings && (t == s ==> |rings[s]| != FirstChunk(s) + 1)
  {}

  lemma RemoveSmallMaps(b: Bins, p: int, k: nat)
    requires AllMapsFit(b) && InRing(b, p, k) && IsSmall(b.binned[p]) && b.binned[p] % 8 == 0
    ensures AllMapsFit(RemoveSmall(b, p, k))
  {
    var s, b' := b.binned[p], RemoveSmall(b, p, k);
    forall i: nat | i < 32 ensures MapsFit(b', i) {
      assert MapsFit(b, i);
      hide Bit, Bits.Without, Idx2Bit, RingsWithout;
      RingsWithoutKeys(b.rings, s, k, 8 * i);
      ClearBin(b.smallmap, s / 8, i);
    }
  }

  lemma RemoveSmallOk(b: Bins, p: int, k: nat)
    requires BinsOk(b) && InRing(b, p, k) && IsSmall(b.binned[p])
    ensures BinsOk(RemoveSmall(b, p, k))
  {
    var b' := RemoveSmall(b, p, k);
    RemoveSmallRings(b, p, k);
    RemoveSmallChunks(b, p, k);
    assert ChunkFits(b, p);
    RemoveSmallMaps(b, p, k);
    LevelsBinned(b);
    hide RingsFit, ChunksFit, AllMapsFit, TrieOk;
    TrieFrame(b.tree, ShapeOf(b), b'.tree, ShapeOf(b'));
  }

  // ----- large chunks going in

  /** insert_large_chunk for a size not in its trie: p becomes a tree node at level l, under t or as a root. */
  function InsertNode(b: Bins, p: int, s: nat, l: nat, m': TreeMemory): Bins
    requires LargeSize(s)
  {
    var i := ComputeTreeIndex(s);
    b.(treemap := if l == RootLevel(i) then Or(b.treemap, Idx2Bit(i)) else b.treemap,
       tree := m', fd := b.fd[p := p], bk := b.bk[p := p], index := b.index[p := i],
       rings := b.rings[s := [p]], level := b.level[p := l], binned := b.binned[p := s])
  }

  /** What the descent found for chunk p of size s: no node of that size, and where a new node goes. */
  ghost predicate NodePlace(b: Bins, p: int, s: nat, l: nat, t: int, m': TreeMemory)
  {
    NewChunk(b, p, s) && LargeSize(s) && Hooked(b.tree, ShapeOf(b), m', p, s, l, t) && Vacant(ShapeOf(b), s, l)
  }

  lemma VacantAt(h: Shape, s: nat, l: nat, y: int)
    requires Vacant(h, s, l) && y in h.level
    ensures y in h.size && h.size[y] != s
  {
    assert Elsewhere(h, s, l, y);
  }

  lemma NoRingOfVacant(b: Bins, s: nat, l: nat)
    requires BinsOk(b) && LargeSize(s) && Vacant(ShapeOf(b), s, l)
    ensures s !in b.rings
  {
    hide TrieOk, AllMapsFit, ComputeTreeIndex;
    if s in b.rings {
      assert RingFits(b, s);
      var t := b.rings[s][0];
      assert BinnedAs(b, t, s);
      assert ChunkFits(b, t);
      VacantAt(ShapeOf(b), s, l, t);
    }
  }

  lemma InsertNodeOk(b: Bins, p: int, s: nat, l: nat, t: int, m': TreeMemory)
    requires BinsOk(b) && NodePlace(b, p, s, l, t, m')
    ensures BinsOk(InsertNode(b, p, s, l, m'))
  {
    var b' := InsertNode(b, p, s, l, m');
    LevelsBinned(b);
    NoRingOfVacant(b, s, l);
    InsertNodeRings(b, p, s, l, t, m');
    InsertNodeChunks(b, p, s, l, t, m');
    InsertNodeMaps(b, p, s, l, t, m');
    hide RingsFit, ChunksFit, AllMapsFit, TrieOk, Hooked, Vacant, ComputeTreeIndex;
    AddNodeOk(b.tree, ShapeOf(b), m', p, s, l, t);
  }

  lemma InsertNodeRings(b: Bins, p: int, s: nat, l: nat, t: int, m': TreeMemory)
    requires BinsOk(b) && NodePlace(b, p, s, l, t, m') && s !in b.rings
    ensures RingsFit(InsertNode(b, p, s, l, m'))
  {
    hide TrieOk, AllMapsFit, ChunksFit, Hooked, Vacant, ComputeTreeIndex;
    var b' := InsertNode(b, p, s, l, m');
    LoneRing(b.fd, b.bk, p);
    forall u | u in b'.rings ensures RingFits(b', u) {
      if u != s {
        assert RingFits(b, u);
        SameRingFits(b, b', u);
      }
    }
  }

  /** Linking in a node leaves the links of chunks outside the trie alone. */
  lemma HookedFrame(m: TreeMemory, h: Shape, m': TreeMemory, p: int, s: nat, l: nat, t: int, q: int)
    requires Hooked(m, h, m', p, s, l, t) && q != p && q !in h.level && HasLinks(m, q)
    ensures HasLinks(m', q) && m'.child0[q] == m.child0[q] && m'.child1[q] == m.child1[q] && m'.parent[q] == m.parent[q]
  {
    hide ComputeTreeIndex, Prefix, RootLevel;
  }

  lemma InsertNodeChunks(b: Bins, p: int, s: nat, l: nat, t: int, m': TreeMemory)
    requires BinsOk(b) && NodePlace(b, p, s, l, t, m') && s !in b.rings
    ensures ChunksFit(InsertNode(b, p, s, l, m'))
  {
    hide TrieOk, AllMapsFit, Hooked, Vacant, ComputeTreeIndex;
    var b' := InsertNode(b, p, s, l, m');
    forall q | q in b'.binned ensures ChunkFits(b', q) {
      if q != p {
        assert ChunkFits(b, q);
        if !IsSmall(b.binned[q]) && q !in b.level { HookedFrame(b.tree, ShapeOf(b), m', p, s, l, t, q); }
      }
    }
  }

  lemma InsertNodeMaps(b: Bins, p: int, s: nat, l: nat, t: int, m': TreeMemory)
    requires BinsOk(b) && NodePlace(b, p, s, l, t, m') && s !in b.rings
    ensures AllMapsFit(InsertNode(b, p, s, l, m'))
  {
    hide TrieOk, RingsFit, ChunksFit, Vacant, ComputeTreeIndex, Prefix, Bit, Or, Idx2Bit, RootLevel;
    var b' := InsertNode(b, p, s, l, m');
    forall i: nat | i < 32 ensures MapsFit(b', i) {
      assert MapsFit(b, i);
      MarkBin(b.treemap, ComputeTreeIndex(s), i);
    }
  }

  /** insert_large_chunk for a size that has a tree node: p is ringed off it. */
  function InsertChained(b: Bins, p: int, s: nat): Bins
    requires LargeSize(s) && s in b.rings && |b.rings[s]| > 0 && b.rings[s][0] in b.fd
  {
    var t := b.rings[s][0];
    b.(tree := FreshNode(b.tree, p, 0),
       fd := FdAfter(b.fd, t, b.fd[t], p), bk := BkAfter(b.bk, t, b.fd[t], p),
       index := b.index[p := ComputeTreeIndex(s)],
       rings := b.rings[s := [t, p] + b.rings[s][1..]], binned := b.binned[p := s])
  }

  predicate HasRing(b: Bins, s: nat)
  {
    s in b.rings && |b.rings[s]| > 0 && b.rings[s][0] in b.fd
  }

  lemma InsertChainedOk(b: Bins, p: int, s: nat)
    requires BinsOk(b) && NewChunk(b, p, s) && LargeSize(s) && HasRing(b, s)
    ensures BinsOk(InsertChained(b, p, s))
  {
    var b' := InsertChained(b, p, s);
    InsertChainedRings(b, p, s);
    InsertChainedChunks(b, p, s);
    LevelsBinned(b);
    assert AllMapsFit(b') by {
      hide ComputeTreeIndex, Bit;
      forall i: nat | i < 32 ensures MapsFit(b', i) { assert MapsFit(b, i); }
    }
    hide RingsFit, ChunksFit, AllMapsFit, TrieOk, ComputeTreeIndex;
    TrieFrame(b.tree, ShapeOf(b), b'.tree, ShapeOf(b'));
  }

  lemma InsertChainedRings(b: Bins, p: int, s: nat)
    requires BinsOk(b) && NewChunk(b, p, s) && LargeSize(s) && HasRing(b, s)
    ensures RingsFit(InsertChained(b, p, s))
  {
    hide TrieOk, AllMapsFit, ChunksFit, ComputeTreeIndex;
    var b' := InsertChained(b, p, s);
    assert RingFits(b, s);
    InsertAfterHead(b.fd, b.bk, b.rings[s], p);
    NeighboursOf(b.fd, b.bk, b.rings[s], 0);
    forall u | u in b'.rings ensures RingFits(b', u) {
      if u != s {
        assert RingFits(b, u);
        forall x | x in b.rings[u] ensures x !in b.rings[s] && x != p {
          if x in b.rings[s] { RingsDisjoint(b, s, u, x); }
        }
        SameRingFits(b, b', u);
      }
    }
  }

  lemma InsertChainedChunks(b: Bins, p: int, s: nat)
    requires BinsOk(b) && NewChunk(b, p, s) && LargeSize(s) && HasRing(b, s)
    ensures ChunksFit(InsertChained(b, p, s))
  {
    LevelsBinned(b);
    hide TrieOk, AllMapsFit, ComputeTreeIndex;
    var b' := InsertChained(b, p, s);
    assert RingFits(b, s);
    forall q | q in b'.binned ensures ChunkFits(b', q) {
      if q != p {
        assert ChunkFits(b, q);
        if b.binned[q] == s { assert q == b.rings[s][0] || q in b.rings[s][1..]; }
      }
    }
  }

  // ----- large chunks coming out

  /** F->bk = B and B->fd = F. */
  function Unlinked(b: Bins, p: int): Bins
    requires p in b.fd && p in b.bk
  {
    b.(fd := b.fd[b.bk[p] := b.fd[p]], bk := b.bk[b.fd[p] := b.bk[p]])
  }

  /** unlink_large_chunk on a chunk ringed off a tree node. */
  function RemoveChained(b: Bins, p: int, k: nat): Bins
    requires InRing(b, p, k)
  {
    var s := b.binned[p];
    Unlinked(b, p).(rings := b.rings[s := b.rings[s][..k] + b.rings[s][k + 1..]], binned := b.binned - {p})
  }

  /** unlink_large_chunk on a tree node that has chunks ringed off it: the last of them takes its place. */
  function RemoveHead(b: Bins, p: int): Bins
    requires InRing(b, p, 0) && |b.rings[b.binned[p]]| >= 2
    requires NodeOk(b.tree, ShapeOf(b), p) && |b.tree.roots| == NTREEBINS
  {
    var s, r := b.binned[p], b.bk[p];
    var n := |b.rings[s]|;
    Unlinked(b, p).(tree := PutInPlace(b.tree, ShapeOf(b), p, r), level := Exchange(ShapeOf(b), p, r).level,
                    rings := b.rings[s := [r] + b.rings[s][1..n - 1]], binned := b.binned - {p})
  }

  /** unlink_large_chunk on the only chunk of its size, at a leaf. */
  function RemoveLoneLeaf(b: Bins, p: int): Bins
    requires InRing(b, p, 0) && NodeOk(b.tree, ShapeOf(b), p) && |b.tree.roots| == NTREEBINS
  {
    var i := BinOf(ShapeOf(b), p);
    b.(treemap := if b.level[p] == RootLevel(i) then Bits.Without(b.treemap, Idx2Bit(i)) else b.treemap,
       tree := SetSlot(b.tree, ShapeOf(b), p, 0), level := b.level - {p},
       rings := b.rings - {b.binned[p]}, binned := b.binned - {p})
  }

  /** unlink_large_chunk on the only chunk of its size, higher up: a leaf r below it takes its place. */
  function RemoveInner(b: Bins, p: int, r: int): Bins
    requires InRing(b, p, 0) && |b.tree.roots| == NTREEBINS
    requires NodeOk(b.tree, ShapeOf(b), p) && NodeOk(b.tree, ShapeOf(b), r) && p != r
    requires HasLinks(SetSlot(b.tree, ShapeOf(b), r, 0), p) && |SetSlot(b.tree, ShapeOf(b), r, 0).roots| == NTREEBINS
  {
    var m, h := SetSlot(b.tree, ShapeOf(b), r, 0), Tries.Without(ShapeOf(b), r);
    b.(tree := PutInPlace(m, h, p, r), level := Exchange(h, p, r).level,
       rings := b.rings - {b.binned[p]}, binned := b.binned - {p})
  }

  /** The other rings do not notice when p's neighbours are linked to each other. */
  lemma UnlinkedOtherRing(b: Bins, b': Bins, p: int, k: nat, t: nat)
    requires InRing(b, p, k) && RingFits(b, b.binned[p]) && RingFits(b, t) && t != b.binned[p]
    requires t in b'.rings && b'.rings[t] == b.rings[t] && b'.binned == b.binned - {p}
    requires (b'.fd == Unlinked(b, p).fd && b'.bk == Unlinked(b, p).bk) || (b'.fd == b.fd && b'.bk == b.bk)
    ensures RingFits(b', t)
  {
    var s := b.binned[p];
    forall x | x in b.rings[t] ensures x !in b.rings[s] {
      if x in b.rings[s] { RingsDisjoint(b, s, t, x); }
    }
    NeighboursOf(b.fd, b.bk, b.rings[s], k);
    SameRingFits(b, b', t);
  }

  lemma RemoveChainedOk(b: Bins, p: int, k: nat)
    requires BinsOk(b) && InRing(b, p, k) && !IsSmall(b.binned[p]) && p !in b.level
    ensures k >= 1 && BinsOk(RemoveChained(b, p, k))
  {
    hide ComputeTreeIndex;
    var s, b' := b.binned[p], RemoveChained(b, p, k);
    assert ChunkFits(b, p) && RingFits(b, s);
    LevelsBinned(b);
    assert RingsFit(b') by {
      hide TrieOk, AllMapsFit, ChunksFit;
      RemoveAt(b.fd, b.bk, b.rings[s], k);
      forall t | t in b'.rings ensures RingFits(b', t) {
        if t != s {
          assert RingFits(b, t);
          UnlinkedOtherRing(b, b', p, k, t);
        }
      }
    }
    RemoveChainedChunks(b, p, k);
    assert AllMapsFit(b') by {
      hide Bit;
      forall i: nat | i < 32 ensures MapsFit(b', i) { assert MapsFit(b, i); }
    }
    hide RingsFit, ChunksFit, AllMapsFit, TrieOk;
    TrieFrame(b.tree, ShapeOf(b), b'.tree, ShapeOf(b'));
  }

  lemma RemoveChainedChunks(b: Bins, p: int, k: nat)
    requires BinsOk(b) && InRing(b, p, k) && !IsSmall(b.binned[p]) && p !in b.level && k >= 1
    ensures ChunksFit(RemoveChained(b, p, k))
  {
    hide TrieOk, AllMapsFit, ComputeTreeIndex;
    var s, b' := b.binned[p], RemoveChained(b, p, k);
    assert RingFits(b, s);
    forall q | q in b'.binned ensures ChunkFits(b', q) {
      assert ChunkFits(b, q);
      if b.binned[q] == s {
        var j :| 0 <= j < |b.rings[s]| && b.rings[s][j] == q;
        assert q == if j < k then b'.rings[s][j] else b'.rings[s][j - 1];
      }
    }
  }

  /** A trie does not miss the size of a chunk that is not one of its nodes. */
  lemma DropSize(m: TreeMemory, h: Shape, p: int)
    requires TrieOk(m, h) && p !in h.level
    ensures TrieOk(m, Shape(h.size - {p}, h.level))
  {
    forall x | x in h.level ensures x in h.size { assert NodeOk(m, h, x); }
    hide TrieOk;
    TrieFrame(m, h, m, Shape(h.size - {p}, h.level));
  }

  /** The last chunk of a node's ring can take the node's place in the trie. */
  lemma HeadReplacement(b: Bins, p: int)
    requires BinsOk(b) && InRing(b, p, 0) && !IsSmall(b.binned[p]) && |b.rings[b.binned[p]]| >= 2
    ensures NodeOk(b.tree, ShapeOf(b), p) && |b.tree.roots| == NTREEBINS
    ensures b.bk[p] == b.rings[b.binned[p]][|b.rings[b.binned[p]]| - 1] && b.bk[p] != p
    ensures Replaces(b.tree, ShapeOf(b), p, b.bk[p])
  {
    hide ComputeTreeIndex, Prefix;
    var s, r, h := b.binned[p], b.bk[p], ShapeOf(b);
    assert RingFits(b, s) && ChunkFits(b, p);
    NeighboursOf(b.fd, b.bk, b.rings[s], 0);
    assert NodeOk(b.tree, h, p);
    assert BinnedAs(b, r, s);
    assert ChunkFits(b, r);
    forall y | y in h.level && y in h.size && y != p ensures h.size[y] != h.size[r] { assert Apart(h, y, p); }
  }

  lemma RemoveHeadOk(b: Bins, p: int)
    requires BinsOk(b) && InRing(b, p, 0) && !IsSmall(b.binned[p]) && |b.rings[b.binned[p]]| >= 2
    requires NodeOk(b.tree, ShapeOf(b), p) && |b.tree.roots| == NTREEBINS
    ensures BinsOk(RemoveHead(b, p))
  {
    HeadReplacement(b, p);
    RemoveHeadRings(b, p);
    RemoveHeadChunks(b, p);
    RemoveHeadMaps(b, p);
    RemoveHeadTrie(b, p);
    hide *;
    hide RingsFit, ChunksFit, AllMapsFit, TrieOk, RemoveHead, ShapeOf;
  }

  lemma RemoveHeadTrie(b: Bins, p: int)
    requires TrieOk(b.tree, ShapeOf(b)) && InRing(b, p, 0) && |b.rings[b.binned[p]]| >= 2
    requires NodeOk(b.tree, ShapeOf(b), p) && |b.tree.roots| == NTREEBINS
    requires Replaces(b.tree, ShapeOf(b), p, b.bk[p]) && b.bk[p] != p
    ensures TrieOk(RemoveHead(b, p).tree, ShapeOf(RemoveHead(b, p)))
  {
    hide TrieOk, ComputeTreeIndex, PutInPlace, Replaces;
    PutInPlaceOk(b.tree, ShapeOf(b), p, b.bk[p]);
    DropSize(RemoveHead(b, p).tree, Exchange(ShapeOf(b), p, b.bk[p]), p);
  }

  lemma RemoveHeadOwnRing(b: Bins, p: int)
    requires InRing(b, p, 0) && !IsSmall(b.binned[p]) && |b.rings[b.binned[p]]| >= 2 && RingFits(b, b.binned[p])
    requires NodeOk(b.tree, ShapeOf(b), p) && |b.tree.roots| == NTREEBINS
    requires b.bk[p] == b.rings[b.binned[p]][|b.rings[b.binned[p]]| - 1]
    ensures RingFits(RemoveHead(b, p), b.binned[p])
  {
    var s, b' := b.binned[p], RemoveHead(b, p);
    var ring, ring' := b.rings[s], b'.rings[s];
    RemoveFirst(b.fd, b.bk, ring);
    hide ComputeTreeIndex, PutInPlace, RingOk, NodeOk;
    forall k | 0 <= k < |ring'| ensures BinnedAs(b', ring'[k], s) {
      assert ring'[k] == if k == 0 then ring[|ring| - 1] else ring[k];
      RingHeadDistinct(b, s, if k == 0 then |ring| - 1 else k);
    }
  }

  lemma RingHeadDistinct(b: Bins, s: nat, k: nat)
    requires RingFits(b, s) && 1 <= k < |b.rings[s]|
    ensures b.rings[s][k] != b.rings[s][0] && BinnedAs(b, b.rings[s][k], s)
  {}

  lemma RemoveHeadRings(b: Bins, p: int)
    requires BinsOk(b) && InRing(b, p, 0) && !IsSmall(b.binned[p]) && |b.rings[b.binned[p]]| >= 2
    requires NodeOk(b.tree, ShapeOf(b), p) && |b.tree.roots| == NTREEBINS
    requires b.bk[p] == b.rings[b.binned[p]][|b.rings[b.binned[p]]| - 1]
    ensures RingsFit(RemoveHead(b, p))
  {
    hide TrieOk, AllMapsFit, ChunksFit, ComputeTreeIndex, PutInPlace, NodeOk, RingOk;
    var s, b' := b.binned[p], RemoveHead(b, p);
    assert RingFits(b, s);
    RemoveHeadOwnRing(b, p);
    forall t | t in b'.rings ensures RingFits(b', t) {
      if t != s {
        assert RingFits(b, t);
        UnlinkedOtherRing(b, b', p, 0, t);
      }
    }
  }

  lemma RemoveHeadChunks(b: Bins, p: int)
    requires BinsOk(b) && InRing(b, p, 0) && !IsSmall(b.binned[p]) && |b.rings[b.binned[p]]| >= 2
    requires NodeOk(b.tree, ShapeOf(b), p) && |b.tree.roots| == NTREEBINS
    requires Replaces(b.tree, ShapeOf(b), p, b.bk[p]) && b.bk[p] == b.rings[b.binned[p]][|b.rings[b.binned[p]]| - 1]
    ensures ChunksFit(RemoveHead(b, p))
  {
    var s, b', r := b.binned[p], RemoveHead(b, p), b.bk[p];
    var n := |b.rings[s]|;
    assert RingFits(b, s);
    forall q | q in b'.binned ensures ChunkFits(b', q) {
      assert ChunkFits(b, q);
      if !IsSmall(b.binned[q]) && q !in b.level && q != r { PutFrame(b.tree, ShapeOf(b), p, r, q); }
      hide TrieOk, AllMapsFit, ComputeTreeIndex, PutInPlace, Replaces, RingsFit, ChunksFit;
      if b.binned[q] == s {
        var j :| 0 <= j < n && b.rings[s][j] == q;
        assert q == if j == n - 1 then b'.rings[s][0] else b'.rings[s][j];
      }
    }
  }

  lemma RemoveHeadMaps(b: Bins, p: int)
    requires BinsOk(b) && InRing(b, p, 0) && !IsSmall(b.binned[p]) && |b.rings[b.binned[p]]| >= 2
    requires NodeOk(b.tree, ShapeOf(b), p) && |b.tree.roots| == NTREEBINS
    requires Replaces(b.tree, ShapeOf(b), p, b.bk[p])
    ensures AllMapsFit(RemoveHead(b, p))
  {
    var h, r, b' := ShapeOf(b), b.bk[p], RemoveHead(b, p);
    assert ChildOk(b.tree, h, p, 0) && ChildOk(b.tree, h, p, 1) && ParentOk(b.tree, h, p);
    PutParentLinks(b.tree, h, p, r, p);
    hide Bit, ComputeTreeIndex, PutInPlace, RootLevel;
    forall i: nat | i < 32 ensures MapsFit(b', i) { assert MapsFit(b, i); }
  }

  // ----- a lone leaf

  lemma LoneNode(b: Bins, p: int)
    requires BinsOk(b) && InRing(b, p, 0) && !IsSmall(b.binned[p]) && |b.rings[b.binned[p]]| == 1
    ensures NodeOk(b.tree, ShapeOf(b), p) && |b.tree.roots| == NTREEBINS && b.rings[b.binned[p]] == [p]
    ensures forall q :: q in b.binned && q != p ==> b.binned[q] != b.binned[p]
  {
    assert ChunkFits(b, p) && RingFits(b, b.binned[p]);
    assert NodeOk(b.tree, ShapeOf(b), p);
    forall q | q in b.binned && q != p ensures b.binned[q] != b.binned[p] { assert ChunkFits(b, q); }
  }

  /** With the only chunk of a size gone, the ring of that size goes, and the other rings stay as they are. */
  lemma LoneRingsFit(b: Bins, b': Bins, p: int)
    requires RingsFit(b) && InRing(b, p, 0) && |b.rings[b.binned[p]]| == 1
    requires b'.rings == b.rings - {b.binned[p]} && b'.binned == b.binned - {p} && b'.fd == b.fd && b'.bk == b.bk
    ensures RingsFit(b')
  {
    assert RingFits(b, b.binned[p]);
    forall t | t in b'.rings ensures RingFits(b', t) {
      assert RingFits(b, t);
      UnlinkedOtherRing(b, b', p, 0, t);
    }
  }

  lemma RemoveLoneLeafOk(b: Bins, p: int)
    requires BinsOk(b) && InRing(b, p, 0) && !IsSmall(b.binned[p]) && |b.rings[b.binned[p]]| == 1
    requires NodeOk(b.tree, ShapeOf(b), p) && |b.tree.roots| == NTREEBINS && IsLeaf(b.tree, p)
    ensures BinsOk(RemoveLoneLeaf(b, p))
  {
    var h, b' := ShapeOf(b), RemoveLoneLeaf(b, p);
    LoneNode(b, p);
    LoneRingsFit(b, b', p);
    assert ChunkFits(b, p);
    RemoveLeafOk(b.tree, h, p);
    RemoveLoneLeafMaps(b, p);
    RemoveLoneLeafChunks(b, p);
    hide RingsFit, ChunksFit, AllMapsFit, TrieOk, ComputeTreeIndex, SetSlot;
    DropSize(b'.tree, Tries.Without(h, p), p);
  }

  lemma RemoveLoneLeafChunks(b: Bins, p: int)
    requires BinsOk(b) && InRing(b, p, 0) && !IsSmall(b.binned[p])
    requires forall q :: q in b.binned && q != p ==> b.binned[q] != b.binned[p]
    requires NodeOk(b.tree, ShapeOf(b), p) && |b.tree.roots| == NTREEBINS
    ensures ChunksFit(RemoveLoneLeaf(b, p))
  {
    var h, b' := ShapeOf(b), RemoveLoneLeaf(b, p);
    forall q | q in b'.binned ensures ChunkFits(b', q) {
      assert ChunkFits(b, q);
      if !IsSmall(b.binned[q]) && q !in b.level { SetSlotFrame(b.tree, h, p, 0, q); }
      hide TrieOk, RingsFit, ComputeTreeIndex, SetSlot, AllMapsFit, ChunksFit;
    }
  }

  lemma RemoveLoneLeafMaps(b: Bins, p: int)
    requires BinsOk(b) && InRing(b, p, 0) && !IsSmall(b.binned[p])
    requires NodeOk(b.tree, ShapeOf(b), p) && |b.tree.roots| == NTREEBINS
    ensures AllMapsFit(RemoveLoneLeaf(b, p))
  {
    var h, b' := ShapeOf(b), RemoveLoneLeaf(b, p);
    assert ParentOk(b.tree, h, p);
    forall i: nat | i < 32 ensures MapsFit(b', i) {
      assert MapsFit(b, i);
      hide Bit, Bits.Without, Idx2Bit, ComputeTreeIndex, RootLevel;
      ClearBin(b.treemap, BinOf(h, p), i);
    }
  }

  // ----- a lone node higher up

  /** With its slot cleared, the leaf r can take the place of the node p above it. */
  lemma LeafReplacement(b: Bins, p: int, r: int)
    requires BinsOk(b) && Covers(b.tree, ShapeOf(b), p, r) && p != r && IsLeaf(b.tree, r) && r in b.level &&
             p in b.level
    ensures |b.tree.roots| == NTREEBINS && NodeOk(b.tree, ShapeOf(b), r)
    ensures var m, h := SetSlot(b.tree, ShapeOf(b), r, 0), Tries.Without(ShapeOf(b), r);
            TrieOk(m, h) && NodeOk(m, h, p) && Replaces(m, h, p, r) && |m.roots| == NTREEBINS && HasLinks(m, p)
    ensures b.level[r] < b.level[p] && r > 0
  {
    var h0 := ShapeOf(b);
    Descend(b.tree, h0, p, r);
    RemoveLeafOk(b.tree, h0, r);
    var m, h := SetSlot(b.tree, h0, r, 0), Tries.Without(h0, r);
    assert ParentOk(b.tree, h0, r);
    hide ComputeTreeIndex, Prefix, RootLevel;
    assert NodeOk(m, h, p);
    assert IsLeaf(m, r);
    forall y | y in h.level && y in h.size && y != p ensures h.size[y] != h.size[r] { assert Apart(h0, y, r); }
  }

  /** p is a lone tree node, and the leaf r below it is ready to take its place. */
  ghost predicate InnerReady(b: Bins, p: int, r: int)
  {
    InRing(b, p, 0) && !IsSmall(b.binned[p]) && |b.tree.roots| == NTREEBINS &&
    NodeOk(b.tree, ShapeOf(b), p) && NodeOk(b.tree, ShapeOf(b), r) && p != r && b.level[r] < b.level[p] &&
    var m, h := SetSlot(b.tree, ShapeOf(b), r, 0), Tries.Without(ShapeOf(b), r);
    TrieOk(m, h) && Replaces(m, h, p, r) && |m.roots| == NTREEBINS && HasLinks(m, p)
  }

  lemma RemoveInnerOk(b: Bins, p: int, r: int)
    requires BinsOk(b) && InnerReady(b, p, r) && |b.rings[b.binned[p]]| == 1
    ensures BinsOk(RemoveInner(b, p, r))
  {
    LoneNode(b, p);
    LoneRingsFit(b, RemoveInner(b, p, r), p);
    RemoveInnerMaps(b, p, r);
    RemoveInnerChunks(b, p, r);
    RemoveInnerTrie(b, p, r);
    hide RingsFit, ChunksFit, AllMapsFit, TrieOk, RemoveInner;
  }

  lemma RemoveInnerTrie(b: Bins, p: int, r: int)
    requires InnerReady(b, p, r)
    ensures TrieOk(RemoveInner(b, p, r).tree, ShapeOf(RemoveInner(b, p, r)))
  {
    hide TrieOk, ComputeTreeIndex, PutInPlace, SetSlot;
    var m, h := SetSlot(b.tree, ShapeOf(b), r, 0), Tries.Without(ShapeOf(b), r);
    PutInPlaceOk(m, h, p, r);
    DropSize(RemoveInner(b, p, r).tree, Exchange(h, p, r), p);
  }

  lemma RemoveInnerChunks(b: Bins, p: int, r: int)
    requires BinsOk(b) && InnerReady(b, p, r)
    requires forall q :: q in b.binned && q != p ==> b.binned[q] != b.binned[p]
    ensures ChunksFit(RemoveInner(b, p, r))
  {
    var m, h := SetSlot(b.tree, ShapeOf(b), r, 0), Tries.Without(ShapeOf(b), r);
    var b' := RemoveInner(b, p, r);
    forall q | q in b'.binned ensures ChunkFits(b', q) {
      assert ChunkFits(b, q);
      if !IsSmall(b.binned[q]) && q !in b.level {
        SetSlotFrame(b.tree, ShapeOf(b), r, 0, q);
        PutFrame(m, h, p, r, q);
      }
      hide TrieOk, RingsFit, ComputeTreeIndex, SetSlot, PutInPlace, Replaces, AllMapsFit, ChunksFit;
    }
  }

  /** A root stays a root, or hands its bin to its replacement: no bin becomes empty. */
  lemma RemoveInnerRoots(b: Bins, p: int, r: int, i: nat)
    requires BinsOk(b) && InnerReady(b, p, r) && i < NTREEBINS
    ensures |RemoveInner(b, p, r).tree.roots| == NTREEBINS
    ensures RemoveInner(b, p, r).tree.roots[i] != 0 <==> b.tree.roots[i] != 0
  {
    var m, h := SetSlot(b.tree, ShapeOf(b), r, 0), Tries.Without(ShapeOf(b), r);
    assert ChildOk(m, h, p, 0) && ChildOk(m, h, p, 1) && ParentOk(m, h, p);
    assert ParentOk(b.tree, ShapeOf(b), p);
    PutParentLinks(m, h, p, r, p);
    assert ComputeTreeIndex(b.binned[p]) == ComputeTreeIndex(b.binned[r]);
    hide ComputeTreeIndex, PutInPlace, RootLevel, Prefix, TrieOk, RingsFit, ChunksFit, AllMapsFit;
  }

  lemma RemoveInnerMaps(b: Bins, p: int, r: int)
    requires BinsOk(b) && InnerReady(b, p, r)
    ensures AllMapsFit(RemoveInner(b, p, r))
  {
    var b' := RemoveInner(b, p, r);
    forall i: nat | i < 32 ensures MapsFit(b', i) {
      assert MapsFit(b, i);
      RemoveInnerRoots(b, p, r, i);
      hide Bit, ComputeTreeIndex, PutInPlace, SetSlot, RootLevel, TrieOk, RingsFit, ChunksFit, AllMapsFit, Replaces;
    }
  }

  // ----- what the code reads out of the maps and links

  lemma SmallMapTest(b: Bins, i: nat)
    requires BinsOk(b) && i < NSMALLBINS
    ensures And(b.smallmap, Idx2Bit(i)) != 0 <==> 8 * i in b.rings
  {
    hide RingsFit, ChunksFit, TrieOk;
    assert MapsFit(b, i);
    TestBin(b.smallmap, i);
  }

  lemma TreeMapTest(b: Bins, i: nat)
    requires BinsOk(b) && i < NTREEBINS
    ensures |b.tree.roots| == NTREEBINS
    ensures And(b.treemap, Idx2Bit(i)) != 0 <==> b.tree.roots[i] != 0
  {
    hide RingsFit, ChunksFit;
    assert RootOk(b.tree, ShapeOf(b), 0);
    assert MapsFit(b, i);
    TestBin(b.treemap, i);
  }

  /** The links of a small chunk are those of its ring; both lead to the bin's head when it is alone. */
  lemma SmallLinks(b: Bins, p: int, k: nat)
    requires BinsOk(b) && InRing(b, p, k) && IsSmall(b.binned[p])
    ensures b.fd[p] == b.bk[p] <==> |b.rings[b.binned[p]]| == 2
    ensures b.binned[p] % 8 == 0 && b.binned[p] / 8 < NSMALLBINS
  {
    hide TrieOk, ChunksFit, AllMapsFit;
    assert RingFits(b, b.binned[p]);
    NeighboursOf(b.fd, b.bk, b.rings[b.binned[p]], k);
  }

  /** The first chunk of a non-empty small bin. */
  lemma FirstSmall(b: Bins, i: nat)
    requires BinsOk(b) && i < NSMALLBINS && 8 * i in b.rings
    ensures SmallBinAt(i) in b.fd && InRing(b, b.fd[SmallBinAt(i)], 1) && b.binned[b.fd[SmallBinAt(i)]] == 8 * i
    ensures b.bk[b.fd[SmallBinAt(i)]] == SmallBinAt(i)
  {
    hide TrieOk, AllMapsFit, ChunksFit;
    assert RingFits(b, 8 * i);
    SmallHeadLinked(b, 8 * i);
    NeighboursOf(b.fd, b.bk, b.rings[8 * i], 1);
    assert BinnedAs(b, b.rings[8 * i][1], 8 * i);
  }

  /** insert_small_chunk seen from its test of the bin map. */
  lemma InsertSmallPlan(b: Bins, p: int, s: nat)
    requires BinsOk(b) && NewChunk(b, p, s) && IsSmall(s)
    ensures var head := SmallBinAt(s / 8); var empty := And(b.smallmap, Idx2Bit(s / 8)) == 0;
            (!empty ==> head in b.fd) &&
            var f := if empty then head else b.fd[head];
            BinsOk(b.(smallmap := if empty then Or(b.smallmap, Idx2Bit(s / 8)) else b.smallmap,
                      fd := FdAfter(b.fd, head, f, p), bk := BkAfter(b.bk, head, f, p),
                      rings := RingsWithSmall(b.rings, p, s), binned := b.binned[p := s]))
  {
    hide BinsOk, And, Or, FdAfter, BkAfter;
    SmallMapTest(b, s / 8);
    if s in b.rings { SmallHeadLinked(b, s); }
    InsertSmallOk(b, p, s);
  }

  /** An empty tree bin takes p as its root. */
  lemma InsertRootPlan(b: Bins, p: int, s: nat)
    requires BinsOk(b) && NewChunk(b, p, s) && LargeSize(s) && And(b.treemap, Idx2Bit(ComputeTreeIndex(s))) == 0
    ensures |b.tree.roots| == NTREEBINS
    ensures var i := ComputeTreeIndex(s);
            BinsOk(InsertNode(b, p, s, RootLevel(i), AddRoot(b.tree, i, p)))
  {
    var i := ComputeTreeIndex(s);
    TreeMapTest(b, i);
    LevelsBinned(b);
    EmptyBinVacant(b.tree, ShapeOf(b), s);
    assert 3 <= RootLevel(i);
    hide BinsOk, TrieOk;
    InsertNodeOk(b, p, s, RootLevel(i), 0, AddRoot(b.tree, i, p));
  }

  /** Below node t there is room for p on the side its size picks. */
  ghost predicate RoomBelow(b: Bins, t: int, s: nat, side: int)
  {
    NodeOk(b.tree, ShapeOf(b), t) && b.level[t] > 3 && SameSlot(s, b.binned[t], b.level[t]) &&
    side == Prefix(s, b.level[t] - 1) % 2 && Child(b.tree, t, side) == 0 && Vacant(ShapeOf(b), s, b.level[t] - 1)
  }

  lemma RoomLevel(b: Bins, t: int, s: nat, side: int)
    requires RoomBelow(b, t, s, side)
    ensures t in b.level && b.level[t] > 3
  {}

  lemma InsertLeafPlan(b: Bins, p: int, s: nat, t: int, side: int)
    requires BinsOk(b) && NewChunk(b, p, s) && LargeSize(s) && RoomBelow(b, t, s, side)
    ensures b.level[t] - 1 != RootLevel(ComputeTreeIndex(s))
    ensures BinsOk(InsertNode(b, p, s, b.level[t] - 1, AddLeaf(b.tree, t, side, p)))
  {
    hide BinsOk, Vacant, ComputeTreeIndex, Prefix;
    InsertNodeOk(b, p, s, b.level[t] - 1, t, AddLeaf(b.tree, t, side, p));
  }

  /** A tree node heads the ring of its size. */
  lemma NodeHeadsRing(b: Bins, t: int)
    requires BinsOk(b) && t in b.level
    ensures t in b.binned && LargeSize(b.binned[t]) && HasRing(b, b.binned[t]) && b.rings[b.binned[t]][0] == t
    ensures InRing(b, t, 0) && NodeOk(b.tree, ShapeOf(b), t) && t in b.index &&
            b.index[t] == ComputeTreeIndex(b.binned[t])
  {
    assert NodeOk(b.tree, ShapeOf(b), t);
    assert ChunkFits(b, t);
    hide ComputeTreeIndex;
    assert RingFits(b, b.binned[t]);
    NeighboursOf(b.fd, b.bk, b.rings[b.binned[t]], 0);
  }

  /** What the links of a large chunk tell: whether it is alone in its ring, and whether it is a tree node. */
  lemma LargeLinks(b: Bins, p: int, k: nat)
    requires BinsOk(b) && InRing(b, p, k) && !IsSmall(b.binned[p])
    ensures HasLinks(b.tree, p) && TrieOk(b.tree, ShapeOf(b)) && |b.tree.roots| == NTREEBINS
    ensures LargeSize(b.binned[p]) && p in b.index && b.index[p] == ComputeTreeIndex(b.binned[p])
    ensures b.tree.parent[p] != 0 <==> p in b.level
    ensures p in b.level ==> k == 0 && NodeOk(b.tree, ShapeOf(b), p)
    ensures b.bk[p] == p <==> |b.rings[b.binned[p]]| == 1
    ensures b.bk[p] == p ==> p in b.level
  {
    hide ComputeTreeIndex;
    assert ChunkFits(b, p);
    assert RingFits(b, b.binned[p]);
    NeighboursOf(b.fd, b.bk, b.rings[b.binned[p]], k);
    RootFits(b.tree, ShapeOf(b), 0);
    if p in b.level { SlotTests(b.tree, ShapeOf(b), p); }
  }

  /** Every large chunk has a tree node of its size. */
  lemma NodeOfSize(b: Bins, p: int) returns (t: int)
    requires BinsOk(b) && p in b.binned && !IsSmall(b.binned[p])
    ensures t in b.level && t in b.binned && b.binned[t] == b.binned[p]
  {
    hide ComputeTreeIndex, TrieOk;
    assert ChunkFits(b, p);
    assert RingFits(b, b.binned[p]);
    t := b.rings[b.binned[p]][0];
    assert BinnedAs(b, t, b.binned[p]);
    assert ChunkFits(b, t);
  }
}
