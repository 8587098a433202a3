/** The tree of blocks of a file as it is written to the disk, and that ext2.c reads it back in order. */
module Ext2Trees {
  import opened Bytes
  import opened Ext2

  /** A block of the file, or a block with pointers to more. */
  datatype Tree = Leaf(no: nat) | Node(no: nat, kids: seq<Tree>)

  /** The numbers of the blocks at the tops of some trees. */
  function Tops(kids: seq<Tree>): (ns: seq<nat>)
    ensures |ns| == |kids| && forall i :: 0 <= i < |kids| ==> ns[i] == kids[i].no
  {
    seq(|kids|, i requires 0 <= i < |kids| => kids[i].no)
  }

  /** The blocks of the file below a tree, from left to right. */
  function Frontier(t: Tree): seq<nat>
    decreases t
  {
    match t
    case Leaf(no) => [no]
    case Node(_, kids) => Frontiers(kids)
  }

  function Frontiers(kids: seq<Tree>): seq<nat>
    decreases kids
  {
    if kids == [] then [] else Frontiers(kids[..|kids| - 1]) + Frontier(kids[|kids| - 1])
  }

  /**
    The tree has d levels of pointer blocks with up to p pointers each, filled from the left, and all are on the disk.
    What a file does not need of a pointer block may hold anything.
  */
  ghost predicate OnDisk(data: seq<Byte>, bs: nat, p: nat, t: Tree, d: nat)
    decreases d
  {
    match t
    case Leaf(no) => d == 0
    case Node(no, kids) =>
      d > 0 && |kids| <= p && bs * no + 4 * |kids| <= |data| &&
      data[bs * no..bs * no + 4 * |kids|] == Encoded(Tops(kids)) &&
      (forall i :: 0 <= i < |kids| ==> kids[i].no < 0x1_0000_0000 && OnDisk(data, bs, p, kids[i], d - 1)) &&
      forall i :: 0 <= i < |kids| - 1 ==> |Frontier(kids[i])| == Below(p, d - 1)
  }

  /** The blocks below a pointer begin with the leaves of the tree that was written there, in order. */
  lemma {:induction false} LeavesRead(data: seq<Byte>, bs: nat, p: nat, t: Tree, d: nat)
    requires OnDisk(data, bs, p, t, d)
    ensures Frontier(t) <= Leaves(data, bs, p, t.no, d)
    decreases d, p + 1
  {
    if d > 0 {
      PartRead(data, bs, p, t, d, |t.kids|);
      assert t.kids[..|t.kids|] == t.kids;
      PartsGrow(data, bs, p, t.no, d, |t.kids|, p);
    }
  }

  /** Up to the last pointer used, everything before it is there in full. */
  lemma {:induction false} PartRead(data: seq<Byte>, bs: nat, p: nat, t: Tree, d: nat, n: nat)
    requires d > 0 && OnDisk(data, bs, p, t, d) && n <= |t.kids|
    ensures Frontiers(t.kids[..n]) <= LeavesOf(data, bs, p, t.no, d, n)
    ensures n < |t.kids| ==> Frontiers(t.kids[..n]) == LeavesOf(data, bs, p, t.no, d, n)
    decreases d, n
  {
    if n > 0 {
      PartRead(data, bs, p, t, d, n - 1);
      KidRead(data, bs, p, t, d, n - 1);
      var kid, rest := t.kids[n - 1], LeavesOf(data, bs, p, t.no, d, n - 1);
      var more := Leaves(data, bs, p, kid.no, d - 1);
      FrontiersOn(t.kids, n);
      assert LeavesOf(data, bs, p, t.no, d, n) == rest + more;
      assert Frontiers(t.kids[..n - 1]) == rest;
      hide *;
      Longer(rest, Frontier(kid), more);
    }
  }

  lemma FrontiersOn(kids: seq<Tree>, n: nat)
    requires 0 < n <= |kids|
    ensures Frontiers(kids[..n]) == Frontiers(kids[..n - 1]) + Frontier(kids[n - 1])
  {
    assert kids[..n][..n - 1] == kids[..n - 1];
  }

  lemma Longer(a: seq<nat>, x: seq<nat>, y: seq<nat>)
    requires x <= y
    ensures a + x <= a + y
  {}

  lemma {:induction false} KidRead(data: seq<Byte>, bs: nat, p: nat, t: Tree, d: nat, i: nat)
    requires d > 0 && OnDisk(data, bs, p, t, d) && i < |t.kids|
    ensures var kid := t.kids[i];
            Pointer(data, bs, t.no, i) == kid.no && Frontier(kid) <= Leaves(data, bs, p, kid.no, d - 1) &&
            (i < |t.kids| - 1 ==> Frontier(kid) == Leaves(data, bs, p, kid.no, d - 1))
    decreases d, 0
  {
    var kid := t.kids[i];
    PointerStored(data, bs, t.no, Tops(t.kids), i);
    LeavesRead(data, bs, p, kid, d - 1);
    LeavesCount(data, bs, p, kid.no, d - 1);
    assert i < |t.kids| - 1 ==> |Frontier(kid)| == Below(p, d - 1);
    hide OnDisk, Frontier, Leaves, Encoded, Tops;
  }

  lemma {:induction false} PartsGrow(data: seq<Byte>, bs: nat, p: nat, b: nat, d: nat, m: nat, n: nat)
    requires d > 0 && m <= n <= p
    ensures LeavesOf(data, bs, p, b, d, m) <= LeavesOf(data, bs, p, b, d, n)
    decreases n
  {
    if m < n { PartsGrow(data, bs, p, b, d, m, n - 1); }
  }

  /** A file as it is written: 12 blocks and three trees of one, two and three levels, filled from the left. */
  datatype FileTrees = FileTrees(direct: seq<nat>, single: Tree, double: Tree, triple: Tree)

  ghost predicate Written(data: seq<Byte>, fs: Fs, f: FileTrees)
  {
    |f.direct| == 12 && OnDisk(data, fs.blockSize, fs.pointers, f.single, 1) &&
    OnDisk(data, fs.blockSize, fs.pointers, f.double, 2) && OnDisk(data, fs.blockSize, fs.pointers, f.triple, 3)
  }

  /** The blocks of the file are read in the order in which they were written. */
  lemma FileRead(data: seq<Byte>, fs: Fs, ds: nat, f: FileTrees)
    requires FsOk(fs, ds) && Written(data, fs, f)
    ensures fs.pointers == fs.blockSize / 4 && fs.pointers2 == fs.pointers * fs.pointers
    ensures var p, p2 := fs.pointers, fs.pointers2;
            var blocks := FileBlocks(data, fs, Inode(f.direct, f.single.no, f.double.no, f.triple.no));
            12 + p + p2 <= |blocks| && f.direct <= blocks && Frontier(f.single) <= blocks[12..] &&
            Frontier(f.double) <= blocks[12 + p..] && Frontier(f.triple) <= blocks[12 + p + p2..]
  {
    var bs, p := fs.blockSize, fs.pointers;
    CountsFit(fs, ds);
    BelowIs(p);
    LeavesRead(data, bs, p, f.single, 1);
    LeavesRead(data, bs, p, f.double, 2);
    LeavesRead(data, bs, p, f.triple, 3);
    LeavesCount(data, bs, p, f.single.no, 1);
    LeavesCount(data, bs, p, f.double.no, 2);
    LeavesCount(data, bs, p, f.triple.no, 3);
    var a, b := Leaves(data, bs, p, f.single.no, 1), Leaves(data, bs, p, f.double.no, 2);
    var c := Leaves(data, bs, p, f.triple.no, 3);
    assert FileBlocks(data, fs, Inode(f.direct, f.single.no, f.double.no, f.triple.no)) == f.direct + a + b + c;
    assert |f.direct| == 12 && |a| == p && |b| == fs.pointers2;
    hide *;
    FourParts(f.direct, a, b, c);
    FirstOf(Frontier(f.single), a, b + c);
    FirstOf(Frontier(f.double), b, c);
  }

  lemma FirstOf(x: seq<nat>, a: seq<nat>, b: seq<nat>)
    requires x <= a
    ensures x <= a + b
  {}

  lemma FourParts(d: seq<nat>, a: seq<nat>, b: seq<nat>, c: seq<nat>)
    ensures var s := d + a + b + c;
            d <= s && s[|d|..] == a + (b + c) && s[|d| + |a|..] == b + c && s[|d| + |a| + |b|..] == c
  {}
}
