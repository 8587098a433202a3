/** Block and inode arithmetic of ext2.c: where the blocks of a file and the inodes are on the disk. */
module Ext2 {
  import opened Bytes
  import opened Buffers
  import opened TreeIndex
  import opened Offsets
  import opened Disks
  import opened BlockCaches
  import opened BlockDevices

  /** The block pointers of an inode. */
  datatype Inode = Inode(direct: seq<nat>, sibp: nat, dibp: nat, tibp: nat)

  /** The fields of struct ext2_fs that matter here; tableStart holds inode_table_start_block by group. */
  datatype Fs = Fs(blockSize: nat, pointers: nat, pointers2: nat, pointers3: nat, inodeSize: nat, inodesPerGroup: nat,
                   tableStart: seq<nat>)

  // ----- words on the disk

  /** A 32-bit little-endian word. */
  function Word(s: seq<Byte>, p: nat): (w: nat)
    requires p + 4 <= |s|
    ensures w < WORD
  {
    (s[p] as int) + 0x100 * (s[p + 1] as int) + 0x1_0000 * (s[p + 2] as int) + 0x100_0000 * (s[p + 3] as int)
  }

  /** The i-th pointer of block b; 0 when there is no such place on the disk. */
  function Pointer(data: seq<Byte>, bs: nat, b: nat, i: nat): nat
  {
    if Offset(b, bs) + 4 * i + 4 <= |data| then Word(data, Offset(b, bs) + 4 * i) else 0
  }

  /** The k bytes of a number, the least significant first: what is stored for it. */
  function LittleEndian(n: nat, k: nat): (s: seq<Byte>)
    ensures |s| == k
  {
    if k == 0 then [] else [n % 256] + LittleEndian(n / 256, k - 1)
  }

  /** The bytes stored for a list of 32-bit numbers. */
  function Encoded(ns: seq<nat>): (s: seq<Byte>)
    ensures |s| == 4 * |ns|
  {
    if ns == [] then [] else LittleEndian(ns[0], 4) + Encoded(ns[1..])
  }

  /** Four bytes are those of a number below 2^32 exactly when that number is the word there. */
  lemma WordStored(s: seq<Byte>, p: nat, n: nat)
    requires p + 4 <= |s| && n < 0x1_0000_0000
    ensures s[p..p + 4] == LittleEndian(n, 4) <==> Word(s, p) == n
  {
    FourBytes(n);
    var a, x := LittleEndian(n, 4), s[p..p + 4];
    assert x[0] == s[p] && x[1] == s[p + 1] && x[2] == s[p + 2] && x[3] == s[p + 3];
    hide LittleEndian;
    if Word(s, p) == n { OneSpelling(x[0], x[1], x[2], x[3], a[0], a[1], a[2], a[3]); }
  }

  /** Four bytes are determined by the number they stand for. */
  lemma OneSpelling(a: int, b: int, c: int, d: int, a': int, b': int, c': int, d': int)
    requires 0 <= a < 256 && 0 <= b < 256 && 0 <= c < 256 && 0 <= a' < 256 && 0 <= b' < 256 && 0 <= c' < 256
    requires a + 256 * (b + 256 * (c + 256 * d)) == a' + 256 * (b' + 256 * (c' + 256 * d'))
    ensures a == a' && b == b' && c == c' && d == d'
  {
    assert b + 256 * (c + 256 * d) == b' + 256 * (c' + 256 * d');
    assert c + 256 * d == c' + 256 * d';
  }

  /** The bytes of a number stand for it. */
  lemma FourBytes(n: nat)
    requires n < 0x1_0000_0000
    ensures var s := LittleEndian(n, 4); n == s[0] + 256 * ((s[1] as int) + 256 * ((s[2] as int) + 256 * (s[3] as int)))
  {
    var n1, n2, n3 := n / 256, n / 256 / 256, n / 256 / 256 / 256;
    assert LittleEndian(n3, 1) == [n3 % 256] + LittleEndian(n3 / 256, 0);
    assert LittleEndian(n2, 2) == [n2 % 256] + LittleEndian(n3, 1);
    assert LittleEndian(n1, 3) == [n1 % 256] + LittleEndian(n2, 2);
  }

  /** What stores a list of numbers stores the first one and then the others. */
  lemma EncodedParts(s: seq<Byte>, p: nat, ns: seq<nat>)
    requires ns != [] && p + 4 * |ns| <= |s| && s[p..p + 4 * |ns|] == Encoded(ns)
    ensures s[p..p + 4] == LittleEndian(ns[0], 4) && s[p + 4..p + 4 + 4 * |ns[1..]|] == Encoded(ns[1..])
  {
    var a, b := LittleEndian(ns[0], 4), Encoded(ns[1..]);
    assert Encoded(ns) == a + b;
    hide *;
    PartsStored(s, p, a, b);
  }

  lemma PartsStored(s: seq<Byte>, p: nat, a: seq<Byte>, b: seq<Byte>)
    requires p + |a| + |b| <= |s| && s[p..p + |a| + |b|] == a + b
    ensures s[p..p + |a|] == a && s[p + |a|..p + |a| + |b|] == b
  {
    var n := |a| + |b|;
    CutOfCut(s, p, n, 0, |a|);
    CutOfCut(s, p, n, |a|, |b|);
    assert (a + b)[..|a|] == a && (a + b)[|a|..] == b;
  }

  /** The i-th word of the bytes stored for a list of numbers is the i-th number. */
  lemma {:induction false} EncodedWord(s: seq<Byte>, p: nat, ns: seq<nat>, i: nat)
    requires p + 4 * |ns| <= |s| && s[p..p + 4 * |ns|] == Encoded(ns) && i < |ns| && ns[i] < 0x1_0000_0000
    ensures Word(s, p + 4 * i) == ns[i]
    decreases i
  {
    hide Encoded, LittleEndian, Word;
    EncodedParts(s, p, ns);
    if i == 0 { WordStored(s, p, ns[0]); } else { EncodedWord(s, p + 4, ns[1..], i - 1); }
  }

  /** The pointers that a block was written with are the pointers read from it. */
  lemma PointerStored(data: seq<Byte>, bs: nat, b: nat, ns: seq<nat>, i: nat)
    requires var at := bs * b; at + 4 * |ns| <= |data| && data[at..at + 4 * |ns|] == Encoded(ns)
    requires i < |ns| && ns[i] < 0x1_0000_0000
    ensures Pointer(data, bs, b, i) == ns[i]
  {
    OffsetIsProduct(b, bs);
    var at := bs * b;
    PointerIs(data, bs, b, i, at);
    hide *;
    EncodedWord(data, at, ns, i);
  }

  lemma PointerIs(data: seq<Byte>, bs: nat, b: nat, i: nat, at: nat)
    requires at == Offset(b, bs) && at + 4 * i + 4 <= |data|
    ensures Pointer(data, bs, b, i) == Word(data, at + 4 * i)
  {
    hide Offset, Word;
  }

  // ----- the tree of blocks, in order

  /** How many blocks hang below a pointer that is d levels above them. */
  function Below(pointers: nat, d: nat): nat
  {
    if d == 0 then 1 else Offset(pointers, Below(pointers, d - 1))
  }

  /** The blocks below block b, d levels up, in order. */
  function Leaves(data: seq<Byte>, bs: nat, pointers: nat, b: nat, d: nat): seq<nat>
    decreases d, pointers + 1
  {
    if d == 0 then [b] else LeavesOf(data, bs, pointers, b, d, pointers)
  }

  /** Those below its first n pointers. */
  function LeavesOf(data: seq<Byte>, bs: nat, pointers: nat, b: nat, d: nat, n: nat): seq<nat>
    requires d > 0 && n <= pointers
    decreases d, n
  {
    if n == 0 then []
    else LeavesOf(data, bs, pointers, b, d, n - 1) + Leaves(data, bs, pointers, Pointer(data, bs, b, n - 1), d - 1)
  }

  /** All blocks of a file, in order: the direct ones and those below the three indirect pointers. */
  function FileBlocks(data: seq<Byte>, fs: Fs, i: Inode): seq<nat>
  {
    i.direct + Leaves(data, fs.blockSize, fs.pointers, i.sibp, 1) + Leaves(data, fs.blockSize, fs.pointers, i.dibp, 2) +
    Leaves(data, fs.blockSize, fs.pointers, i.tibp, 3)
  }

  lemma {:induction false} LeavesCount(data: seq<Byte>, bs: nat, pointers: nat, b: nat, d: nat)
    ensures |Leaves(data, bs, pointers, b, d)| == Below(pointers, d)
    decreases d, pointers + 1
  {
    if d > 0 { PartCount(data, bs, pointers, b, d, pointers); }
  }

  lemma {:induction false} PartCount(data: seq<Byte>, bs: nat, pointers: nat, b: nat, d: nat, n: nat)
    requires d > 0 && n <= pointers
    ensures |LeavesOf(data, bs, pointers, b, d, n)| == Offset(n, Below(pointers, d - 1))
    decreases d, n
  {
    if n > 0 {
      PartCount(data, bs, pointers, b, d, n - 1);
      LeavesCount(data, bs, pointers, Pointer(data, bs, b, n - 1), d - 1);
      OffsetStep(n - 1, Below(pointers, d - 1));
    }
  }

  /** The r-th block below the k-th pointer is the one that the quotient and the remainder lead to. */
  lemma {:induction false} LeafAt(data: seq<Byte>, bs: nat, pointers: nat, b: nat, d: nat, n: nat, k: nat, r: nat)
    requires d > 0 && k < n <= pointers && r < Below(pointers, d - 1)
    ensures var s := LeavesOf(data, bs, pointers, b, d, n);
            var i := Offset(k, Below(pointers, d - 1)) + r;
            i < |s| && r < |Leaves(data, bs, pointers, Pointer(data, bs, b, k), d - 1)| &&
            s[i] == Leaves(data, bs, pointers, Pointer(data, bs, b, k), d - 1)[r]
    decreases n
  {
    var size := Below(pointers, d - 1);
    PartCount(data, bs, pointers, b, d, n);
    PartCount(data, bs, pointers, b, d, n - 1);
    LeavesCount(data, bs, pointers, Pointer(data, bs, b, k), d - 1);
    OffsetOrder(k, n, size);
    if k < n - 1 {
      OffsetOrder(k, n - 1, size);
      LeafAt(data, bs, pointers, b, d, n - 1, k, r);
    }
  }

  // ----- the superblock

  /** What ext2_init derives from the block size, in 32 bits. */
  function PointerCounts(fs: Fs): (nat, nat, nat)
  {
    var p := fs.blockSize / 4;
    var p2 := p * p % WORD;
    (p, p2, p2 * p % WORD)
  }

  /** The block size is one of those up to 4096, and whole device blocks. */
  predicate FsOk(fs: Fs, ds: nat)
  {
    fs.blockSize in {1024, 2048, 4096} && ds > 0 && Whole(fs.blockSize, ds) &&
    (fs.pointers, fs.pointers2, fs.pointers3) == PointerCounts(fs)
  }

  /** For these block sizes the three counts do not wrap, and all indices fit into 32 bits. */
  lemma CountsFit(fs: Fs, ds: nat)
    requires FsOk(fs, ds)
    ensures fs.pointers == Below(fs.pointers, 1) && fs.pointers2 == Below(fs.pointers, 2) &&
            fs.pointers3 == Below(fs.pointers, 3)
    ensures 4 * fs.pointers == fs.blockSize && fs.pointers > 0 && 12 + fs.pointers + fs.pointers2 + fs.pointers3 < WORD
  {
    BelowIs(fs.pointers);
    hide Below, Whole;
    if fs.blockSize == 1024 {
      assert fs.pointers == 256;
    } else if fs.blockSize == 2048 {
      assert fs.pointers == 512;
    } else {
      assert fs.pointers == 1024;
    }
  }

  lemma BelowIs(p: nat)
    ensures Below(p, 1) == p && Below(p, 2) == p * p && Below(p, 3) == p * p * p
  {
    OffsetIsProduct(p, 1);
    OffsetIsProduct(p, p);
    OffsetIsProduct(p, p * p);
    assert Below(p, 1) == Offset(p, 1) && Below(p, 2) == Offset(p, Below(p, 1)) && Below(p, 3) == Offset(p, Below(p, 2));
    assert p * (p * p) == p * p * p;
  }

  /** get_sector_num, in 32 bits */
  function SectorNum(fs: Fs, ds: nat, b: nat): nat
    requires ds > 0
  {
    Quot(Offset(b, fs.blockSize) % WORD, ds)
  }

  /** Block b lies on the disk, and its position fits into 32 bits. */
  predicate BlockHeld(disk: Disk, fs: Fs, b: nat)
    reads disk
  {
    Offset(b, fs.blockSize) + fs.blockSize <= |disk.data| && Offset(b, fs.blockSize) < WORD
  }

  /** The sector starts where the block starts. */
  lemma SectorPlace(disk: Disk, fs: Fs, b: nat)
    requires disk.Valid() && FsOk(fs, disk.blockSize) && BlockHeld(disk, fs, b)
    ensures var s := SectorNum(fs, disk.blockSize, b);
            Offset(s, disk.blockSize) == Offset(b, fs.blockSize) && disk.Holds(s, fs.blockSize)
  {
    hide Offset, Quot, Rem;
    var ds, bs := disk.blockSize, fs.blockSize;
    Divided(bs, ds);
    var k := Quot(bs, ds);
    OffsetTwice(b, k, ds);
    DividedUnique(Offset(b, k), 0, ds);
    var s := SectorNum(fs, ds, b);
    if s >= disk.numBlocks { OffsetMonotone(disk.numBlocks, s, ds); }
  }

  /** read_block */
  method ReadBlock(dev: Device, fs: Fs, b: nat) returns (buf: array<Byte>)
    requires dev.Valid() && FsOk(fs, dev.disk.blockSize) && BlockHeld(dev.disk, fs, b)
    modifies dev.CacheWords()
    ensures dev.Valid() && fresh(buf) && buf[..] == Cut(dev.disk.data, Offset(b, fs.blockSize), fs.blockSize)
  {
    SectorPlace(dev.disk, fs, b);
    buf := new Byte[fs.blockSize](_ => 0);
    var n := dev.BlockRead(buf, 0, fs.blockSize, SectorNum(fs, dev.disk.blockSize, b));
  }

  /** The i-th pointer in block b, read from the disk. */
  method ReadPointer(dev: Device, fs: Fs, b: nat, i: nat) returns (p: nat)
    requires dev.Valid() && FsOk(fs, dev.disk.blockSize) && BlockHeld(dev.disk, fs, b) && i < fs.pointers
    modifies dev.CacheWords()
    ensures dev.Valid() && p == Pointer(dev.disk.data, fs.blockSize, b, i)
  {
    CountsFit(fs, dev.disk.blockSize);
    hide Offset, Whole;
    var block := ReadBlock(dev, fs, b);
    p := Word(block[..], 4 * i);
  }

  // ----- get_block_no_from_inode

  /** The place of the pointer to a file block: in the inode, or the path of indices below an indirect pointer. */
  datatype Slot = Direct(i: nat) | Single(i: nat) | Double(j: nat, i: nat) | Triple(k: nat, j: nat, i: nat) | Nowhere

  /** The branches of get_block_no_from_inode. */
  function SlotOf(fs: Fs, index: nat): Slot
    requires fs.pointers > 0 && fs.pointers2 > 0
  {
    if index < 12 then Direct(index)
    else
      var i1 := index - 12;
      if i1 < fs.pointers then Single(i1)
      else
        var i2 := i1 - fs.pointers;
        if i2 < fs.pointers2 then Double(Quot(i2, fs.pointers), Rem(i2, fs.pointers))
        else
          var i3 := i2 - fs.pointers2;
          if i3 < fs.pointers3 then
            var rest := Rem(i3, fs.pointers2);
            Triple(Quot(i3, fs.pointers2), Quot(rest, fs.pointers), Rem(rest, fs.pointers))
          else Nowhere
  }

  /** What the pointer in a slot is. */
  function Deref(data: seq<Byte>, fs: Fs, n: Inode, slot: Slot): nat
    requires |n.direct| == 12 && (slot.Direct? ==> slot.i < 12)
  {
    var bs := fs.blockSize;
    match slot
    case Direct(i) => n.direct[i]
    case Single(i) => Pointer(data, bs, n.sibp, i)
    case Double(j, i) => Pointer(data, bs, Pointer(data, bs, n.dibp, j), i)
    case Triple(k, j, i) => Pointer(data, bs, Pointer(data, bs, Pointer(data, bs, n.tibp, k), j), i)
    case Nowhere => 0
  }

  /** The file block that a slot belongs to. */
  function IndexOf(fs: Fs, slot: Slot): nat
  {
    match slot
    case Direct(i) => i
    case Single(i) => 12 + i
    case Double(j, i) => 12 + fs.pointers + Offset(j, fs.pointers) + i
    case Triple(k, j, i) => 12 + fs.pointers + fs.pointers2 + Offset(k, fs.pointers2) + Offset(j, fs.pointers) + i
    case Nowhere => 12 + fs.pointers + fs.pointers2 + fs.pointers3
  }

  lemma SlotInverse(fs: Fs, index: nat)
    requires fs.pointers > 0 && fs.pointers2 > 0
    ensures !SlotOf(fs, index).Nowhere? ==> IndexOf(fs, SlotOf(fs, index)) == index
    ensures SlotOf(fs, index).Nowhere? <==> index >= 12 + fs.pointers + fs.pointers2 + fs.pointers3
  {
    hide Quot, Rem, Offset;
    if index >= 12 + fs.pointers {
      var i2 := index - 12 - fs.pointers;
      if i2 < fs.pointers2 { Divided(i2, fs.pointers); } else {
        var i3: nat := i2 - fs.pointers2;
        Divided(i3, fs.pointers2);
        Divided(Rem(i3, fs.pointers2), fs.pointers);
      }
    }
  }

  /** Different blocks of a file have their pointers in different places. */
  lemma SlotsDistinct(fs: Fs, m: nat, n: nat)
    requires fs.pointers > 0 && fs.pointers2 > 0 && m != n && !SlotOf(fs, m).Nowhere?
    ensures SlotOf(fs, m) != SlotOf(fs, n)
  {
    SlotInverse(fs, m);
    SlotInverse(fs, n);
  }

  lemma LeafOne(data: seq<Byte>, bs: nat, p: nat, b: nat, i: nat)
    requires i < p
    ensures i < |Leaves(data, bs, p, b, 1)| && Leaves(data, bs, p, b, 1)[i] == Pointer(data, bs, b, i)
  {
    LeafAt(data, bs, p, b, 1, p, i, 0);
    OffsetIsProduct(i, 1);
    assert Leaves(data, bs, p, Pointer(data, bs, b, i), 0) == [Pointer(data, bs, b, i)];
  }

  lemma LeafTwo(data: seq<Byte>, bs: nat, p: nat, b: nat, i: nat)
    requires p > 0 && i < Below(p, 2)
    ensures i < |Leaves(data, bs, p, b, 2)|
    ensures Leaves(data, bs, p, b, 2)[i] == Pointer(data, bs, Pointer(data, bs, b, Quot(i, p)), Rem(i, p))
  {
    var q, r := Quot(i, p), Rem(i, p);
    Divided(i, p);
    BelowIs(p);
    assert Below(p, 2) == Offset(p, p);
    if q >= p { OffsetMonotone(p, q, p); }
    hide Quot, Rem, Offset, Pointer;
    LeafAt(data, bs, p, b, 2, p, q, r);
    LeafOne(data, bs, p, Pointer(data, bs, b, q), r);
  }

  lemma LeafThree(data: seq<Byte>, bs: nat, p: nat, b: nat, i: nat)
    requires p > 0 && Below(p, 2) > 0 && i < Below(p, 3)
    ensures i < |Leaves(data, bs, p, b, 3)|
    ensures var r := Rem(i, Below(p, 2));
            Leaves(data, bs, p, b, 3)[i] ==
            Pointer(data, bs, Pointer(data, bs, Pointer(data, bs, b, Quot(i, Below(p, 2))), Quot(r, p)), Rem(r, p))
  {
    var q, r := Quot(i, Below(p, 2)), Rem(i, Below(p, 2));
    Divided(i, Below(p, 2));
    assert Below(p, 3) == Offset(p, Below(p, 2));
    if q >= p { OffsetMonotone(p, q, Below(p, 2)); }
    hide Quot, Rem, Offset, Pointer;
    LeafAt(data, bs, p, b, 3, p, q, r);
    LeafTwo(data, bs, p, Pointer(data, bs, b, q), r);
  }

  /** The pointer that the branches lead to is the block at that index of the file, flattened in order. */
  lemma BlocksInOrder(data: seq<Byte>, fs: Fs, ds: nat, n: Inode, index: nat)
    requires FsOk(fs, ds) && |n.direct| == 12
    ensures fs.pointers > 0 && fs.pointers2 > 0
    ensures var blocks := FileBlocks(data, fs, n);
            |blocks| == 12 + fs.pointers + fs.pointers2 + fs.pointers3 &&
            Deref(data, fs, n, SlotOf(fs, index)) == if index < |blocks| then blocks[index] else 0
  {
    var bs, p := fs.blockSize, fs.pointers;
    CountsFit(fs, ds);
    BelowIs(p);
    TwoLevels(p);
    LeavesCount(data, bs, p, n.sibp, 1);
    LeavesCount(data, bs, p, n.dibp, 2);
    LeavesCount(data, bs, p, n.tibp, 3);
    hide Below, Leaves, Quot, Rem, Offset, Pointer, FsOk;
    if 12 <= index < 12 + p {
      LeafOne(data, bs, p, n.sibp, index - 12);
    } else if 12 + p <= index < 12 + p + fs.pointers2 {
      LeafTwo(data, bs, p, n.dibp, index - 12 - p);
    } else if 12 + p + fs.pointers2 <= index < 12 + p + fs.pointers2 + fs.pointers3 {
      LeafThree(data, bs, p, n.tibp, index - 12 - p - fs.pointers2);
    }
  }

  lemma TwoLevels(p: nat)
    requires p > 0
    ensures Below(p, 2) > 0
  {
    BelowIs(p);
    assert p * p >= p;
  }

  /** The blocks on the way to the pointer of a file block are on the disk. */
  predicate PathHeld(disk: Disk, fs: Fs, n: Inode, slot: Slot)
    reads disk
  {
    var bs := fs.blockSize;
    match slot
    case Direct(i) => true
    case Single(i) => BlockHeld(disk, fs, n.sibp) && i < fs.pointers
    case Double(j, i) =>
      BlockHeld(disk, fs, n.dibp) && j < fs.pointers && BlockHeld(disk, fs, Pointer(disk.data, bs, n.dibp, j)) &&
      i < fs.pointers
    case Triple(k, j, i) =>
      BlockHeld(disk, fs, n.tibp) && k < fs.pointers && BlockHeld(disk, fs, Pointer(disk.data, bs, n.tibp, k)) &&
      j < fs.pointers &&
      BlockHeld(disk, fs, Pointer(disk.data, bs, Pointer(disk.data, bs, n.tibp, k), j)) && i < fs.pointers
    case Nowhere => true
  }

  /** get_block_no_from_inode: the index-th block of the file, or 0 beyond the last one that an inode can have. */
  method GetBlockNoFromInode(dev: Device, fs: Fs, n: Inode, index: nat) returns (ret: nat)
    requires dev.Valid() && FsOk(fs, dev.disk.blockSize) && |n.direct| == 12 && fs.pointers > 0 && fs.pointers2 > 0
    requires PathHeld(dev.disk, fs, n, SlotOf(fs, index))
    modifies dev.CacheWords()
    ensures dev.Valid()
    ensures var blocks := FileBlocks(dev.disk.data, fs, n); ret == if index < |blocks| then blocks[index] else 0
  {
    hide Quot, Rem, Offset, Pointer, FsOk, FileBlocks, BlockHeld;
    BlocksInOrder(dev.disk.data, fs, dev.disk.blockSize, n, index);
    var i := index;
    if i < 12 { return n.direct[i]; }
    i := i - 12;
    if i < fs.pointers {
      ret := ReadPointer(dev, fs, n.sibp, i);
      return;
    }
    i := i - fs.pointers;
    if i < fs.pointers2 {
      var dibIndex, sibIndex := Quot(i, fs.pointers), Rem(i, fs.pointers);
      var sibBlock := ReadPointer(dev, fs, n.dibp, dibIndex);
      ret := ReadPointer(dev, fs, sibBlock, sibIndex);
      return;
    }
    i := i - fs.pointers2;
    if i < fs.pointers3 {
      var tibIndex, tibRem := Quot(i, fs.pointers2), Rem(i, fs.pointers2);
      var dibIndex, sibIndex := Quot(tibRem, fs.pointers), Rem(tibRem, fs.pointers);
      var dibBlock := ReadPointer(dev, fs, n.tibp, tibIndex);
      var sibBlock := ReadPointer(dev, fs, dibBlock, dibIndex);
      ret := ReadPointer(dev, fs, sibBlock, sibIndex);
      return;
    }
    return 0;
  }

  // ----- ext2_read_inode

  /** sizeof(struct ext2_inode) */
  const INODE_BYTES: nat := 128

  /** Where an inode is: its group, the block of that group's table, and the place in the block. */
  datatype InodePlace = InodePlace(group: nat, block: nat, place: nat)

  function InodesPerBlock(fs: Fs): nat
    requires fs.inodeSize > 0
  {
    Quot(fs.blockSize, fs.inodeSize)
  }

  function PlaceOf(fs: Fs, ino: nat): InodePlace
    requires ino > 0 && fs.inodesPerGroup > 0 && fs.inodeSize > 0 && InodesPerBlock(fs) > 0
  {
    var o := Rem(ino - 1, fs.inodesPerGroup);
    InodePlace(Quot(ino - 1, fs.inodesPerGroup), Quot(o, InodesPerBlock(fs)), Rem(o, InodesPerBlock(fs)))
  }

  /** The inode tables of different groups do not overlap. */
  predicate TablesApart(fs: Fs, g: nat, h: nat)
    requires fs.inodesPerGroup > 0 && fs.inodeSize > 0 && InodesPerBlock(fs) > 0
  {
    var blocks := Quot(fs.inodesPerGroup - 1, InodesPerBlock(fs)) + 1;
    g < |fs.tableStart| && h < |fs.tableStart| && g != h ==>
      fs.tableStart[g] + blocks <= fs.tableStart[h] || fs.tableStart[h] + blocks <= fs.tableStart[g]
  }

  ghost predicate GroupsOk(fs: Fs)
  {
    INODE_BYTES <= fs.inodeSize && fs.inodesPerGroup > 0 && InodesPerBlock(fs) > 0 &&
    forall g: nat, h: nat {:trigger TablesApart(fs, g, h)} :: TablesApart(fs, g, h)
  }

  /** The first byte of an inode. */
  function InodeAt(fs: Fs, ino: nat): nat
    requires ino > 0 && fs.inodesPerGroup > 0 && fs.inodeSize > 0 && InodesPerBlock(fs) > 0
    requires PlaceOf(fs, ino).group < |fs.tableStart|
  {
    var p := PlaceOf(fs, ino);
    Offset(fs.tableStart[p.group] + p.block, fs.blockSize) + Offset(p.place, fs.inodeSize)
  }

  /** An inode lies within a block of its group's table. */
  lemma InodeInBlock(fs: Fs, ino: nat)
    requires GroupsOk(fs) && ino > 0
    ensures var p := PlaceOf(fs, ino);
            Offset(p.place, fs.inodeSize) + fs.inodeSize <= fs.blockSize &&
            p.block <= Quot(fs.inodesPerGroup - 1, InodesPerBlock(fs))
  {
    var p, k := PlaceOf(fs, ino), InodesPerBlock(fs);
    OffsetOrder(p.place, k, fs.inodeSize);
    Divided(fs.blockSize, fs.inodeSize);
    var o := Rem(ino - 1, fs.inodesPerGroup);
    Divided(o, k);
    Divided(fs.inodesPerGroup - 1, k);
    var last := Quot(fs.inodesPerGroup - 1, k);
    hide Quot, Rem, Offset;
    if p.block > last { OffsetOrder(last, p.block, k); }
  }

  /** Different inode numbers have different places. */
  lemma PlacesDistinct(fs: Fs, m: nat, n: nat)
    requires GroupsOk(fs) && m > 0 && n > 0 && PlaceOf(fs, m) == PlaceOf(fs, n)
    ensures m == n
  {
    hide Quot, Rem, Offset;
    Divided(m - 1, fs.inodesPerGroup);
    Divided(n - 1, fs.inodesPerGroup);
    Divided(Rem(m - 1, fs.inodesPerGroup), InodesPerBlock(fs));
    Divided(Rem(n - 1, fs.inodesPerGroup), InodesPerBlock(fs));
  }

  /** Different valid inode numbers have disjoint ranges of bytes. */
  lemma InodesApart(fs: Fs, m: nat, n: nat)
    requires GroupsOk(fs) && m > 0 && n > 0 && m != n
    requires PlaceOf(fs, m).group < |fs.tableStart| && PlaceOf(fs, n).group < |fs.tableStart|
    ensures InodeAt(fs, m) + fs.inodeSize <= InodeAt(fs, n) || InodeAt(fs, n) + fs.inodeSize <= InodeAt(fs, m)
  {
    var p, q := PlaceOf(fs, m), PlaceOf(fs, n);
    var b, c := fs.tableStart[p.group] + p.block, fs.tableStart[q.group] + q.block;
    InodeInBlock(fs, m);
    InodeInBlock(fs, n);
    if p == q { PlacesDistinct(fs, m, n); }
    assert TablesApart(fs, p.group, q.group);
    hide GroupsOk, Quot, Rem, Offset, PlaceOf;
    if b < c { OffsetOrder(b, c, fs.blockSize); }
    if c < b { OffsetOrder(c, b, fs.blockSize); }
    if b == c {
      assert p.group == q.group && p.block == q.block;
      if p.place < q.place { OffsetOrder(p.place, q.place, fs.inodeSize); }
      if q.place < p.place { OffsetOrder(q.place, p.place, fs.inodeSize); }
    }
  }

  /** The block pointers as they lie in the 128 bytes of an inode. */
  function InodeFrom(s: seq<Byte>): Inode
    requires |s| == INODE_BYTES
  {
    Inode([Word(s, 40), Word(s, 44), Word(s, 48), Word(s, 52), Word(s, 56), Word(s, 60), Word(s, 64), Word(s, 68), Word(s, 72),
           Word(s, 76), Word(s, 80), Word(s, 84)], Word(s, 88), Word(s, 92), Word(s, 96))
  }

  /** The 15 numbers stored from byte 40 of an inode on are its pointers: db0 to db11, sibp, dibp and tibp. */
  lemma InodeStored(s: seq<Byte>, n: Inode)
    requires |s| == INODE_BYTES && |n.direct| == 12
    requires forall p :: p in n.direct + [n.sibp, n.dibp, n.tibp] ==> p < 0x1_0000_0000
    requires s[40..100] == Encoded(n.direct + [n.sibp, n.dibp, n.tibp])
    ensures InodeFrom(s) == n
  {
    var ns := n.direct + [n.sibp, n.dibp, n.tibp];
    hide Word, Encoded;
    forall i: nat | i < 15 ensures Word(s, 40 + 4 * i) == ns[i] {
      assert ns[i] in ns;
      EncodedWord(s, 40, ns, i);
    }
    InodeWords(s);
    hide InodeFrom;
    var m := InodeFrom(s);
    forall i: nat | i < 12 ensures m.direct[i] == n.direct[i] { assert ns[i] == n.direct[i]; }
    assert ns[12] == n.sibp && ns[13] == n.dibp && ns[14] == n.tibp;
  }

  lemma InodeWords(s: seq<Byte>)
    requires |s| == INODE_BYTES
    ensures var n := InodeFrom(s);
            |n.direct| == 12 && (forall i :: 0 <= i < 12 ==> n.direct[i] == Word(s, 40 + 4 * i)) &&
            n.sibp == Word(s, 40 + 4 * 12) && n.dibp == Word(s, 40 + 4 * 13) && n.tibp == Word(s, 40 + 4 * 14)
  {
    hide Word;
  }

  /** The other way round: the bytes of an inode are what is stored for the pointers that it is read as. */
  lemma InodeBytes(s: seq<Byte>)
    requires |s| == INODE_BYTES
    ensures var n := InodeFrom(s); |n.direct| == 12 && s[40..100] == Encoded(n.direct + [n.sibp, n.dibp, n.tibp])
  {
    InodeWords(s);
    var n := InodeFrom(s);
    var ns := n.direct + [n.sibp, n.dibp, n.tibp];
    hide InodeFrom, Word;
    assert ns[12] == n.sibp && ns[13] == n.dibp && ns[14] == n.tibp;
    forall i: nat | i < 15 ensures ns[i] == Word(s, 40 + 4 * i) { assert i < 12 ==> ns[i] == n.direct[i]; }
    WordsEncoded(s, 40, ns);
  }

  /** Numbers that are the words of a stretch are what the stretch stores. */
  lemma {:induction false} WordsEncoded(s: seq<Byte>, p: nat, ns: seq<nat>)
    requires p + 4 * |ns| <= |s| && forall i: nat :: i < |ns| ==> ns[i] == Word(s, p + 4 * i)
    ensures s[p..p + 4 * |ns|] == Encoded(ns)
    decreases |ns|
  {
    hide Word;
    if ns != [] {
      WordStored(s, p, ns[0]);
      var rest := ns[1..];
      assert Encoded(ns) == LittleEndian(ns[0], 4) + Encoded(rest);
      hide LittleEndian, Encoded;
      forall i: nat | i < |rest| ensures rest[i] == Word(s, p + 4 + 4 * i) { assert rest[i] == ns[i + 1]; }
      WordsEncoded(s, p + 4, rest);
      CutsJoin(s, p, 4, 4 * |rest|);
    }
  }

  lemma PointersIn(data: seq<Byte>, at: nat)
    requires at + INODE_BYTES <= |data|
    ensures Cut(data, at, INODE_BYTES)[40..100] == data[at + 40..at + 100]
  {
    CutOfCut(data, at, INODE_BYTES, 40, 60);
  }

  /**
    In numbers: with k inodes to a block, inode n is the one with index n - 1 modulo the inodes of a group in the
    table of the group. When inodes fill a block, the table is one array of them.
  */
  lemma InodePosition(fs: Fs, ino: nat)
    requires GroupsOk(fs) && ino > 0 && PlaceOf(fs, ino).group < |fs.tableStart|
    ensures var k, o := fs.blockSize / fs.inodeSize, (ino - 1) % fs.inodesPerGroup;
            k > 0 && (ino - 1) / fs.inodesPerGroup < |fs.tableStart| &&
            InodeAt(fs, ino) ==
            (fs.tableStart[(ino - 1) / fs.inodesPerGroup] + o / k) * fs.blockSize + o % k * fs.inodeSize
    ensures fs.blockSize % fs.inodeSize == 0 ==>
              InodeAt(fs, ino) == fs.tableStart[(ino - 1) / fs.inodesPerGroup] * fs.blockSize +
                                  (ino - 1) % fs.inodesPerGroup * fs.inodeSize
  {
    var p, k, o := PlaceOf(fs, ino), InodesPerBlock(fs), Rem(ino - 1, fs.inodesPerGroup);
    OffsetIsProduct(fs.tableStart[p.group] + p.block, fs.blockSize);
    OffsetIsProduct(p.place, fs.inodeSize);
    assert p.group == (ino - 1) / fs.inodesPerGroup && o == (ino - 1) % fs.inodesPerGroup;
    assert p.block == o / k && p.place == o % k && k == fs.blockSize / fs.inodeSize;
    hide *;
    if fs.blockSize % fs.inodeSize == 0 {
      Regroup(fs.tableStart[p.group], o, k, fs.inodeSize);
      assert fs.blockSize == k * fs.inodeSize;
    }
  }

  lemma Regroup(t: nat, o: nat, k: nat, size: nat)
    requires k > 0
    ensures (t + o / k) * (k * size) + o % k * size == t * (k * size) + o * size
  {
    var q, r := o / k, o % k;
    assert (t + q) * (k * size) == t * (k * size) + q * (k * size);
    assert q * (k * size) == q * k * size;
    assert q * k * size + r * size == (q * k + r) * size;
  }

  /** ext2_read_inode */
  method ReadInode(dev: Device, fs: Fs, ino: nat) returns (inode: Inode)
    requires dev.Valid() && FsOk(fs, dev.disk.blockSize) && GroupsOk(fs) && ino > 0 &&
             PlaceOf(fs, ino).group < |fs.tableStart|
    requires BlockHeld(dev.disk, fs, fs.tableStart[PlaceOf(fs, ino).group] + PlaceOf(fs, ino).block)
    modifies dev.CacheWords()
    ensures dev.Valid() && InodeAt(fs, ino) + INODE_BYTES <= |dev.disk.data|
    ensures inode == InodeFrom(Cut(dev.disk.data, InodeAt(fs, ino), INODE_BYTES))
    ensures var at := InodeAt(fs, ino);
            |inode.direct| == 12 &&
            dev.disk.data[at + 40..at + 100] == Encoded(inode.direct + [inode.sibp, inode.dibp, inode.tibp])
  {
    hide Quot, Rem, Offset, Splice, Buffers.Cut, InodeFrom, FsOk, SlotsOk, Encoded;
    InodeInBlock(fs, ino);
    var idx := ino - 1;
    var blockIdx, blockOffset := Quot(idx, fs.inodesPerGroup), Rem(idx, fs.inodesPerGroup);
    var start := fs.tableStart[blockIdx];
    var inodesPerBlock := Quot(fs.blockSize, fs.inodeSize);
    blockIdx := Quot(blockOffset, inodesPerBlock);
    blockOffset := Rem(blockOffset, inodesPerBlock);
    var itable := ReadBlock(dev, fs, start + blockIdx);
    var at := Offset(blockOffset, fs.inodeSize);
    CutOfCut(dev.disk.data, Offset(start + blockIdx, fs.blockSize), fs.blockSize, at, INODE_BYTES);
    inode := InodeFrom(Cut(itable[..], at, INODE_BYTES));
    InodeBytes(Cut(itable[..], at, INODE_BYTES));
    PointersIn(dev.disk.data, InodeAt(fs, ino));
  }
}
