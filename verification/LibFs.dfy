/** Where the blocks of a file are: the callback of fs_fread and fs_fwrite for each kind of file system. */
module BlockMaps {
  import opened Bytes
  import opened Buffers
  import opened Offsets
  import opened Disks
  import opened BlockCaches
  import opened BlockDevices
  import opened Ext2
  import opened Fat

  /** A plain list of device blocks, an inode, or a cluster chain. */
  datatype Layout = Listed(blocks: seq<nat>) | OnExt2(fs: Ext2.Fs, inode: Inode) | OnFat(fat: FatFs, first: nat)

  /** The device block where block i of the file starts, or NO_BLOCK. */
  function At(layout: Layout, ds: nat, data: seq<Byte>, i: nat): nat
    requires ds > 0
  {
    match layout
    case Listed(blocks) => if i < |blocks| then blocks[i] else NO_BLOCK
    case OnExt2(fs, inode) =>
      SectorNum(fs, ds, if i < |FileBlocks(data, fs, inode)| then FileBlocks(data, fs, inode)[i] else 0)
    case OnFat(fat, first) => BlockOf(data, fat, first, i)
  }

  /** Block i of the file, bytes and all; a block that is missing or not on the disk counts as zeros. */
  function BlockBytes(layout: Layout, ds: nat, bs: nat, data: seq<Byte>, i: nat): (s: seq<Byte>)
    requires ds > 0
    ensures |s| == bs
  {
    var at := Offset(At(layout, ds, data, i), ds);
    if at + bs <= |data| then Cut(data, at, bs) else seq(bs, _ => 0)
  }

  /** The first n blocks of the file as one array of bytes. */
  function FileBytes(layout: Layout, ds: nat, bs: nat, data: seq<Byte>, n: nat): (s: seq<Byte>)
    requires ds > 0
    ensures |s| == Offset(n, bs)
  {
    if n == 0 then [] else FileBytes(layout, ds, bs, data, n - 1) + BlockBytes(layout, ds, bs, data, n - 1)
  }

  /** A stretch within block i of the file is the same stretch within that block on the disk. */
  lemma {:induction false} BlockInFile(layout: Layout, ds: nat, bs: nat, data: seq<Byte>, n: nat, i: nat, r: nat,
                                       m: nat)
    requires ds > 0 && i < n && r + m <= bs && Offset(At(layout, ds, data, i), ds) + bs <= |data|
    ensures Offset(i, bs) + r + m <= Offset(n, bs)
    ensures Cut(FileBytes(layout, ds, bs, data, n), Offset(i, bs) + r, m) == Cut(data, Offset(At(layout, ds, data, i), ds) + r, m)
  {
    hide Offset, At, Buffers.Cut;
    OffsetOrder(i, n, bs);
    var before := FileBytes(layout, ds, bs, data, n - 1);
    CutOfSum(before, BlockBytes(layout, ds, bs, data, n - 1), Offset(i, bs) + r, m);
    if i < n - 1 {
      OffsetOrder(i, n - 1, bs);
      BlockInFile(layout, ds, bs, data, n - 1, i, r, m);
    } else {
      CutOfCut(data, Offset(At(layout, ds, data, i), ds), bs, r, m);
    }
  }

  class BlockMap {
    const dev: Device
    const layout: Layout
    const cursor: Cursor

    ghost predicate Valid()
      reads this, dev, dev.Repr(), cursor
    {
      dev.Valid() && cursor !in dev.Repr() && 
      match layout
      case Listed(blocks) => true
      case OnExt2(fs, inode) =>
        FsOk(fs, dev.disk.blockSize) && |inode.direct| == 12 && fs.pointers > 0 && fs.pointers2 > 0
      case OnFat(fat, first) => dev.disk.blockSize == SECTOR && cursor.first == first && cursor.On(dev.disk.data, fat)
    }

    /** What has to be read to find block i is on the disk. */
    ghost predicate Reachable(i: nat)
      reads dev, dev.disk
    {
      match layout
      case Listed(blocks) => true
      case OnExt2(fs, inode) => fs.pointers > 0 && fs.pointers2 > 0 && PathHeld(dev.disk, fs, inode, SlotOf(fs, i))
      case OnFat(fat, first) => ChainHeld(dev.disk, fat, first, i)
    }

    /** The cursor of a chain has not gone past block i. */
    predicate NotPast(i: nat)
      reads cursor
    {
      layout.OnFat? ==> cursor.fBlock <= i
    }

    constructor (dev: Device, layout: Layout)
      requires dev.Valid()
      requires match layout
               case Listed(blocks) => true
               case OnExt2(fs, inode) =>
                 FsOk(fs, dev.disk.blockSize) && |inode.direct| == 12 && fs.pointers > 0 && fs.pointers2 > 0
               case OnFat(fat, first) => dev.disk.blockSize == SECTOR
      ensures Valid() && this.dev == dev && this.layout == layout && fresh(cursor) && forall i: nat :: NotPast(i)
    {
      this.dev, this.layout := dev, layout;
      cursor := new Cursor(if layout.OnFat? then layout.first else 0);
    }

    /** get_next_bdev_block_num without add_blocks */
    method Next(i: nat) returns (b: nat)
      requires Valid() && Reachable(i) && NotPast(i)
      modifies cursor, dev.CacheWords()
      ensures Valid() && NotPast(i) && dev.disk.blockSize > 0 && b == At(layout, dev.disk.blockSize, dev.disk.data, i)
    {
      hide Offset, Quot, Rem, SlotsOk, FileBlocks, PathHeld, Nth, NextEntry, Ext2.SlotOf, FsOk;
      match layout
      case Listed(blocks) => b := if i < |blocks| then blocks[i] else NO_BLOCK;
      case OnExt2(fs, inode) =>
        var n := GetBlockNoFromInode(dev, fs, inode, i);
        b := SectorNum(fs, dev.disk.blockSize, n);
      case OnFat(fat, first) => b := cursor.GetNextBdevBlockNum(dev, fat, i);
    }
  }
}

/** fs_fread and fs_fwrite of libfs.c: a file is one array of bytes, whatever blocks it is made of. */
module LibFs {
  import opened Bytes
  import opened Buffers
  import opened TreeIndex
  import opened Offsets
  import opened Disks
  import opened BlockCaches
  import opened BlockDevices
  import opened BlockMaps

  /** The position and the length that a stream keeps; whether it was opened to read and append. */
  class Stream {
    var pos: nat
    var len: nat
    const appendAndRead: bool

    constructor (pos: nat, len: nat, appendAndRead: bool)
      ensures this.pos == pos && this.len == len && this.appendAndRead == appendAndRead
    {
      this.pos, this.len, this.appendAndRead := pos, len, appendAndRead;
    }
  }

  // ----- the segments of a request

  /** Where in block cur a request that starts at pos begins. */
  function StartIn(pos: nat, bs: nat, cur: nat): nat
    requires bs > 0
  {
    if cur == Quot(pos, bs) then Rem(pos, bs) else 0
  }

  /** Where in block cur a request that ends at end stops. */
  function StopIn(end: nat, bs: nat, cur: nat): nat
    requires bs > 0
  {
    if cur == Quot(end, bs) then Rem(end, bs) else bs
  }

  /** When block cur is next, done bytes have been transferred. */
  predicate Progress(pos: nat, end: nat, bs: nat, cur: nat, done: nat)
    requires bs > 0
  {
    Quot(pos, bs) <= cur <= Quot(end, bs) + 1 &&
    if cur <= Quot(end, bs) then pos + done == Offset(cur, bs) + StartIn(pos, bs, cur) else pos + done == end
  }

  lemma ProgressStarts(pos: nat, end: nat, bs: nat)
    requires bs > 0 && pos <= end
    ensures Quot(pos, bs) <= Quot(end, bs) && Progress(pos, end, bs, Quot(pos, bs), 0) &&
            end <= Offset(Quot(end, bs) + 1, bs)
  {
    hide Offset, Quot, Rem;
    Divided(pos, bs);
    Divided(end, bs);
    OffsetStep(Quot(end, bs), bs);
    if Quot(end, bs) < Quot(pos, bs) { OffsetOrder(Quot(end, bs), Quot(pos, bs), bs); }
  }

  /** Each block contributes the segment from its start to its stop. */
  lemma ProgressGoesOn(pos: nat, end: nat, bs: nat, cur: nat, done: nat)
    requires bs > 0 && pos <= end && cur <= Quot(end, bs) && Progress(pos, end, bs, cur, done)
    ensures StartIn(pos, bs, cur) <= StopIn(end, bs, cur) <= bs
    ensures Progress(pos, end, bs, cur + 1, done + StopIn(end, bs, cur) - StartIn(pos, bs, cur))
    ensures pos + done + StopIn(end, bs, cur) - StartIn(pos, bs, cur) <= end
  {
    hide Offset, Quot, Rem;
    Divided(pos, bs);
    Divided(end, bs);
    OffsetStep(cur, bs);
    if cur < Quot(end, bs) { OffsetMonotone(cur + 1, Quot(end, bs), bs); }
  }

  lemma ProgressHere(pos: nat, end: nat, bs: nat, cur: nat, done: nat)
    requires bs > 0 && cur <= Quot(end, bs) && Progress(pos, end, bs, cur, done)
    ensures pos + done == Offset(cur, bs) + StartIn(pos, bs, cur)
  {}

  lemma SoFarMore(now: seq<Byte>, now': seq<Byte>, was: seq<Byte>, off: nat, src: seq<Byte>, base: nat, done: nat,
                  more: nat)
    requires SoFar(now, was, off, src, base, done) && off + done + more <= |was| && base + done + more <= |src|
    requires |now| == |was| && now' == Splice(now, off + done, Cut(src, base + done, more))
    ensures SoFar(now', was, off, src, base, done + more)
  {
    Joined(was, off, src, base, done, more);
  }

  /** Byte r of block i of a file is byte r of that block on the disk. */
  lemma FileByte(layout: Layout, ds: nat, bs: nat, data: seq<Byte>, n: nat, i: nat, r: nat)
    requires ds > 0 && i < n && r < bs && ds * At(layout, ds, data, i) + bs <= |data|
    ensures i * bs + r < |FileBytes(layout, ds, bs, data, n)|
    ensures FileBytes(layout, ds, bs, data, n)[i * bs + r] == data[ds * At(layout, ds, data, i) + r]
  {
    var b := At(layout, ds, data, i);
    OffsetIsProduct(i, bs);
    OffsetIsProduct(b, ds);
    var p, q := Offset(i, bs) + r, Offset(b, ds) + r;
    assert p == i * bs + r && q == ds * b + r;
    BlockInFile(layout, ds, bs, data, n, i, r, 1);
    hide *;
    SameByte(FileBytes(layout, ds, bs, data, n), p, data, q);
  }

  lemma SameByte(s: seq<Byte>, p: nat, t: seq<Byte>, q: nat)
    requires p < |s| && q < |t| && Cut(s, p, 1) == Cut(t, q, 1)
    ensures s[p] == t[q]
  {
    assert Cut(s, p, 1)[0] == s[p] && Cut(t, q, 1)[0] == t[q];
  }

  // ----- missing blocks

  /** The first block from i up to last that is missing, or the one behind last when none is. */
  function FirstMissing(layout: Layout, ds: nat, data: seq<Byte>, i: nat, last: nat): (m: nat)
    requires ds > 0
    ensures i <= last ==> i <= m <= last + 1
    decreases last + 1 - i
  {
    if i > last || At(layout, ds, data, i) == NO_BLOCK then i else FirstMissing(layout, ds, data, i + 1, last)
  }

  lemma MissingStep(layout: Layout, ds: nat, data: seq<Byte>, i: nat, last: nat)
    requires ds > 0 && i <= last
    ensures FirstMissing(layout, ds, data, i, last) ==
            if At(layout, ds, data, i) == NO_BLOCK then i else FirstMissing(layout, ds, data, i + 1, last)
  {}

  /** How many bytes of a request can be transferred: all, or those in the blocks before the first missing one. */
  function Transferable(layout: Layout, ds: nat, bs: nat, data: seq<Byte>, pos: nat, n: nat): nat
    requires ds > 0 && bs > 0
  {
    var first, last := Quot(pos, bs), Quot(pos + n, bs);
    var m := FirstMissing(layout, ds, data, first, last);
    if m > last then n else if m == first || Offset(m, bs) < pos then 0 else Offset(m, bs) - pos
  }

  /** In numbers: when no block that the request reaches into is missing, all of it. */
  lemma AllTransferable(layout: Layout, ds: nat, bs: nat, data: seq<Byte>, pos: nat, n: nat)
    requires ds > 0 && bs > 0
    requires forall k :: pos / bs <= k <= (pos + n) / bs ==> At(layout, ds, data, k) != 0xffff_ffff
    ensures Transferable(layout, ds, bs, data, pos, n) == n
  {
    var first, last := pos / bs, (pos + n) / bs;
    Divided(pos, bs);
    Divided(pos + n, bs);
    assert first <= last by { if last < first { OffsetOrder(last, first, bs); } }
    FirstMissingAt(layout, ds, data, first, last, last + 1);
    hide At, Offset;
  }

  /** Otherwise the bytes up to the start of the first one missing. */
  lemma SomeTransferable(layout: Layout, ds: nat, bs: nat, data: seq<Byte>, pos: nat, n: nat, m: nat)
    requires ds > 0 && bs > 0 && pos / bs <= m <= (pos + n) / bs && At(layout, ds, data, m) == 0xffff_ffff
    requires forall k :: pos / bs <= k < m ==> At(layout, ds, data, k) != 0xffff_ffff
    ensures Transferable(layout, ds, bs, data, pos, n) == if m * bs <= pos then 0 else m * bs - pos
  {
    FirstMissingAt(layout, ds, data, pos / bs, (pos + n) / bs, m);
    OffsetIsProduct(m, bs);
    Divided(pos, bs);
    hide At, Offset;
  }

  lemma {:induction false} FirstMissingAt(layout: Layout, ds: nat, data: seq<Byte>, i: nat, last: nat, m: nat)
    requires ds > 0 && i <= m <= last + 1 && (m <= last ==> At(layout, ds, data, m) == NO_BLOCK)
    requires forall k :: i <= k < m ==> At(layout, ds, data, k) != NO_BLOCK
    ensures FirstMissing(layout, ds, data, i, last) == m
    decreases m - i
  {
    if i < m { FirstMissingAt(layout, ds, data, i + 1, last, m); }
  }

  /** At the first missing block the progress is what could be transferred. */
  lemma StoppedAt(layout: Layout, ds: nat, bs: nat, data: seq<Byte>, pos: nat, n: nat, cur: nat, done: nat)
    requires ds > 0 && bs > 0 && Progress(pos, pos + n, bs, cur, done)
    requires FirstMissing(layout, ds, data, Quot(pos, bs), Quot(pos + n, bs)) ==
             FirstMissing(layout, ds, data, cur, Quot(pos + n, bs))
    requires cur > Quot(pos + n, bs) || At(layout, ds, data, cur) == NO_BLOCK
    ensures done == Transferable(layout, ds, bs, data, pos, n)
  {
    hide Offset, Quot, Rem, At;
    Divided(pos, bs);
  }

  // ----- one segment

  /** Part of a block: read straight into the caller's buffer when it is all of it, else by way of a temporary buffer. */
  method ReadSegment(dev: Device, bs: nat, buf: array<Byte>, dst: nat, b: nat, start: nat, length: nat)
    requires dev.Valid() && bs > 0 && dev.disk.Holds(b, bs) && start + length <= bs && dst + length <= buf.Length &&
             buf !in dev.Repr()
    modifies buf, dev.CacheWords()
    ensures dev.Valid() &&
            buf[..] == Splice(old(buf[..]), dst, Cut(dev.disk.data, Offset(b, dev.disk.blockSize) + start, length))
  {
    hide Offset, Splice, Buffers.Cut, SlotsOk;
    ghost var at, data := Offset(b, dev.disk.blockSize), dev.disk.data;
    if start == 0 && length == bs {
      var n := dev.BlockRead(buf, dst, bs, b);
    } else {
      var temp := new Byte[bs](_ => 0);
      SpliceAll(temp[..], Cut(data, at, bs));
      var n := dev.BlockRead(temp, 0, bs, b);
      CutOfCut(data, at, bs, start, length);
      CopyInto(buf, dst, Cut(temp[..], start, length));
    }
  }

  // ----- fs_fread

  lemma BlockSizePositive(bm: BlockMap)
    requires bm.Valid()
    ensures bm.dev.disk.blockSize > 0
  {}

  /** What a request over the blocks from first to last needs to find on the disk. */
  ghost predicate Loaded(bm: BlockMap, bs: nat, first: nat, last: nat)
    reads bm, bm.dev, bm.dev.disk
  {
    bm.dev.disk.blockSize > 0 &&
    forall i {:trigger bm.Reachable(i)} :: first <= i <= last ==>
      bm.Reachable(i) && (At(bm.layout, bm.dev.disk.blockSize, bm.dev.disk.data, i) == NO_BLOCK ||
                           bm.dev.disk.Holds(At(bm.layout, bm.dev.disk.blockSize, bm.dev.disk.data, i), bs))
  }

  /** One block of fs_fread: its segment goes to the buffer, unless the block is missing. */
  method ReadPart(bm: BlockMap, bs: nat, buf: array<Byte>, dst: nat, cur: nat, start: nat, length: nat,
                  ghost first: nat, ghost last: nat) returns (ok: bool)
    requires bm.Valid() && Loaded(bm, bs, first, last) && first <= cur <= last && bm.NotPast(cur) && bs > 0
    requires start + length <= bs && dst + length <= buf.Length && buf !in bm.dev.Repr()
    modifies buf, bm.cursor, bm.dev.CacheWords()
    ensures bm.Valid() && bm.NotPast(cur)
    ensures bm.dev.disk.blockSize > 0 &&
            (ok <==> At(bm.layout, bm.dev.disk.blockSize, bm.dev.disk.data, cur) != NO_BLOCK)
    ensures !ok ==> buf[..] == old(buf[..])
    ensures var file := FileBytes(bm.layout, bm.dev.disk.blockSize, bs, bm.dev.disk.data, last + 1);
            ok ==> Offset(cur, bs) + start + length <= |file| &&
                   buf[..] == Splice(old(buf[..]), dst, Cut(file, Offset(cur, bs) + start, length))
  {
    hide Offset, Splice, Buffers.Cut, SlotsOk, At, FileBytes;
    assert bm.Reachable(cur);
    var b := bm.Next(cur);
    if b == NO_BLOCK { return false; }
    BlockInFile(bm.layout, bm.dev.disk.blockSize, bs, bm.dev.disk.data, last + 1, cur, start, length);
    ReadSegment(bm.dev, bs, buf, dst, b, start, length);
    return true;
  }

  /** fs_fread */
  method FsRead(bm: BlockMap, bs: nat, buf: array<Byte>, off: nat, n: nat, stream: Stream) returns (total: nat)
    requires bm.Valid() && bs > 0 && stream.pos + n < WORD && off + n <= buf.Length && buf !in bm.dev.Repr()
    requires Loaded(bm, bs, Quot(stream.pos, bs), Quot(stream.pos + n, bs)) && bm.NotPast(Quot(stream.pos, bs))
    modifies buf, stream`pos, bm.cursor, bm.dev.CacheWords()
    ensures bm.Valid() && bm.dev.disk.blockSize > 0
    ensures total == Transferable(bm.layout, bm.dev.disk.blockSize, bs, bm.dev.disk.data, old(stream.pos), n) <= n
    ensures stream.pos == old(stream.pos) + total
    ensures var file := FileBytes(bm.layout, bm.dev.disk.blockSize, bs, bm.dev.disk.data, Quot(old(stream.pos) + n, bs) + 1);
            stream.pos <= |file| && buf[..] == Splice(old(buf[..]), off, Cut(file, old(stream.pos), total))
  {
    hide Offset, Splice, Buffers.Cut, SlotsOk, At, FileBytes, Quot, Rem, Loaded, StartIn, StopIn, Progress,
         FirstMissing, Transferable, SoFar;
    ghost var was, ds, data := buf[..], bm.dev.disk.blockSize, bm.dev.disk.data;
    var pos := stream.pos;
    var first, lastPos := Quot(stream.pos, bs), stream.pos + n;
    var last := Quot(lastPos, bs);
    ghost var file := FileBytes(bm.layout, ds, bs, data, last + 1);
    ProgressStarts(pos, lastPos, bs);
    NothingSoFar(was, off, file, pos);
    BlockSizePositive(bm);
    var cur := first;
    total := 0;
    while cur <= last
      invariant bm.Valid() && bm.NotPast(cur) && Loaded(bm, bs, first, last) && first <= cur <= last + 1
      invariant Progress(pos, lastPos, bs, cur, total) && total <= n && stream.pos == pos + total
      invariant SoFar(buf[..], was, off, file, pos, total)
      invariant FirstMissing(bm.layout, ds, data, first, last) == FirstMissing(bm.layout, ds, data, cur, last)
      decreases last + 1 - cur
    {
      var start, stop := StartIn(pos, bs, cur), StopIn(lastPos, bs, cur);
      ProgressGoesOn(pos, lastPos, bs, cur, total);
      ProgressHere(pos, lastPos, bs, cur, total);
      ghost var now := buf[..];
      var ok := ReadPart(bm, bs, buf, off + total, cur, start, stop - start, first, last);
      MissingStep(bm.layout, ds, data, cur, last);
      if !ok {
        StoppedAt(bm.layout, ds, bs, data, pos, n, cur, total);
        SoFarMeans(buf[..], was, off, file, pos, total);
        return;
      }
      SoFarMore(now, buf[..], was, off, file, pos, total, stop - start);
      total := total + (stop - start);
      stream.pos := stream.pos + (stop - start);
      cur := cur + 1;
    }
    StoppedAt(bm.layout, ds, bs, data, pos, n, cur, total);
    SoFarMeans(buf[..], was, off, file, pos, total);
  }

  // ----- writing into the blocks of a file

  predicate PairApart(blocks: seq<nat>, ds: nat, bs: nat, i: nat, j: nat)
  {
    i < j < |blocks| ==>
      Offset(blocks[i], ds) + bs <= Offset(blocks[j], ds) || Offset(blocks[j], ds) + bs <= Offset(blocks[i], ds)
  }

  /** The blocks of the file are on a disk of numBlocks blocks, total bytes, and do not overlap. */
  ghost predicate BlocksOk(blocks: seq<nat>, ds: nat, numBlocks: nat, total: nat, bs: nat)
  {
    (forall i {:trigger blocks[i]} :: 0 <= i < |blocks| ==> blocks[i] < numBlocks && Offset(blocks[i], ds) + bs <= total) &&
    (forall i: nat, j: nat {:trigger PairApart(blocks, ds, bs, i, j)} :: PairApart(blocks, ds, bs, i, j))
  }

  /** q is in none of the blocks. */
  predicate OffBlocks(blocks: seq<nat>, ds: nat, bs: nat, q: nat)
  {
    forall i :: 0 <= i < |blocks| ==> !(Offset(blocks[i], ds) <= q < Offset(blocks[i], ds) + bs)
  }

  /** No byte of the disk outside the blocks has changed. */
  ghost predicate SameOutside(data: seq<Byte>, data': seq<Byte>, blocks: seq<nat>, ds: nat, bs: nat)
  {
    |data'| == |data| &&
    forall q {:trigger OffBlocks(blocks, ds, bs, q)} ::
      0 <= q < |data| && OffBlocks(blocks, ds, bs, q) ==> data'[q] == data[q]
  }

  lemma StillOutside(data: seq<Byte>, data1: seq<Byte>, blocks: seq<nat>, ds: nat, bs: nat, i: nat, r: nat,
                     x: seq<Byte>)
    requires SameOutside(data, data1, blocks, ds, bs) && i < |blocks| && r + |x| <= bs &&
             Offset(blocks[i], ds) + bs <= |data|
    ensures SameOutside(data, Splice(data1, Offset(blocks[i], ds) + r, x), blocks, ds, bs)
  {
    hide Offset;
  }

  /** Writing within block i of the file changes the file there and nowhere else. */
  lemma {:induction false} WriteInFile(blocks: seq<nat>, ds: nat, numBlocks: nat, bs: nat, data: seq<Byte>, n: nat,
                                       i: nat, r: nat, x: seq<Byte>)
    requires DiskOk(ds, numBlocks, data) && BlocksOk(blocks, ds, numBlocks, |data|, bs) && i < |blocks| && r + |x| <= bs
    ensures var layout := Listed(blocks);
            var data' := Splice(data, Offset(blocks[i], ds) + r, x);
            var file, file' := FileBytes(layout, ds, bs, data, n), FileBytes(layout, ds, bs, data', n);
            if i < n then Offset(i, bs) + r + |x| <= |file| && file' == Splice(file, Offset(i, bs) + r, x) else file' == file
  {
    hide Offset, Splice, Buffers.Cut, BlocksOk;
    if n > 0 {
      var layout := Listed(blocks);
      WriteInFile(blocks, ds, numBlocks, bs, data, n - 1, i, r, x);
      BlockAfterWrite(blocks, ds, numBlocks, bs, data, n - 1, i, r, x);
      var before := FileBytes(layout, ds, bs, data, n - 1);
      SpliceOfSum(before, BlockBytes(layout, ds, bs, data, n - 1), Offset(i, bs) + r, x);
      if i < n - 1 { OffsetOrder(i, n - 1, bs); }
      if i < n { OffsetOrder(i, n, bs); }
      hide BlockBytes;
    }
  }

  lemma BlockAfterWrite(blocks: seq<nat>, ds: nat, numBlocks: nat, bs: nat, data: seq<Byte>, k: nat, i: nat, r: nat,
                        x: seq<Byte>)
    requires DiskOk(ds, numBlocks, data) && BlocksOk(blocks, ds, numBlocks, |data|, bs) && i < |blocks| && r + |x| <= bs
    ensures var layout := Listed(blocks);
            var b := BlockBytes(layout, ds, bs, data, k);
            var b' := BlockBytes(layout, ds, bs, Splice(data, Offset(blocks[i], ds) + r, x), k);
            b' == if k == i then Splice(b, r, x) else b
  {
    hide Offset, Splice, Buffers.Cut;
    assert blocks[i] < numBlocks;
    if k == i {
      SpliceInBlock(data, Offset(blocks[i], ds), bs, r, x);
    } else if k < |blocks| {
      assert blocks[k] < numBlocks;
      assert PairApart(blocks, ds, bs, i, k) && PairApart(blocks, ds, bs, k, i);
      CutBesideSplice(data, Offset(blocks[i], ds) + r, x, Offset(blocks[k], ds), bs);
    } else {
      NoBlockOff(ds, numBlocks, data);
    }
  }

  /** Disk.Valid, of the contents of a disk */
  predicate DiskOk(ds: nat, numBlocks: nat, data: seq<Byte>)
  {
    ds > 0 && numBlocks <= NO_BLOCK && |data| == Offset(numBlocks, ds)
  }

  /** The mark for a missing block is no place on the disk. */
  lemma NoBlockOff(ds: nat, numBlocks: nat, data: seq<Byte>)
    requires DiskOk(ds, numBlocks, data)
    ensures Offset(NO_BLOCK, ds) >= |data|
  {
    OffsetMonotone(numBlocks, NO_BLOCK, ds);
  }

  /** Part of a block: written straight from the caller's buffer when it is all of it, else read, edited and written back. */
  method WriteSegment(dev: Device, bs: nat, buf: array<Byte>, src: nat, b: nat, start: nat, length: nat)
    requires dev.Valid() && bs > 0 && Whole(bs, dev.disk.blockSize) && dev.disk.Holds(b, bs)
    requires start + length <= bs && src + length <= buf.Length && buf !in dev.Repr()
    modifies dev.disk`data, dev.CacheWords()
    ensures dev.Valid() && buf[..] == old(buf[..]) && |dev.disk.data| == |old(dev.disk.data)|
    ensures dev.disk.data == Splice(old(dev.disk.data), Offset(b, dev.disk.blockSize) + start, Cut(buf[..], src, length))
  {
    hide Offset, Splice, Buffers.Cut, SlotsOk, Whole;
    ghost var at, data := Offset(b, dev.disk.blockSize), dev.disk.data;
    if start == 0 && length == bs {
      var n := dev.BlockWrite(buf, src, bs, b);
    } else {
      var temp := new Byte[bs](_ => 0);
      SpliceAll(temp[..], Cut(data, at, bs));
      var n := dev.BlockRead(temp, 0, bs, b);
      CopyInto(temp, start, Cut(buf[..], src, length));
      CutAll(temp[..]);
      SpliceInBlock(data, at, bs, start, Cut(buf[..], src, length));
      n := dev.BlockWrite(temp, 0, bs, b);
    }
  }

  /** One block of fs_fwrite, unless the block is missing. */
  method WritePart(bm: BlockMap, bs: nat, buf: array<Byte>, src: nat, cur: nat, start: nat, length: nat, ghost k: nat)
    returns (ok: bool)
    requires bm.Valid() && bm.layout.Listed? &&
             BlocksOk(bm.layout.blocks, bm.dev.disk.blockSize, bm.dev.disk.numBlocks, |bm.dev.disk.data|, bs) &&
             cur < k && bs > 0 && Whole(bs, bm.dev.disk.blockSize)
    requires start + length <= bs && src + length <= buf.Length && buf !in bm.dev.Repr()
    modifies bm.dev.disk`data, bm.cursor, bm.dev.CacheWords()
    ensures bm.Valid() && buf[..] == old(buf[..]) &&
            BlocksOk(bm.layout.blocks, bm.dev.disk.blockSize, bm.dev.disk.numBlocks, |bm.dev.disk.data|, bs) &&
            bm.dev.disk.blockSize > 0
    ensures ok <==> At(bm.layout, bm.dev.disk.blockSize, old(bm.dev.disk.data), cur) != NO_BLOCK
    ensures !ok ==> bm.dev.disk.data == old(bm.dev.disk.data)
    ensures ok ==> cur < |bm.layout.blocks| &&
                   var at := Offset(bm.layout.blocks[cur], bm.dev.disk.blockSize) + start;
                   at + length <= |old(bm.dev.disk.data)| &&
                   bm.dev.disk.data == Splice(old(bm.dev.disk.data), at, Cut(buf[..], src, length))
  {
    hide Offset, Splice, Buffers.Cut, SlotsOk, Whole, FileBytes;
    var b := bm.Next(cur);
    if b == NO_BLOCK { return false; }
    assert bm.layout.blocks[cur] < bm.dev.disk.numBlocks;
    WriteSegment(bm.dev, bs, buf, src, b, start, length);
    return true;
  }

  // ----- the callback of nofs.c, the one file system that writes

  /** nofs_get_next_bdev_block_num with add_blocks: every block number below the block size of the device. */
  function NofsBlock(parentSize: nat, i: nat): nat
  {
    if parentSize != 0 && i >= parentSize then NO_BLOCK else i
  }

  /** Those of them that are on the disk. */
  function NofsBlocks(ds: nat, numBlocks: nat): (blocks: seq<nat>)
    ensures |blocks| == if ds < numBlocks then ds else numBlocks
    ensures forall i :: 0 <= i < |blocks| ==> blocks[i] == i
  {
    seq(if ds < numBlocks then ds else numBlocks, i => i)
  }

  /** That is a fixed list of blocks of which no two overlap, but for blocks that the disk does not have. */
  lemma NofsIsListed(ds: nat, numBlocks: nat, data: seq<Byte>, i: nat)
    requires DiskOk(ds, numBlocks, data)
    ensures BlocksOk(NofsBlocks(ds, numBlocks), ds, numBlocks, |data|, ds)
    ensures i < numBlocks || i >= ds ==> NofsBlock(ds, i) == At(Listed(NofsBlocks(ds, numBlocks)), ds, data, i)
    ensures NofsBlock(ds, i) != NO_BLOCK && i >= numBlocks ==> Offset(NofsBlock(ds, i), ds) >= |data|
  {
    var blocks := NofsBlocks(ds, numBlocks);
    if i >= numBlocks { OffsetMonotone(numBlocks, i, ds); }
    forall j | 0 <= j < |blocks| ensures Offset(blocks[j], ds) + ds <= |data| { OffsetOrder(blocks[j], numBlocks, ds); }
    forall j: nat, k: nat ensures PairApart(blocks, ds, ds, j, k) {
      if j < k < |blocks| { OffsetOrder(blocks[j], blocks[k], ds); }
    }
    hide Offset;
  }

  // ----- fs_fwrite

  /** The state of a write: done bytes of the buffer are in the file, and nothing else on the disk has changed. */
  ghost predicate Written(blocks: seq<nat>, ds: nat, bs: nat, k: nat, data: seq<Byte>, data': seq<Byte>, pos: nat,
                          buf: seq<Byte>, off: nat, done: nat)
  {
    ds > 0 && SameOutside(data, data', blocks, ds, bs) &&
    SoFar(FileBytes(Listed(blocks), ds, bs, data', k), FileBytes(Listed(blocks), ds, bs, data, k), pos, buf, off, done)
  }

  lemma NothingWritten(blocks: seq<nat>, ds: nat, bs: nat, k: nat, data: seq<Byte>, pos: nat, buf: seq<Byte>, off: nat)
    requires ds > 0 && off <= |buf| && pos <= Offset(k, bs)
    ensures Written(blocks, ds, bs, k, data, data, pos, buf, off, 0)
  {
    NothingSoFar(FileBytes(Listed(blocks), ds, bs, data, k), pos, buf, off);
    hide SoFar, FileBytes;
  }

  lemma WrittenMeans(blocks: seq<nat>, ds: nat, bs: nat, k: nat, data: seq<Byte>, data': seq<Byte>, pos: nat,
                     buf: seq<Byte>, off: nat, done: nat)
    requires Written(blocks, ds, bs, k, data, data', pos, buf, off, done)
    ensures ds > 0 && SameOutside(data, data', blocks, ds, bs)
    ensures var file := FileBytes(Listed(blocks), ds, bs, data, k);
            pos + done <= |file| && off + done <= |buf| &&
            FileBytes(Listed(blocks), ds, bs, data', k) == Splice(file, pos, Cut(buf, off, done))
  {}

  /** One segment more is written. */
  lemma MoreWritten(blocks: seq<nat>, ds: nat, numBlocks: nat, bs: nat, k: nat, data0: seq<Byte>, data: seq<Byte>,
                    data': seq<Byte>,
                    pos: nat, buf: seq<Byte>, off: nat, done: nat, i: nat, r: nat, m: nat)
    requires DiskOk(ds, numBlocks, data) && BlocksOk(blocks, ds, numBlocks, |data|, bs) && i < |blocks| && i < k &&
             r + m <= bs && off + done + m <= |buf|
    requires Written(blocks, ds, bs, k, data0, data, pos, buf, off, done) && pos + done == Offset(i, bs) + r
    requires Offset(blocks[i], ds) + r + m <= |data| &&
             data' == Splice(data, Offset(blocks[i], ds) + r, Cut(buf, off + done, m))
    ensures Written(blocks, ds, bs, k, data0, data', pos, buf, off, done + m)
  {
    hide Offset, Splice, Buffers.Cut, SoFar, FileBytes, SameOutside, DiskOk;
    var x := Cut(buf, off + done, m);
    assert blocks[i] < numBlocks;
    SizeKept(data0, data, blocks, ds, bs);
    StillOutside(data0, data, blocks, ds, bs, i, r, x);
    WriteInFile(blocks, ds, numBlocks, bs, data, k, i, r, x);
    var file0 := FileBytes(Listed(blocks), ds, bs, data0, k);
    var file := FileBytes(Listed(blocks), ds, bs, data, k);
    var file' := FileBytes(Listed(blocks), ds, bs, data', k);
    OffsetOrder(i, k, bs);
    SoFarMore(file, file', file0, pos, buf, off, done, m);
  }

  lemma SizeKept(data: seq<Byte>, data': seq<Byte>, blocks: seq<nat>, ds: nat, bs: nat)
    requires SameOutside(data, data', blocks, ds, bs)
    ensures |data'| == |data|
  {}

  /** Which blocks a list has does not depend on the contents of the disk. */
  lemma ListedAt(blocks: seq<nat>, ds: nat, data: seq<Byte>, data': seq<Byte>, i: nat)
    requires ds > 0
    ensures At(Listed(blocks), ds, data, i) == At(Listed(blocks), ds, data', i)
  {}

  lemma DeviceOk(bm: BlockMap)
    requires bm.Valid()
    ensures DiskOk(bm.dev.disk.blockSize, bm.dev.disk.numBlocks, bm.dev.disk.data)
  {}

  /** The bytes x, all of the n asked for that the blocks have room for, are in the file at pos, and nothing else changed. */
  ghost predicate FileWritten(blocks: seq<nat>, ds: nat, bs: nat, data: seq<Byte>, data': seq<Byte>, pos: nat, n: nat,
                              x: seq<Byte>)
  {
    ds > 0 && bs > 0 && |x| == Transferable(Listed(blocks), ds, bs, data, pos, n) &&
    var k := Quot(pos + n, bs) + 1 + |blocks|;
    pos + |x| <= |FileBytes(Listed(blocks), ds, bs, data, k)| &&
    FileBytes(Listed(blocks), ds, bs, data', k) == Splice(FileBytes(Listed(blocks), ds, bs, data, k), pos, x) &&
    SameOutside(data, data', blocks, ds, bs)
  }

  /** fs_fwrite, over a list of blocks */
  method FsWrite(bm: BlockMap, bs: nat, buf: array<Byte>, off: nat, n: nat, stream: Stream) returns (total: nat)
    requires bm.Valid() && bm.layout.Listed? && bs > 0 && bm.dev.disk.blockSize > 0 && Whole(bs, bm.dev.disk.blockSize)
    requires BlocksOk(bm.layout.blocks, bm.dev.disk.blockSize, bm.dev.disk.numBlocks, |bm.dev.disk.data|, bs)
    requires (if stream.appendAndRead then stream.len else stream.pos) + n < WORD && off + n <= buf.Length &&
             buf !in bm.dev.Repr()
    modifies stream, bm.dev.disk`data, bm.cursor, bm.dev.CacheWords()
    ensures bm.Valid() && buf[..] == old(buf[..])
    ensures var pos := if stream.appendAndRead then old(stream.len) else old(stream.pos);
            var ds, data, data' := bm.dev.disk.blockSize, old(bm.dev.disk.data), bm.dev.disk.data;
            total <= n && FileWritten(bm.layout.blocks, ds, bs, data, data', pos, n, Cut(buf[..], off, total)) &&
            stream.pos == pos + total &&
            stream.len == if At(bm.layout, ds, data, Quot(pos, bs)) != NO_BLOCK && pos + total > old(stream.len)
                          then pos + total else old(stream.len)
  {
    hide Offset, Splice, Buffers.Cut, SlotsOk, At, FileBytes, Quot, Rem, Whole, StartIn, StopIn, Progress,
         FirstMissing, Transferable, SoFar, Written, SameOutside, BlocksOk;
    if stream.appendAndRead { stream.pos := stream.len; }
    ghost var blocks, ds, data0 := bm.layout.blocks, bm.dev.disk.blockSize, bm.dev.disk.data;
    var pos := stream.pos;
    var first, lastPos := Quot(stream.pos, bs), stream.pos + n;
    var last := Quot(lastPos, bs);
    ghost var k := last + 1 + |blocks|;
    ProgressStarts(pos, lastPos, bs);
    OffsetMonotone(last + 1, k, bs);
    NothingWritten(blocks, ds, bs, k, data0, pos, buf[..], off);
    var cur := first;
    total := 0;
    while cur <= last
      invariant bm.Valid() && first <= cur <= last + 1 && buf[..] == old(buf[..])
      invariant BlocksOk(blocks, ds, bm.dev.disk.numBlocks, |bm.dev.disk.data|, bs)
      invariant Progress(pos, lastPos, bs, cur, total) && total <= n && stream.pos == pos + total
      invariant stream.len == if cur > first && pos + total > old(stream.len) then pos + total else old(stream.len)
      invariant cur > first ==> At(bm.layout, ds, data0, first) != NO_BLOCK
      invariant Written(blocks, ds, bs, k, data0, bm.dev.disk.data, pos, buf[..], off, total)
      invariant FirstMissing(bm.layout, ds, data0, first, last) == FirstMissing(bm.layout, ds, data0, cur, last)
      decreases last + 1 - cur
    {
      var start, stop := StartIn(pos, bs, cur), StopIn(lastPos, bs, cur);
      ProgressGoesOn(pos, lastPos, bs, cur, total);
      ProgressHere(pos, lastPos, bs, cur, total);
      ghost var data := bm.dev.disk.data;
      DeviceOk(bm);
      var ok := WritePart(bm, bs, buf, off + total, cur, start, stop - start, k);
      ListedAt(blocks, ds, data0, data, cur);
      MissingStep(bm.layout, ds, data0, cur, last);
      if !ok {
        StoppedAt(bm.layout, ds, bs, data0, pos, n, cur, total);
        WrittenMeans(blocks, ds, bs, k, data0, bm.dev.disk.data, pos, buf[..], off, total);
        return;
      }
      MoreWritten(blocks, ds, bm.dev.disk.numBlocks, bs, k, data0, data, bm.dev.disk.data, pos, buf[..], off, total,
                  cur, start, stop - start);
      total := total + (stop - start);
      stream.pos := stream.pos + (stop - start);
      if stream.pos > stream.len { stream.len := stream.pos; }
      cur := cur + 1;
    }
    StoppedAt(bm.layout, ds, bs, data0, pos, n, cur, total);
    WrittenMeans(blocks, ds, bs, k, data0, bm.dev.disk.data, pos, buf[..], off, total);
  }
}
