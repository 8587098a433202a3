/** The storage layers together: runs of requests through the cache, and reading back what was written. */
module StorageRuns {
  import opened Bytes
  import opened Buffers
  import opened TreeIndex
  import opened Offsets
  import opened Disks
  import opened BlockCaches
  import opened BlockDevices
  import opened Ext2
  import opened Fat
  import opened BlockMaps
  import opened LibFs

  // ----- runs of block requests

  /** A request to block_read or block_write. */
  datatype Request = ReadReq(block: nat, size: nat) | WriteReq(block: nat, bytes: seq<Byte>)

  predicate InRange(r: Request, bs: nat, numBlocks: nat, total: nat)
    requires bs > 0
  {
    r.block < numBlocks &&
    match r
    case ReadReq(block, size) => Offset(block, bs) + size <= total
    case WriteReq(block, bytes) => Offset(block, bs) + |bytes| <= total && Whole(|bytes|, bs)
  }

  /** What a disk without a cache answers to a request, and its contents afterwards. */
  function Answer(data: seq<Byte>, bs: nat, r: Request): (seq<Byte>, seq<Byte>)
  {
    match r
    case ReadReq(block, size) => (if Offset(block, bs) + size <= |data| then Cut(data, Offset(block, bs), size) else [], data)
    case WriteReq(block, bytes) =>
      ([], if Offset(block, bs) + |bytes| <= |data| then Splice(data, Offset(block, bs), bytes) else data)
  }

  /** The answers to a run of requests, and the contents after it. */
  function Answers(data: seq<Byte>, bs: nat, rs: seq<Request>): (seq<seq<Byte>>, seq<Byte>)
    decreases |rs|
  {
    if rs == [] then ([], data)
    else
      var (answers, after) := Answers(data, bs, rs[..|rs| - 1]);
      var (answer, after') := Answer(after, bs, rs[|rs| - 1]);
      (answers + [answer], after')
  }

  lemma AnswersStep(data: seq<Byte>, bs: nat, rs: seq<Request>, i: nat)
    requires i < |rs|
    ensures var (answers, after) := Answers(data, bs, rs[..i]);
            var (answer, after') := Answer(after, bs, rs[i]);
            Answers(data, bs, rs[..i + 1]) == (answers + [answer], after')
  {
    assert rs[..i + 1][..i] == rs[..i];
  }

  /** One request through the device. */
  method Serve(dev: Device, r: Request) returns (answer: seq<Byte>)
    requires dev.Valid() && dev.disk.blockSize > 0 &&
             InRange(r, dev.disk.blockSize, dev.disk.numBlocks, |dev.disk.data|)
    modifies dev.disk`data, dev.CacheWords()
    ensures dev.Valid() && |dev.disk.data| == |old(dev.disk.data)|
    ensures (answer, dev.disk.data) == Answer(old(dev.disk.data), dev.disk.blockSize, r)
  {
    hide Offset, Splice, Buffers.Cut, SlotsOk, Whole;
    match r
    case ReadReq(block, size) =>
      var buf := new Byte[size](_ => 0);
      SpliceAll(buf[..], Cut(dev.disk.data, Offset(block, dev.disk.blockSize), size));
      var n := dev.BlockRead(buf, 0, size, block);
      answer := buf[..];
    case WriteReq(block, bytes) =>
      var buf := new Byte[|bytes|](_ => 0);
      SpliceAll(buf[..], bytes);
      CopyInto(buf, 0, bytes);
      CutAll(bytes);
      var n := dev.BlockWrite(buf, 0, |bytes|, block);
      answer := [];
  }

  /** Over every run the device, with or without a cache, answers as the bare disk would. */
  method RunRequests(dev: Device, rs: seq<Request>) returns (answers: seq<seq<Byte>>)
    requires dev.Valid() && dev.disk.blockSize > 0
    requires forall i :: 0 <= i < |rs| ==> InRange(rs[i], dev.disk.blockSize, dev.disk.numBlocks, |dev.disk.data|)
    modifies dev.disk`data, dev.CacheWords()
    ensures dev.Valid() && (answers, dev.disk.data) == Answers(old(dev.disk.data), dev.disk.blockSize, rs)
  {
    hide Offset, SlotsOk, Answer, Answers, InRange;
    ghost var data := dev.disk.data;
    EmptyRun(data, dev.disk.blockSize, rs);
    answers := [];
    var i := 0;
    while i < |rs|
      invariant 0 <= i <= |rs| && dev.Valid() && |dev.disk.data| == |data|
      invariant (answers, dev.disk.data) == Answers(data, dev.disk.blockSize, rs[..i])
    {
      AnswersStep(data, dev.disk.blockSize, rs, i);
      var answer := Serve(dev, rs[i]);
      answers := answers + [answer];
      i := i + 1;
    }
    assert rs[..|rs|] == rs;
  }

  lemma EmptyRun(data: seq<Byte>, bs: nat, rs: seq<Request>)
    ensures Answers(data, bs, rs[..0]) == ([], data)
  {}

  // ----- reading back

  /** A longer view of a file starts with the shorter one. */
  lemma {:induction false} FilePrefix(layout: Layout, ds: nat, bs: nat, data: seq<Byte>, m: nat, n: nat, p: nat, l: nat)
    requires ds > 0 && m <= n && p + l <= Offset(m, bs)
    ensures p + l <= Offset(n, bs) &&
            Cut(FileBytes(layout, ds, bs, data, n), p, l) == Cut(FileBytes(layout, ds, bs, data, m), p, l)
    decreases n
  {
    hide Offset, Buffers.Cut, BlockBytes;
    OffsetMonotone(m, n, bs);
    if m < n {
      OffsetMonotone(m, n - 1, bs);
      FilePrefix(layout, ds, bs, data, m, n - 1, p, l);
      CutOfSum(FileBytes(layout, ds, bs, data, n - 1), BlockBytes(layout, ds, bs, data, n - 1), p, l);
    }
  }

  lemma {:induction false} SameMissing(blocks: seq<nat>, ds: nat, data: seq<Byte>, data': seq<Byte>, i: nat, last: nat)
    requires ds > 0
    ensures FirstMissing(Listed(blocks), ds, data, i, last) == FirstMissing(Listed(blocks), ds, data', i, last)
    decreases last + 1 - i
  {
    if i <= last && At(Listed(blocks), ds, data, i) != NO_BLOCK { SameMissing(blocks, ds, data, data', i + 1, last); }
  }

  /** After a write at pos a read at pos returns the bytes that were written. */
  method WriteThenRead(bm: BlockMap, bs: nat, buf: array<Byte>, back: array<Byte>, pos: nat) returns (total: nat)
    requires bm.Valid() && bm.layout.Listed? && bs > 0 && bm.dev.disk.blockSize > 0 && Whole(bs, bm.dev.disk.blockSize)
    requires BlocksOk(bm.layout.blocks, bm.dev.disk.blockSize, bm.dev.disk.numBlocks, |bm.dev.disk.data|, bs)
    requires pos + buf.Length < WORD && back.Length == buf.Length && buf != back && buf !in bm.dev.Repr() &&
             back !in bm.dev.Repr()
    modifies back, bm.dev.disk`data, bm.cursor, bm.dev.CacheWords()
    ensures bm.Valid() &&
            total == Transferable(bm.layout, bm.dev.disk.blockSize, bs, old(bm.dev.disk.data), pos, buf.Length) <= buf.Length
    ensures back[..total] == buf[..total]
  {
    hide Offset, Splice, Buffers.Cut, SlotsOk, At, FileBytes, Quot, Rem, Whole, FirstMissing;
    ghost var layout, ds, data, n := bm.layout, bm.dev.disk.blockSize, bm.dev.disk.data, buf.Length;
    var out := new Stream(pos, 0, false);
    total := FsWrite(bm, bs, buf, 0, buf.Length, out);
    ghost var data', last := bm.dev.disk.data, Quot(pos + n, bs);
    SizeKept(data, data', layout.blocks, ds, bs);
    ListedLoaded(bm, bs, Quot(pos, bs), last);
    SameMissing(layout.blocks, ds, data, data', Quot(pos, bs), last);
    var input := new Stream(pos, 0, false);
    ghost var empty := back[..];
    var read := FsRead(bm, bs, back, 0, buf.Length, input);
    FilePrefix(layout, ds, bs, data', last + 1, last + 1 + |layout.blocks|, pos, total);
    CutOfSplice(FileBytes(layout, ds, bs, data, last + 1 + |layout.blocks|), pos, Cut(buf[..], 0, total));
    ReadBack(empty, back[..], buf[..], total);
  }

  lemma ReadBack(empty: seq<Byte>, back: seq<Byte>, buf: seq<Byte>, total: nat)
    requires total <= |buf| == |empty| && back == Splice(empty, 0, Cut(buf, 0, total))
    ensures back[..total] == buf[..total]
  {}

  lemma ListedLoaded(bm: BlockMap, bs: nat, first: nat, last: nat)
    requires bm.Valid() && bm.layout.Listed? && bm.dev.disk.blockSize > 0
    requires BlocksOk(bm.layout.blocks, bm.dev.disk.blockSize, bm.dev.disk.numBlocks, |bm.dev.disk.data|, bs)
    ensures Loaded(bm, bs, first, last)
  {
    hide Offset;
    forall i: nat | i < |bm.layout.blocks| ensures bm.dev.disk.Holds(bm.layout.blocks[i], bs) {
      assert bm.layout.blocks[i] < bm.dev.disk.numBlocks;
    }
    hide BlocksOk;
    forall i | first <= i <= last
      ensures bm.Reachable(i)
      ensures At(bm.layout, bm.dev.disk.blockSize, bm.dev.disk.data, i) == NO_BLOCK ||
              bm.dev.disk.Holds(At(bm.layout, bm.dev.disk.blockSize, bm.dev.disk.data, i), bs)
    {
    }
  }

  // ----- files of the two file systems

  /** Block i of an ext2 file is the i-th block of the flattened tree of its inode, as it lies on the disk. */
  lemma Ext2FileBlock(disk: Disk, fs: Ext2.Fs, inode: Inode, i: nat)
    requires disk.Valid() && FsOk(fs, disk.blockSize) && i < |FileBlocks(disk.data, fs, inode)| &&
             BlockHeld(disk, fs, FileBlocks(disk.data, fs, inode)[i])
    ensures var p := fs.blockSize * FileBlocks(disk.data, fs, inode)[i];
            p + fs.blockSize <= |disk.data| &&
            BlockBytes(OnExt2(fs, inode), disk.blockSize, fs.blockSize, disk.data, i) == disk.data[p..p + fs.blockSize]
  {
    SectorPlace(disk, fs, FileBlocks(disk.data, fs, inode)[i]);
    OffsetIsProduct(FileBlocks(disk.data, fs, inode)[i], fs.blockSize);
    hide Offset, FileBlocks, SectorNum;
  }

  /** Block i of a FAT file is the i-th cluster of its chain, counted from cluster 2 behind the root directory. */
  lemma FatFileBlock(disk: Disk, fat: FatFs, first: nat, i: nat, s: nat, n: nat)
    requires disk.Valid() && disk.blockSize == SECTOR && 2 <= Nth(disk.data, fat, first, i) < END_OF_CHAIN
    requires s == fat.firstNonRootSector + (Nth(disk.data, fat, first, i) - 2) * fat.sectorsPerCluster < 0x1_0000_0000
    requires n == 512 * fat.sectorsPerCluster && 512 * s + n <= |disk.data|
    ensures ClusterBytes(fat) == n
    ensures BlockBytes(OnFat(fat, first), SECTOR, n, disk.data, i) == disk.data[512 * s..512 * s + n]
  {
    OffsetIsProduct(fat.sectorsPerCluster, SECTOR);
    OffsetIsProduct(s, SECTOR);
    hide Offset, Nth, SectorOf;
    SectorIsExact(fat, Nth(disk.data, fat, first, i));
  }
}
