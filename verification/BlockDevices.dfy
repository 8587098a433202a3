/** Block devices: a disk that transfers what it is asked to, and the loops of block.c over it. */
module Disks {
  import opened Bytes
  import opened Buffers
  import opened Offsets

  /** The block number that marks an empty slot of the cache; no disk is that large. */
  const NO_BLOCK: nat := 0xffff_ffff

  /** A disk: its contents, and requests that never fail. */
  class Disk {
    const blockSize: nat
    const numBlocks: nat
    var data: seq<Byte>

    predicate Valid()
      reads this
    {
      blockSize > 0 && numBlocks <= NO_BLOCK && |data| == Offset(numBlocks, blockSize)
    }

    /** A stretch of size bytes from the start of a block lies on the disk. */
    predicate Holds(block: nat, size: nat)
      reads this
    {
      block < numBlocks && Offset(block, blockSize) + size <= |data|
    }

    constructor (blockSize: nat, numBlocks: nat, data: seq<Byte>)
      requires blockSize > 0 && numBlocks <= NO_BLOCK && |data| == Offset(numBlocks, blockSize)
      ensures Valid() && this.data == data && this.blockSize == blockSize && this.numBlocks == numBlocks
    {
      this.blockSize, this.numBlocks, this.data := blockSize, numBlocks, data;
    }

    method Read(buf: array<Byte>, off: nat, size: nat, block: nat) returns (n: nat)
      requires Valid() && Holds(block, size) && off + size <= buf.Length
      modifies buf
      ensures n == size && buf[..] == Splice(old(buf[..]), off, Cut(data, Offset(block, blockSize), size))
    {
      CopyInto(buf, off, Cut(data, Offset(block, blockSize), size));
      return size;
    }

    method Write(buf: array<Byte>, off: nat, size: nat, block: nat) returns (n: nat)
      requires Valid() && Holds(block, size) && off + size <= buf.Length
      modifies this`data
      ensures Valid() && n == size && data == Splice(old(data), Offset(block, blockSize), Cut(buf[..], off, size))
    {
      data := Splice(data, Offset(block, blockSize), Cut(buf[..], off, size));
      return size;
    }
  }
}

/** block_cache.c: a direct-mapped write-through cache in front of a disk. */
module BlockCaches {
  import opened Bytes
  import opened Buffers
  import opened Offsets
  import opened Disks
  import opened Alignment

  /** Slot i is empty, or holds the disk's bytes of a block that is i modulo the number of slots. */
  predicate SlotOk(tags: seq<nat>, area: seq<Byte>, data: seq<Byte>, size: nat, i: nat)
    requires PowerOfTwo(|tags|)
  {
    i < |tags| &&
    (tags[i] == NO_BLOCK ||
     (LowPart(tags[i], |tags|) == i && Offset(tags[i], size) + size <= |data| && Offset(i, size) + size <= |area| &&
      Cut(area, Offset(i, size), size) == Cut(data, Offset(tags[i], size), size)))
  }

  ghost predicate SlotsOk(tags: seq<nat>, area: seq<Byte>, data: seq<Byte>, size: nat)
  {
    PowerOfTwo(|tags|) && |area| == Offset(|tags|, size) &&
    forall i: nat {:trigger SlotOk(tags, area, data, size, i)} :: i < |tags| ==> SlotOk(tags, area, data, size, i)
  }

  /** Writing over one slot and setting its tag leaves the others as they were. */
  lemma OtherSlots(tags: seq<nat>, area: seq<Byte>, data: seq<Byte>, size: nat, k: nat, x: seq<Byte>, tag: nat, i: nat)
    requires PowerOfTwo(|tags|) && |area| == Offset(|tags|, size) && k < |tags| && i < |tags| && i != k && |x| <= size
    requires SlotOk(tags, area, data, size, i)
    ensures Offset(k, size) + |x| <= |area| && SlotOk(tags[k := tag], Splice(area, Offset(k, size), x), data, size, i)
  {
    OffsetOrder(k, |tags|, size);
    OffsetOrder(i, |tags|, size);
    if i < k { OffsetOrder(i, k, size); } else { OffsetOrder(k, i, size); }
    CutBesideSplice(area, Offset(k, size), x, Offset(i, size), size);
    hide Offset, LowPart, PowerOfTwo;
  }

  /** Filling slot k with a whole block, or emptying it. */
  lemma FillSlot(tags: seq<nat>, area: seq<Byte>, data: seq<Byte>, size: nat, k: nat, x: seq<Byte>, tag: nat)
    requires SlotsOk(tags, area, data, size) && k < |tags| && |x| <= size
    requires tag != NO_BLOCK ==>
               |x| == size && LowPart(tag, |tags|) == k && Offset(tag, size) + size <= |data| &&
               x == Cut(data, Offset(tag, size), size)
    ensures Offset(k, size) + size <= |area| && SlotsOk(tags[k := tag], Splice(area, Offset(k, size), x), data, size)
  {
    OffsetOrder(k, |tags|, size);
    hide Offset, LowPart, PowerOfTwo;
    var tags', area' := tags[k := tag], Splice(area, Offset(k, size), x);
    forall i: nat | i < |tags| ensures SlotOk(tags', area', data, size, i) {
      if i != k {
        OtherSlots(tags, area, data, size, k, x, tag, i);
      } else if tag != NO_BLOCK {
        CutOfSplice(area, Offset(k, size), x);
      }
    }
  }

  /** Slot i is in order, or holds the old bytes of a block that is still to be updated. */
  predicate SlotDue(tags: seq<nat>, area: seq<Byte>, data: seq<Byte>, size: nat, from: nat, to: nat, i: nat)
    requires PowerOfTwo(|tags|)
  {
    i < |tags| &&
    (SlotOk(tags, area, data, size, i) || (from <= tags[i] < to && LowPart(tags[i], |tags|) == i))
  }

  ghost predicate SlotsDue(tags: seq<nat>, area: seq<Byte>, data: seq<Byte>, size: nat, from: nat, to: nat)
  {
    PowerOfTwo(|tags|) && |area| == Offset(|tags|, size) &&
    forall j: nat {:trigger SlotDue(tags, area, data, size, from, to, j)} ::
      j < |tags| ==> SlotDue(tags, area, data, size, from, to, j)
  }

  /** After a write of whole blocks to the disk only the slots of those blocks are out of date. */
  lemma DueAfterWrite(tags: seq<nat>, area: seq<Byte>, data: seq<Byte>, size: nat, from: nat, count: nat, x: seq<Byte>,
                      i: nat)
    requires PowerOfTwo(|tags|) && |area| == Offset(|tags|, size) && SlotOk(tags, area, data, size, i)
    requires |x| == Offset(count, size) && Offset(from, size) + |x| <= |data|
    ensures SlotDue(tags, area, Splice(data, Offset(from, size), x), size, from, from + count, i)
  {
    hide Offset, LowPart, PowerOfTwo, Splice, Buffers.Cut;
    var t := tags[i];
    OffsetSum(from, count, size);
    if t != NO_BLOCK {
      if t < from { OffsetOrder(t, from, size); CutBesideSplice(data, Offset(from, size), x, Offset(t, size), size); }
      if t >= from + count {
        OffsetMonotone(from + count, t, size);
        CutBesideSplice(data, Offset(from, size), x, Offset(t, size), size);
      }
    }
  }

  lemma AllDueAfterWrite(tags: seq<nat>, area: seq<Byte>, data: seq<Byte>, size: nat, from: nat, count: nat,
                         x: seq<Byte>)
    requires SlotsOk(tags, area, data, size) && |x| == Offset(count, size) && Offset(from, size) + |x| <= |data|
    ensures SlotsDue(tags, area, Splice(data, Offset(from, size), x), size, from, from + count)
  {
    hide Offset, LowPart, PowerOfTwo, SlotOk, SlotDue, Splice;
    var data', to := Splice(data, Offset(from, size), x), from + count;
    forall i: nat | i < |tags| ensures SlotDue(tags, area, data', size, from, to, i) {
      assert SlotOk(tags, area, data, size, i);
      DueAfterWrite(tags, area, data, size, from, count, x, i);
    }
  }

  /** Block n of the bytes that were written at block `from` is on the disk now. */
  lemma WrittenBlock(data: seq<Byte>, size: nat, from: nat, count: nat, x: seq<Byte>, n: nat)
    requires |x| == Offset(count, size) && Offset(from, size) + |x| <= |data| && n < count
    ensures Offset(n, size) + size <= |x| && Offset(from + n, size) + size <= |data|
    ensures Cut(Splice(data, Offset(from, size), x), Offset(from + n, size), size) == Cut(x, Offset(n, size), size)
  {
    OffsetOrder(n, count, size);
    OffsetSum(from, n, size);
    hide Offset, Splice, Buffers.Cut;
    var o := Offset(from, size);
    CutOfSplice(data, o, x);
    CutOfCut(Splice(data, o, x), o, |x|, Offset(n, size), size);
  }

  /** What a hit finds in its slot. */
  lemma HitHolds(tags: seq<nat>, area: seq<Byte>, data: seq<Byte>, size: nat, i: nat, n: nat)
    requires SlotsOk(tags, area, data, size) && i < |tags| && tags[i] != NO_BLOCK && n <= size
    ensures Offset(i, size) + n <= |area| && Offset(tags[i], size) + n <= |data|
    ensures Cut(area, Offset(i, size), n) == Cut(data, Offset(tags[i], size), n)
  {
    assert SlotOk(tags, area, data, size, i);
    hide Offset, LowPart, PowerOfTwo;
    CutOfCut(area, Offset(i, size), size, 0, n);
    CutOfCut(data, Offset(tags[i], size), size, 0, n);
  }

  lemma Halved(e: nat, m: nat, n: nat)
    requires m > 0 && e * m <= n < e * (m + 1)
    ensures 2 * e * (m / 2) <= n < 2 * e * (m / 2 + 1)
  {
    var k, r := m / 2, m % 2;
    assert m == 2 * k + r;
    assert e * m == 2 * e * k + e * r && e * (m + 1) == 2 * e * k + e * r + e;
    assert r == 0 || r == 1;
  }

  /** cache_init's number of slots: the logarithm counted by one loop and raised again. */
  method RoundDown(n: nat) returns (entries: nat)
    requires n > 0
    ensures PowerOfTwo(entries) && entries <= n < 2 * entries
  {
    var m := n;
    entries := 1;
    while m / 2 > 0
      invariant m > 0 && entries > 0 && PowerOfTwo(entries) && entries * m <= n < entries * (m + 1)
      decreases m
    {
      DoublePower(entries);
      Halved(entries, m, n);
      m := m / 2;
      entries := 2 * entries;
    }
    assert m == 1;
  }

  /** Bringing the slot of block `from` up to date leaves one block fewer to do. */
  lemma SlotsAfterUpdate(tags: seq<nat>, area: seq<Byte>, data: seq<Byte>, size: nat, from: nat, to: nat, k: nat,
                         x: seq<Byte>)
    requires PowerOfTwo(|tags|) && |area| == Offset(|tags|, size) && k == LowPart(from, |tags|) && tags[k] == from &&
             from < to
    requires SlotsDue(tags, area, data, size, from, to)
    requires |x| == size && Offset(from, size) + size <= |data| && x == Cut(data, Offset(from, size), size)
    ensures Offset(k, size) + size <= |area|
    ensures SlotsDue(tags, Splice(area, Offset(k, size), x), data, size, from + 1, to)
  {
    OffsetOrder(k, |tags|, size);
    hide Offset, LowPart, PowerOfTwo;
    var area' := Splice(area, Offset(k, size), x);
    assert tags[k := tags[k]] == tags;
    var next := from + 1;
    forall j: nat | j < |tags| ensures SlotDue(tags, area', data, size, next, to, j) {
      assert SlotDue(tags, area, data, size, from, to, j);
      if j == k {
        CutOfSplice(area, Offset(k, size), x);
      } else if SlotOk(tags, area, data, size, j) {
        OtherSlots(tags, area, data, size, k, x, tags[k], j);
      }
    }
  }

  /** When the slot of block `from` holds something else, nothing was due there. */
  lemma SlotsAfterSkip(tags: seq<nat>, area: seq<Byte>, data: seq<Byte>, size: nat, from: nat, to: nat, k: nat)
    requires PowerOfTwo(|tags|) && k == LowPart(from, |tags|) && k < |tags| && tags[k] != from
    requires SlotsDue(tags, area, data, size, from, to)
    ensures SlotsDue(tags, area, data, size, from + 1, to)
  {
    hide SlotOk, LowPart, PowerOfTwo;
    var next := from + 1;
    forall j: nat | j < |tags| ensures SlotDue(tags, area, data, size, next, to, j) {
      assert SlotDue(tags, area, data, size, from, to, j);
    }
  }

  lemma SlotsAllDone(tags: seq<nat>, area: seq<Byte>, data: seq<Byte>, size: nat, to: nat)
    requires PowerOfTwo(|tags|) && |area| == Offset(|tags|, size)
    requires SlotsDue(tags, area, data, size, to, to)
    ensures SlotsOk(tags, area, data, size)
  {
    forall j: nat | j < |tags| ensures SlotOk(tags, area, data, size, j) {
      assert SlotDue(tags, area, data, size, to, to, j);
    }
  }

  class Cache {
    const parent: Disk
    const area: array<Byte>
    const tags: array<nat>

    ghost predicate Valid()
      reads this, parent, area, tags
    {
      parent.Valid() && SlotsOk(tags[..], area[..], parent.data, parent.blockSize)
    }

    constructor (parent: Disk, entries: nat)
      requires parent.Valid() && PowerOfTwo(entries)
      ensures Valid() && this.parent == parent && tags.Length == entries && fresh(area) && fresh(tags)
      ensures area.Length == Offset(entries, parent.blockSize) && forall i :: 0 <= i < entries ==> tags[i] == NO_BLOCK
    {
      this.parent := parent;
      area := new Byte[Offset(entries, parent.blockSize)](_ => 0);
      tags := new nat[entries](_ => NO_BLOCK);
    }

    /** cache_idx: the block number under the mask entries - 1 */
    function Index(block: nat): (i: nat)
      requires PowerOfTwo(tags.Length)
      ensures i < tags.Length
    {
      LowPart(block, tags.Length)
    }

    /** cache_read */
    method Read(buf: array<Byte>, off: nat, size: nat, block: nat) returns (n: nat)
      requires Valid() && parent.Holds(block, size) && off + size <= buf.Length && buf != area
      modifies buf, area, tags
      ensures Valid() && n == size
      ensures buf[..] == Splice(old(buf[..]), off, Cut(parent.data, Offset(block, parent.blockSize), size))
    {
      hide Offset, LowPart, PowerOfTwo, SlotOk;
      var bs := parent.blockSize;
      if size > bs {
        n := parent.Read(buf, off, size, block);
        return;
      }
      var idx := Index(block);
      var cacheBuf := Offset(idx, bs);
      OffsetOrder(idx, tags.Length, bs);
      n := size;
      if tags[idx] != block {
        ghost var tags0, area0 := tags[..], area[..];
        var bytesRead := parent.Read(area, cacheBuf, size, block);
        FillSlot(tags0, area0, parent.data, bs, idx, Cut(parent.data, Offset(block, bs), size),
                 if bytesRead == bs then block else NO_BLOCK);
        CutOfSplice(area0, cacheBuf, Cut(parent.data, Offset(block, bs), size));
        tags[idx] := if bytesRead == bs then block else NO_BLOCK;
        assert tags[..] == tags0[idx := tags[idx]];
        n := bytesRead;
      } else {
        HitHolds(tags[..], area[..], parent.data, bs, idx, size);
      }
      CopyInto(buf, off, Cut(area[..], cacheBuf, n));
    }

    /** One round of the loop in cache_write: if the block is in its slot the slot is brought up to date. */
    method Refresh(buf: array<Byte>, at: nat, block: nat, ghost to: nat)
      requires parent.Valid() && buf != area && block < to
      requires SlotsDue(tags[..], area[..], parent.data, parent.blockSize, block, to)
      requires at + parent.blockSize <= buf.Length &&
               Offset(block, parent.blockSize) + parent.blockSize <= |parent.data|
      requires Cut(buf[..], at, parent.blockSize) == Cut(parent.data, Offset(block, parent.blockSize), parent.blockSize)
      modifies area
      ensures SlotsDue(tags[..], area[..], parent.data, parent.blockSize, block + 1, to)
    {
      var bs := parent.blockSize;
      var idx := Index(block);
      OffsetOrder(idx, tags.Length, bs);
      hide Offset, LowPart, PowerOfTwo, SlotDue, Splice, Buffers.Cut;
      ghost var area0 := area[..];
      if tags[idx] == block {
        CopyInto(area, Offset(idx, bs), Cut(buf[..], at, bs));
        SlotsAfterUpdate(tags[..], area0, parent.data, bs, block, to, idx, Cut(parent.data, Offset(block, bs), bs));
      } else {
        SlotsAfterSkip(tags[..], area0, parent.data, bs, block, to, idx);
      }
    }

    /** cache_write: whole blocks only, through to the disk, and the slots of those blocks are brought up to date. */
    method Write(buf: array<Byte>, off: nat, size: nat, block: nat) returns (n: int)
      requires Valid() && parent.Holds(block, size) && off + size <= buf.Length && buf != area
      modifies parent`data, area
      ensures Valid()
      ensures if !Whole(size, parent.blockSize) then n == -1 && parent.data == old(parent.data)
              else n == size &&
                   parent.data == Splice(old(parent.data), Offset(block, parent.blockSize), Cut(buf[..], off, size))
    {
      var bs := parent.blockSize;
      if Rem(size, bs) != 0 { return -1; }
      ghost var data0, x := parent.data, Cut(buf[..], off, size);
      n := parent.Write(buf, off, size, block);
      var blockCount := Quot(size, bs);
      Divided(size, bs);
      hide Offset, LowPart, PowerOfTwo, SlotsOk, SlotsDue, Splice, Buffers.Cut;
      AllDueAfterWrite(tags[..], area[..], data0, bs, block, blockCount, x);
      var i := 0;
      while i < blockCount
        invariant parent.Valid() && parent.data == Splice(data0, Offset(block, bs), x) && buf[..] == old(buf[..])
        invariant 0 <= i <= blockCount && SlotsDue(tags[..], area[..], parent.data, bs, block + i, block + blockCount)
      {
        WrittenBlock(data0, bs, block, blockCount, x, i);
        CutOfCut(buf[..], off, size, Offset(i, bs), bs);
        Refresh(buf, off + Offset(i, bs), block + i, block + blockCount);
        i := i + 1;
      }
      SlotsAllDone(tags[..], area[..], parent.data, bs, block + blockCount);
    }
  }

  /** What the rounded number of slots takes of n bytes: they fit, and twice as many would not. */
  lemma SlotsTake(n: nat, size: nat, entries: nat)
    requires size > 0 && entries <= Quot(n, size) < 2 * entries
    ensures Offset(entries, size) <= n < 2 * Offset(entries, size)
  {
    Divided(n, size);
    OffsetMonotone(entries, Quot(n, size), size);
    OffsetMonotone(Quot(n, size) + 1, entries + entries, size);
    OffsetStep(Quot(n, size), size);
    OffsetSum(entries, entries, size);
    hide Offset, Quot;
  }

  lemma NoSlots(n: nat, size: nat)
    requires size > 0
    ensures Quot(n, size) == 0 <==> n < size
  {
    Divided(n, size);
    if n < size { DividedUnique(0, n, size); }
    hide Quot;
  }

  /** cache_init: an empty cache that takes more than half of the memory it is given, or none when no block fits. */
  method CacheInit(parent: Disk, cacheLength: nat) returns (cache: Cache?)
    requires parent.Valid() && Quot(cacheLength, parent.blockSize) < 0x8000_0000
    ensures cache == null <==> cacheLength < parent.blockSize
    ensures cache != null ==>
              cache.Valid() && cache.parent == parent && fresh(cache) && fresh(cache.area) && fresh(cache.tags)
    ensures cache != null ==>
              PowerOfTwo(cache.tags.Length) && cache.area.Length == Offset(cache.tags.Length, parent.blockSize)
    ensures cache != null ==> cache.area.Length <= cacheLength < 2 * cache.area.Length
    ensures cache != null ==> forall i :: 0 <= i < cache.tags.Length ==> cache.tags[i] == NO_BLOCK
  {
    hide PowerOfTwo, Offset, Quot, SlotsOk;
    var entries := Quot(cacheLength, parent.blockSize);
    NoSlots(cacheLength, parent.blockSize);
    if entries == 0 { return null; }
    entries := RoundDown(entries);
    SlotsTake(cacheLength, parent.blockSize, entries);
    cache := new Cache(parent, entries);
  }
}

/** The loops of block.c over a device, which is a disk with or without a cache in front of it. */
module BlockDevices {
  import opened Bytes
  import opened Buffers
  import opened Offsets
  import opened Disks
  import opened BlockCaches

  class Device {
    const disk: Disk
    const cache: Cache?
    const supportsMultipleBlockRead: bool

    ghost predicate Valid()
      reads this, Repr()
    {
      disk.Valid() && (cache != null ==> cache.Valid() && cache.parent == disk)
    }

    /** The objects behind the device. */
    ghost function Repr(): set<object>
    {
      if cache == null then {disk} else {disk, cache, cache.parent, cache.area, cache.tags}
    }

    /** Where a read leaves its traces besides the caller's buffer. */
    ghost function CacheWords(): set<object>
    {
      if cache == null then {} else {cache.area as object, cache.tags}
    }

    constructor (disk: Disk, cache: Cache?, multiple: bool)
      requires disk.Valid() && (cache != null ==> cache.Valid() && cache.parent == disk)
      ensures Valid() && this.disk == disk && this.cache == cache
    {
      this.disk, this.cache, supportsMultipleBlockRead := disk, cache, multiple;
    }

    /** dev->read */
    method Read(buf: array<Byte>, off: nat, size: nat, block: nat) returns (n: nat)
      requires Valid() && disk.Holds(block, size) && off + size <= buf.Length && buf !in Repr()
      modifies buf, CacheWords()
      ensures Valid() && n == size &&
              buf[..] == Splice(old(buf[..]), off, Cut(disk.data, Offset(block, disk.blockSize), size))
    {
      if cache == null { n := disk.Read(buf, off, size, block); } else { n := cache.Read(buf, off, size, block); }
    }

    /** dev->write */
    method Write(buf: array<Byte>, off: nat, size: nat, block: nat) returns (n: int)
      requires Valid() && disk.Holds(block, size) && off + size <= buf.Length && buf !in Repr() &&
               Whole(size, disk.blockSize)
      modifies disk`data, CacheWords()
      ensures Valid() && n == size &&
              disk.data == Splice(old(disk.data), Offset(block, disk.blockSize), Cut(buf[..], off, size))
    {
      if cache == null { n := disk.Write(buf, off, size, block); } else { n := cache.Write(buf, off, size, block); }
    }

    /** One round of block_read: a block, or what is left of the request. */
    method ReadRound(buf: array<Byte>, off: nat, done: nat, left: nat, block: nat, ghost base: nat,
                     ghost was: seq<Byte>) returns (toRead: nat)
      requires Valid() && disk.Holds(block, left) && off + done + left <= buf.Length && buf !in Repr()
      requires Offset(block, disk.blockSize) == base + done && SoFar(buf[..], was, off, disk.data, base, done)
      modifies buf, CacheWords()
      ensures Valid() && toRead == (if left > disk.blockSize then disk.blockSize else left)
      ensures SoFar(buf[..], was, off, disk.data, base, done + toRead)
    {
      hide Offset, Splice, Buffers.Cut, SlotsOk;
      toRead := if left > disk.blockSize then disk.blockSize else left;
      var ret := Read(buf, off + done, toRead, block);
      Joined(was, off, disk.data, base, done, toRead);
    }

    /** The loop of block_read. */
    method ReadByBlocks(buf: array<Byte>, off: nat, size: nat, start: nat) returns (n: nat)
      requires Valid() && disk.Holds(start, size) && off + size <= buf.Length && buf !in Repr()
      modifies buf, CacheWords()
      ensures Valid() && n == size &&
              buf[..] == Splice(old(buf[..]), off, Cut(disk.data, Offset(start, disk.blockSize), size))
    {
      hide Offset, Splice, Buffers.Cut, SlotsOk, SoFar, Round;
      ghost var base, was := Offset(start, disk.blockSize), buf[..];
      var bufOffset: nat, blockOffset: nat, left: nat := 0, 0, size;
      FirstRound(disk, start, size);
      NothingSoFar(was, off, disk.data, base);
      while true
        invariant Valid() && bufOffset + left == size &&
                  Round(disk.blockSize, disk.numBlocks, |disk.data|, start, blockOffset, bufOffset, left)
        invariant SoFar(buf[..], was, off, disk.data, base, bufOffset)
        decreases left
      {
        RoundHere(disk, start, blockOffset, bufOffset, left);
        var toRead := ReadRound(buf, off, bufOffset, left, start + blockOffset, base, was);
        if left <= disk.blockSize { break; }
        NextRound(disk.blockSize, disk.numBlocks, start, blockOffset, bufOffset, left);
        bufOffset := bufOffset + toRead;
        blockOffset := blockOffset + 1;
        left := left - disk.blockSize;
      }
      SoFarMeans(buf[..], was, off, disk.data, base, size);
      return bufOffset + left;
    }

    /** block_read: in one request where the device can, else block by block. */
    method BlockRead(buf: array<Byte>, off: nat, size: nat, start: nat) returns (n: nat)
      requires Valid() && disk.Holds(start, size) && off + size <= buf.Length && buf !in Repr()
      modifies buf, CacheWords()
      ensures Valid() && n == size &&
              buf[..] == Splice(old(buf[..]), off, Cut(disk.data, Offset(start, disk.blockSize), size))
    {
      if supportsMultipleBlockRead && Quot(size, disk.blockSize) > 1 {
        n := Read(buf, off, size, start);
      } else {
        n := ReadByBlocks(buf, off, size, start);
      }
    }

    /** One round of block_write. */
    method WriteRound(buf: array<Byte>, off: nat, done: nat, left: nat, block: nat, ghost base: nat,
                      ghost was: seq<Byte>) returns (toWrite: nat)
      requires Valid() && disk.Holds(block, left) && off + done + left <= buf.Length && buf !in Repr() &&
               Whole(left, disk.blockSize)
      requires Offset(block, disk.blockSize) == base + done && SoFar(disk.data, was, base, buf[..], off, done)
      modifies disk`data, CacheWords()
      ensures Valid() && |disk.data| == |old(disk.data)| &&
              toWrite == (if left > disk.blockSize then disk.blockSize else left) && buf[..] == old(buf[..])
      ensures SoFar(disk.data, was, base, buf[..], off, done + toWrite) &&
              (toWrite < left ==> Whole(left - toWrite, disk.blockSize))
    {
      hide Offset, Splice, Buffers.Cut, SlotsOk, Whole;
      toWrite := if left > disk.blockSize then disk.blockSize else left;
      WholeStep(left, disk.blockSize);
      var ret := Write(buf, off + done, toWrite, block);
      Joined(was, base, buf[..], off, done, toWrite);
    }

    /** block_write, block by block. */
    method BlockWrite(buf: array<Byte>, off: nat, size: nat, start: nat) returns (n: nat)
      requires Valid() && disk.Holds(start, size) && off + size <= buf.Length && buf !in Repr() &&
               Whole(size, disk.blockSize)
      modifies disk`data, CacheWords()
      ensures Valid() && n == size &&
              disk.data == Splice(old(disk.data), Offset(start, disk.blockSize), Cut(buf[..], off, size))
    {
      hide Offset, Splice, Buffers.Cut, SlotsOk, SoFar, Round, Whole;
      ghost var base, was := Offset(start, disk.blockSize), disk.data;
      var bufOffset: nat, blockOffset: nat, left: nat := 0, 0, size;
      FirstRound(disk, start, size);
      NothingSoFar(was, base, buf[..], off);
      while true
        invariant Valid() && bufOffset + left == size &&
                  Round(disk.blockSize, disk.numBlocks, |disk.data|, start, blockOffset, bufOffset, left) &&
                  Whole(left, disk.blockSize)
        invariant SoFar(disk.data, was, base, buf[..], off, bufOffset) && buf[..] == old(buf[..])
        decreases left
      {
        RoundHere(disk, start, blockOffset, bufOffset, left);
        var toWrite := WriteRound(buf, off, bufOffset, left, start + blockOffset, base, was);
        if left <= disk.blockSize { break; }
        NextRound(disk.blockSize, disk.numBlocks, start, blockOffset, bufOffset, left);
        bufOffset := bufOffset + toWrite;
        blockOffset := blockOffset + 1;
        left := left - disk.blockSize;
      }
      SoFarMeans(disk.data, was, base, buf[..], off, size);
      return bufOffset + left;
    }
  }

  /** k blocks, done bytes, have been transferred, and the rest is on the disk from block start + k on. */
  predicate Round(bs: nat, numBlocks: nat, total: nat, start: nat, k: nat, done: nat, left: nat)
  {
    done == Offset(k, bs) && start + k < numBlocks && Offset(start + k, bs) + left <= total &&
    Offset(start + k, bs) == Offset(start, bs) + done
  }

  lemma RoundHere(disk: Disk, start: nat, k: nat, done: nat, left: nat)
    requires Round(disk.blockSize, disk.numBlocks, |disk.data|, start, k, done, left)
    ensures disk.Holds(start + k, left) && Offset(start + k, disk.blockSize) == Offset(start, disk.blockSize) + done
  {}

  lemma FirstRound(disk: Disk, start: nat, size: nat)
    requires disk.Valid() && disk.Holds(start, size)
    ensures Round(disk.blockSize, disk.numBlocks, |disk.data|, start, 0, 0, size) &&
            Offset(start, disk.blockSize) <= |disk.data|
  {}

  lemma NextRound(bs: nat, numBlocks: nat, start: nat, k: nat, done: nat, left: nat)
    requires Round(bs, numBlocks, Offset(numBlocks, bs), start, k, done, left) && left > bs
    ensures Round(bs, numBlocks, Offset(numBlocks, bs), start, k + 1, done + bs, left - bs)
  {
    OffsetStep(start + k, bs);
    OffsetStep(k, bs);
    hide Offset;
  }

  /** now is was with done bytes of src, from base on, put in at off. */
  predicate SoFar(now: seq<Byte>, was: seq<Byte>, off: nat, src: seq<Byte>, base: nat, done: nat)
  {
    off + done <= |was| && base + done <= |src| && now == Splice(was, off, Cut(src, base, done))
  }

  lemma SoFarMeans(now: seq<Byte>, was: seq<Byte>, off: nat, src: seq<Byte>, base: nat, done: nat)
    requires SoFar(now, was, off, src, base, done)
    ensures off + done <= |was| && base + done <= |src| && now == Splice(was, off, Cut(src, base, done))
  {}

  lemma NothingSoFar(was: seq<Byte>, off: nat, src: seq<Byte>, base: nat)
    requires off <= |was| && base <= |src|
    ensures SoFar(was, was, off, src, base, 0)
  {}

  lemma Joined(was: seq<Byte>, off: nat, data: seq<Byte>, base: nat, done: nat, more: nat)
    requires off + done + more <= |was| && base + done + more <= |data|
    ensures Splice(Splice(was, off, Cut(data, base, done)), off + done, Cut(data, base + done, more)) ==
            Splice(was, off, Cut(data, base, done + more))
  {
    SpliceTwice(was, off, Cut(data, base, done), Cut(data, base + done, more));
    CutsJoin(data, base, done, more);
  }
}
