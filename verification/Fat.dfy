/** Cluster chains of fat.c, for sectors of 512 bytes: the table as a successor function and the cursor that follows it. */
module Fat {
  import opened Bytes
  import opened Buffers
  import opened TreeIndex
  import opened Offsets
  import opened Disks
  import opened BlockCaches
  import opened BlockDevices
  import opened Ext2

  const SECTOR: nat := 512

  /** From here on a cluster number marks the end of a chain. */
  const END_OF_CHAIN: nat := 0x0fff_fff8

  datatype FatType = FAT16 | FAT32

  datatype FatFs = FatFs(fatType: FatType, firstFatSector: nat, firstNonRootSector: nat, sectorsPerCluster: nat)

  /** fs.block_size */
  function ClusterBytes(fs: FatFs): nat { Offset(fs.sectorsPerCluster, SECTOR) }

  // ----- the table

  /** The byte offset of a table entry. */
  function FatOffset(fs: FatFs, cluster: nat): nat
  {
    (match fs.fatType case FAT16 => cluster * 2 case FAT32 => cluster * 4) % WORD
  }

  function FatSector(fs: FatFs, cluster: nat): nat { (fs.firstFatSector + FatOffset(fs, cluster) / SECTOR) % WORD }

  function FatIndex(fs: FatFs, cluster: nat): (i: nat)
    ensures i + 4 <= SECTOR || (fs.fatType == FAT16 && i + 2 <= SECTOR)
  {
    FatOffset(fs, cluster) % SECTOR
  }

  function Halfword(s: seq<Byte>, p: nat): nat
    requires p + 2 <= |s|
  {
    (s[p] as int) + 0x100 * (s[p + 1] as int)
  }

  /** The entry in its sector: 16-bit end marks are widened, and a 32-bit entry has 28 bits. */
  function EntryIn(fs: FatFs, sector: seq<Byte>, cluster: nat): nat
    requires |sector| == SECTOR
  {
    match fs.fatType
    case FAT16 =>
      var next := Halfword(sector, FatIndex(fs, cluster));
      if next >= 0xfff7 then 0x0fff_0000 + next else next
    case FAT32 => Word(sector, FatIndex(fs, cluster)) % 0x1000_0000
  }

  /** The sector of the table that holds the entry is on the disk. */
  predicate EntryHeld(disk: Disk, fs: FatFs, cluster: nat)
    reads disk
  {
    disk.Holds(FatSector(fs, cluster), SECTOR)
  }

  /** The successor of a cluster; 0 when its entry is not on the disk. */
  function NextEntry(data: seq<Byte>, fs: FatFs, cluster: nat): nat
  {
    var at := Offset(FatSector(fs, cluster), SECTOR);
    if at + SECTOR <= |data| then EntryIn(fs, Cut(data, at, SECTOR), cluster) else 0
  }

  /** Both table formats meet at one test: an entry is an end mark exactly when its 16 or 28 bits are one of the last eight. */
  lemma EndMarks(fs: FatFs, sector: seq<Byte>, cluster: nat)
    requires |sector| == SECTOR
    ensures EntryIn(fs, sector, cluster) >= END_OF_CHAIN <==>
              match fs.fatType
              case FAT16 => Halfword(sector, FatIndex(fs, cluster)) >= 0xfff8
              case FAT32 => Word(sector, FatIndex(fs, cluster)) % 0x1000_0000 >= 0x0fff_fff8
    ensures EntryIn(fs, sector, cluster) < 0x1000_0000
  {}

  /** Where the sums fit into 32 bits, FAT16: the successor is the little-endian halfword at twice the cluster. */
  lemma Entry16(data: seq<Byte>, fs: FatFs, cluster: nat, p: nat)
    requires fs.fatType == FAT16 && 2 * cluster < 0x1_0000_0000 && fs.firstFatSector + 2 * cluster / 512 < 0x1_0000_0000
    requires p == 512 * fs.firstFatSector + 2 * cluster && |data| % 512 == 0 && p + 2 <= |data|
    ensures var e := (data[p] as int) + 256 * (data[p + 1] as int);
            NextEntry(data, fs, cluster) == (if e >= 0xfff7 then 0x0fff_0000 + e else e) &&
            (NextEntry(data, fs, cluster) >= END_OF_CHAIN <==> e >= 0xfff8)
  {
    var at := Offset(FatSector(fs, cluster), SECTOR);
    OffsetIsProduct(FatSector(fs, cluster), SECTOR);
    var i := FatIndex(fs, cluster);
    assert at + i == p;
    hide Offset, FatSector, FatIndex;
    assert Cut(data, at, SECTOR)[i] == data[p] && Cut(data, at, SECTOR)[i + 1] == data[p + 1];
  }

  /** FAT32: it is the little-endian word at four times the cluster, without its upper four bits. */
  lemma Entry32(data: seq<Byte>, fs: FatFs, cluster: nat, p: nat)
    requires fs.fatType == FAT32 && 4 * cluster < 0x1_0000_0000 && fs.firstFatSector + 4 * cluster / 512 < 0x1_0000_0000
    requires p == 512 * fs.firstFatSector + 4 * cluster && |data| % 512 == 0 && p + 4 <= |data|
    ensures var e := ((data[p] as int) + 0x100 * (data[p + 1] as int) + 0x1_0000 * (data[p + 2] as int) +
                      0x100_0000 * (data[p + 3] as int)) % 0x1000_0000;
            NextEntry(data, fs, cluster) == e && (NextEntry(data, fs, cluster) >= END_OF_CHAIN <==> e >= 0x0fff_fff8)
  {
    var at := Offset(FatSector(fs, cluster), SECTOR);
    OffsetIsProduct(FatSector(fs, cluster), SECTOR);
    var i := FatIndex(fs, cluster);
    assert at + i == p;
    hide Offset, FatSector, FatIndex;
    var c := Cut(data, at, SECTOR);
    assert c[i] == data[p] && c[i + 1] == data[p + 1] && c[i + 2] == data[p + 2] && c[i + 3] == data[p + 3];
  }

  // ----- chains

  /** The n-th cluster of the chain; from its end mark on the chain stays there. */
  function Nth(data: seq<Byte>, fs: FatFs, first: nat, n: nat): nat
  {
    if n == 0 then first
    else
      var c := Nth(data, fs, first, n - 1);
      if c < END_OF_CHAIN then NextEntry(data, fs, c) else c
  }

  lemma {:induction false} EndStays(data: seq<Byte>, fs: FatFs, first: nat, m: nat, n: nat)
    requires m <= n && Nth(data, fs, first, m) >= END_OF_CHAIN
    ensures Nth(data, fs, first, n) == Nth(data, fs, first, m)
    decreases n
  {
    if m < n { EndStays(data, fs, first, m, n - 1); }
  }

  /** get_sector, in 32 bits */
  function SectorOf(fs: FatFs, cluster: nat): nat
  {
    (fs.firstNonRootSector + (cluster - 2) % WORD * fs.sectorsPerCluster) % WORD
  }

  /** get_sector counts clusters from 2 behind the root directory, exactly when the sector fits into 32 bits. */
  lemma SectorIsExact(fs: FatFs, cluster: nat)
    requires 2 <= cluster < END_OF_CHAIN
    ensures var s := fs.firstNonRootSector + (cluster - 2) * fs.sectorsPerCluster;
            SectorOf(fs, cluster) == s <==> s < 0x1_0000_0000
  {
    assert (cluster - 2) % WORD == cluster - 2;
  }

  /** The sector where block n of the file starts, or NO_BLOCK past the end of the chain. */
  function BlockOf(data: seq<Byte>, fs: FatFs, first: nat, n: nat): nat
  {
    var c := Nth(data, fs, first, n);
    if c < END_OF_CHAIN then SectorOf(fs, c) else NO_BLOCK
  }

  /** The table entries up to cluster n of the chain are on the disk. */
  ghost predicate ChainHeld(disk: Disk, fs: FatFs, first: nat, n: nat)
    reads disk
  {
    forall k: nat {:trigger Nth(disk.data, fs, first, k)} ::
      k < n && Nth(disk.data, fs, first, k) < END_OF_CHAIN ==> EntryHeld(disk, fs, Nth(disk.data, fs, first, k))
  }

  /** A sector on the disk, in bytes. */
  lemma SectorFits(disk: Disk, s: nat)
    requires disk.Valid() && disk.blockSize == 512 && disk.Holds(s, 512)
    ensures |disk.data| % 512 == 0 && 512 * s + 512 <= |disk.data|
  {
    OffsetIsProduct(disk.numBlocks, 512);
    hide Offset;
  }

  lemma SectorHeld(disk: Disk, fs: FatFs, cluster: nat, o: nat, q: nat)
    requires disk.Valid() && disk.blockSize == SECTOR && EntryHeld(disk, fs, cluster) && FatOffset(fs, cluster) == o
    requires q == o / 512 && fs.firstFatSector + q < WORD
    ensures |disk.data| % 512 == 0 && 512 * (fs.firstFatSector + q) + 512 <= |disk.data|
  {
    assert disk.Holds(fs.firstFatSector + q, 512);
    hide *;
    SectorFits(disk, fs.firstFatSector + q);
  }

  /** Entries of two or of four bytes do not straddle sectors. */
  lemma EntryFits(size: nat, first: nat, q: nat, k: nat)
    requires 512 * (first + q) + 512 <= size
    ensures 2 * k < 512 * q + 512 ==> 512 * first + 2 * k + 2 <= size
    ensures 4 * k < 512 * q + 512 ==> 512 * first + 4 * k + 4 <= size
  {
    assert 2 * k < 512 * q + 512 ==> k <= 256 * q + 255;
    assert 4 * k < 512 * q + 512 ==> k <= 128 * q + 127;
  }

  lemma QuotientAbove(o: nat, q: nat)
    requires q == o / 512
    ensures o < 512 * q + 512
  {}

  lemma Held16(disk: Disk, fs: FatFs, cluster: nat, p: nat)
    requires disk.Valid() && disk.blockSize == SECTOR && EntryHeld(disk, fs, cluster) && fs.fatType == FAT16
    requires 2 * cluster < WORD && fs.firstFatSector + 2 * cluster / 512 < WORD
    requires p == 512 * fs.firstFatSector + 2 * cluster
    ensures |disk.data| % 512 == 0 && p + 2 <= |disk.data|
  {
    var o := 2 * cluster;
    assert FatOffset(fs, cluster) == o;
    hide *;
    SectorHeld(disk, fs, cluster, o, o / 512);
    QuotientAbove(o, o / 512);
    EntryFits(|disk.data|, fs.firstFatSector, o / 512, cluster);
  }

  lemma Held32(disk: Disk, fs: FatFs, cluster: nat, p: nat)
    requires disk.Valid() && disk.blockSize == SECTOR && EntryHeld(disk, fs, cluster) && fs.fatType == FAT32
    requires 4 * cluster < WORD && fs.firstFatSector + 4 * cluster / 512 < WORD
    requires p == 512 * fs.firstFatSector + 4 * cluster
    ensures |disk.data| % 512 == 0 && p + 4 <= |disk.data|
  {
    var o := 4 * cluster;
    assert FatOffset(fs, cluster) == o;
    hide *;
    SectorHeld(disk, fs, cluster, o, o / 512);
    QuotientAbove(o, o / 512);
    EntryFits(|disk.data|, fs.firstFatSector, o / 512, cluster);
  }

  /** get_next_fat_entry */
  method GetNextFatEntry(dev: Device, fs: FatFs, cluster: nat) returns (next: nat)
    requires dev.Valid() && dev.disk.blockSize == SECTOR && EntryHeld(dev.disk, fs, cluster)
    modifies dev.CacheWords()
    ensures dev.Valid() && next == NextEntry(dev.disk.data, fs, cluster)
    ensures fs.fatType == FAT16 && 2 * cluster < 0x1_0000_0000 &&
            fs.firstFatSector + 2 * cluster / 512 < 0x1_0000_0000 ==>
              var d, p := dev.disk.data, 512 * fs.firstFatSector + 2 * cluster;
              p + 2 <= |d| && var e := (d[p] as int) + 256 * (d[p + 1] as int);
              next == if e >= 0xfff7 then 0x0fff_0000 + e else e
    ensures fs.fatType == FAT32 && 4 * cluster < 0x1_0000_0000 &&
            fs.firstFatSector + 4 * cluster / 512 < 0x1_0000_0000 ==>
              var d, p := dev.disk.data, 512 * fs.firstFatSector + 4 * cluster;
              p + 4 <= |d| &&
              next == ((d[p] as int) + 0x100 * (d[p + 1] as int) + 0x1_0000 * (d[p + 2] as int) +
                       0x100_0000 * (d[p + 3] as int)) % 0x1000_0000
  {
    hide Offset, SlotsOk, EntryIn;
    var buf := new Byte[SECTOR](_ => 0);
    SpliceAll(buf[..], Cut(dev.disk.data, Offset(FatSector(fs, cluster), SECTOR), SECTOR));
    var n := dev.BlockRead(buf, 0, SECTOR, FatSector(fs, cluster));
    next := EntryIn(fs, buf[..], cluster);
    if fs.fatType == FAT16 && 2 * cluster < WORD && fs.firstFatSector + 2 * cluster / 512 < WORD {
      Held16(dev.disk, fs, cluster, 512 * fs.firstFatSector + 2 * cluster);
      Entry16(dev.disk.data, fs, cluster, 512 * fs.firstFatSector + 2 * cluster);
    }
    if fs.fatType == FAT32 && 4 * cluster < WORD && fs.firstFatSector + 4 * cluster / 512 < WORD {
      Held32(dev.disk, fs, cluster, 512 * fs.firstFatSector + 4 * cluster);
      Entry32(dev.disk.data, fs, cluster, 512 * fs.firstFatSector + 4 * cluster);
    }
  }

  /** struct fat_file_block_offset and the flag that the function sets in the stream */
  class Cursor {
    const first: nat
    var fBlock: nat
    var cluster: nat
    var eof: bool

    /** The cursor is on its chain. */
    predicate On(data: seq<Byte>, fs: FatFs)
      reads this
    {
      cluster == Nth(data, fs, first, fBlock)
    }

    constructor (first: nat)
      ensures fBlock == 0 && cluster == first && this.first == first && !eof
    {
      this.first, fBlock, cluster, eof := first, 0, first, false;
    }

    /** fat_get_next_bdev_block_num, for block indices that do not decrease: the cursor agrees with the n-th successor. */
    method GetNextBdevBlockNum(dev: Device, fs: FatFs, idx: nat) returns (block: nat)
      requires dev.Valid() && dev.disk.blockSize == SECTOR && ChainHeld(dev.disk, fs, first, idx)
      requires On(dev.disk.data, fs) && (fBlock <= idx)
      modifies this, dev.CacheWords()
      ensures dev.Valid() && On(dev.disk.data, fs) && fBlock <= idx
      ensures block == BlockOf(dev.disk.data, fs, first, idx)
      ensures eof == (old(eof) || Nth(dev.disk.data, fs, first, idx) >= END_OF_CHAIN)
    {
      hide NextEntry, SectorOf, SlotsOk, Offset;
      while fBlock != idx && cluster < END_OF_CHAIN
        invariant dev.Valid() && On(dev.disk.data, fs) && fBlock <= idx && eof == old(eof)
        decreases idx - fBlock
      {
        cluster := GetNextFatEntry(dev, fs, cluster);
        fBlock := fBlock + 1;
      }
      if cluster >= END_OF_CHAIN { EndStays(dev.disk.data, fs, first, fBlock, idx); }
      if cluster < END_OF_CHAIN {
        block := SectorOf(fs, cluster);
      } else {
        eof := true;
        block := NO_BLOCK;
      }
    }
  }
}
