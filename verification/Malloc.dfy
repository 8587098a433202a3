/** What a request asks for, and which free chunk may serve it. */
module Requests {
  import opened TreeIndex
  import opened BinState
  import opened Heap
  import opened SmallSearch

  const MIN_REQUEST: nat := 11
  const MAX_SMALL_REQUEST: nat := 244
  const MAX_REQUEST: nat := 0xFFFF_FFC0

  /** pad_request, for requests it does not wrap on. */
  function PadRequest(bytes: nat): nat { (bytes + 11) / 8 * 8 }

  /** request2size */
  function RequestSize(bytes: nat): nat
  {
    if bytes < MIN_REQUEST then MIN_CHUNK_SIZE else PadRequest(bytes)
  }

  /** The size of chunk dlmalloc looks for; no heap can have the last. */
  function SizeWanted(bytes: nat): nat
  {
    if bytes >= MAX_REQUEST then WORD - 1 else RequestSize(bytes)
  }

  /** The chunk has room for the request and its own head, and is the smallest legal one that has. */
  lemma RequestSizeFits(bytes: nat)
    requires bytes < MAX_REQUEST
    ensures RequestSize(bytes) % 8 == 0 && 16 <= RequestSize(bytes) < 0x1_0000_0000 - 48
    ensures bytes + 4 <= RequestSize(bytes) <= bytes + 16
    ensures forall s: nat :: s % 8 == 0 && s >= 16 && s >= bytes + 4 ==> RequestSize(bytes) <= s
    ensures IsSmall(RequestSize(bytes)) <==> bytes <= MAX_SMALL_REQUEST
  {}

  /** A chunk in a bin or dv with at least nb bytes. */
  predicate Candidate(v: View, nb: nat, p: int)
  {
    (p in v.binned && v.binned[p] >= nb) || (p == v.w.dv && v.w.dvsize >= nb)
  }

  function SizeOf(v: View, p: int): nat
  {
    if p in v.binned then v.binned[p] else v.w.dvsize
  }

  ghost predicate SomeCandidate(v: View, nb: nat)
  {
    exists p :: Candidate(v, nb, p)
  }

  /** p is a candidate of the smallest size, and dv is taken before a chunk in a bin of the same size. */
  ghost predicate BestCandidate(v: View, nb: nat, p: int)
  {
    Candidate(v, nb, p) &&
    forall q {:trigger Candidate(v, nb, q)} :: Candidate(v, nb, q) ==>
      SizeOf(v, p) < SizeOf(v, q) || (SizeOf(v, p) == SizeOf(v, q) && (q == v.w.dv ==> p == v.w.dv))
  }

  /**
    The chunk that serves a request for nb bytes. A small one is served by a chunk of the size itself
    or the next, then by dv if that is large enough; otherwise the best fit is taken, and top is the
    last resort.
  */
  ghost predicate Chosen(v: View, nb: nat, p: int)
  {
    if IsSmall(nb) && HasSize(v.binned, nb) then p in v.binned && v.binned[p] == nb
    else if IsSmall(nb + 8) && HasSize(v.binned, nb + 8) then p in v.binned && v.binned[p] == nb + 8
    else if IsSmall(nb) && nb <= v.w.dvsize then p == v.w.dv
    else if SomeCandidate(v, nb) then BestCandidate(v, nb, p)
    else p == v.w.top && nb < v.w.topsize
  }

  /** The free chunks of v cannot serve a request for nb bytes. */
  ghost predicate Exhausted(v: View, nb: nat)
  {
    !SomeCandidate(v, nb) && v.w.topsize <= nb
  }

  /** In numbers: no chunk in a bin nor dv has s bytes, top has no more, and s bytes more would pass the limit. */
  ghost predicate NothingFor(v: View, brk: nat, limit: nat, s: nat)
  {
    (forall p :: p in v.binned ==> v.binned[p] < s) && v.w.dvsize < s && v.w.topsize <= s && brk + s + 48 + 4096 > limit
  }

  /** The size of the chunk is the least multiple of 8 from 16 up that holds the bytes and a word. */
  lemma ExhaustedMeans(v: View, bytes: nat, brk: nat, limit: nat)
    requires Exhausted(v, SizeWanted(bytes)) && brk + SizeWanted(bytes) + 48 + 4096 > limit && bytes < 0xFFFF_FFC0
    ensures NothingFor(v, brk, limit, if bytes < 5 then 16 else (bytes + 11) / 8 * 8)
  {
    forall p | p in v.binned ensures v.binned[p] < SizeWanted(bytes) { assert !Candidate(v, SizeWanted(bytes), p); }
    assert !Candidate(v, SizeWanted(bytes), v.w.dv);
  }

  /** p is the chunk to choose, or, when new memory had to be got, the old top or the first chunk at the break. */
  ghost predicate ComesFrom(v: View, brk: nat, nb: nat, p: int)
  {
    if Exhausted(v, nb) then p == (if v.w.top == 0 then brk else v.w.top) else Chosen(v, nb, p)
  }

  /** What is chosen is a free chunk that serves the request. */
  lemma ChosenServes(v: View, nb: nat, p: int)
    requires Chosen(v, nb, p) && nb > 0 && (nb <= v.w.dvsize ==> SomeCandidate(v, nb))
    ensures !Exhausted(v, nb)
  {
    if IsSmall(nb) && HasSize(v.binned, nb) { assert Candidate(v, nb, p); }
    else if IsSmall(nb + 8) && HasSize(v.binned, nb + 8) { assert Candidate(v, nb, p); }
  }

  /** Chunk p was handed out for a request of nb bytes: it is new, big enough and not too big, and nothing else changed hands. */
  ghost predicate Took(v: View, v': View, p: int, nb: nat)
  {
    p > 0 && p % 8 == 0 && p !in Used(v.t) && p in Used(v'.t) && nb <= Used(v'.t)[p] < nb + MIN_CHUNK_SIZE &&
    Used(v'.t) == Used(v.t)[p := Used(v'.t)[p]]
  }
}

/** The allocator of malloc.c over the sbrk of heap.c. */
module Malloc {
  import opened Bits
  import opened TreeIndex
  import opened Tries
  import opened BinState
  import opened BestFit
  import opened Chunks
  import opened FreeBins
  import opened BinWrites
  import opened Stores
  import opened BlockWrites
  import opened Breaks
  import opened Heap
  import opened HeapSteps
  import opened HeapGives
  import opened HeapGrows
  import opened SmallSearch
  import opened Requests
  import opened Bytes
  import opened Ram
  import opened Alignment

  const SYS_ALLOC_PADDING: nat := 48
  const DEFAULT_TRIM_THRESHOLD: nat := 0x20_0000
  const HALF_MAX_SIZE_T: nat := 0x7fff_ffff

  /** The one segment record and the figures kept about it; size 0 before the first request. */
  datatype Space = Space(base: nat, size: nat, footprint: nat, maxFootprint: nat, leastAddr: nat, contiguous: bool)

  /** granularity_align, in 32 bits. */
  function GranularityAlign(n: nat): nat
  {
    var m := (n + PAGE - 1) % WORD;
    m - m % PAGE
  }

  /** Only the size that stands for an impossible request wraps when it is padded, and then it is refused. */
  lemma AllocationSize(nb: nat)
    ensures nb == WORD - 1 ==> GranularityAlign((nb + SYS_ALLOC_PADDING) % WORD) <= nb
    ensures nb < WORD - SYS_ALLOC_PADDING ==> (nb + SYS_ALLOC_PADDING) % WORD == nb + SYS_ALLOC_PADDING
    ensures GranularityAlign((nb + SYS_ALLOC_PADDING) % WORD) < WORD
    ensures nb < WORD - SYS_ALLOC_PADDING && GranularityAlign(nb + SYS_ALLOC_PADDING) <= nb ==>
              nb > WORD - SYS_ALLOC_PADDING - PAGE
  {}

  /** What rounding to pages leaves: enough for the request and the end of the segment, and less than a page too much. */
  lemma AlignedSizes(nb: nat, topsize: nat, asize: nat)
    requires asize == GranularityAlign(nb + SYS_ALLOC_PADDING) && nb < asize < WORD && topsize <= nb
    ensures asize % PAGE == 0 && nb + SYS_ALLOC_PADDING <= asize < nb + SYS_ALLOC_PADDING + PAGE
    ensures var s := GranularityAlign(nb - topsize + SYS_ALLOC_PADDING);
            s % PAGE == 0 && nb - topsize + SYS_ALLOC_PADDING <= s <= asize
  {}

  // ----- from the invariant of the heap to what the operations on bins ask for

  lemma HeapHeads(v: View)
    requires HeapOk(v)
    ensures HeadsAgree(v.w.head, v.binned)
  {
    forall p | p in v.binned ensures p in v.w.head && v.w.head[p].size == v.binned[p] { ChunkHere(v, p); }
  }

  /** A chunk in a bin is free, neither dv nor top, and of legal size. */
  lemma BinnedHere(v: View, p: int)
    requires HeapOk(v) && p in v.binned
    ensures p in v.t && v.t[p] == Cell(v.binned[p], false) && p != v.w.dv && p != v.w.top
    ensures p > 0 && p % 8 == 0 && ChunkSize(v.binned[p])
  {
    ChunkHere(v, p);
  }

  lemma DvHere(v: View)
    requires HeapOk(v) && v.w.dv != 0
    ensures v.w.dv in v.t && v.t[v.w.dv] == Cell(v.w.dvsize, false) && v.w.dv !in v.binned && v.w.dv != v.w.top
    ensures v.w.dv > 0 && v.w.dv % 8 == 0 && ChunkSize(v.w.dvsize)
  {
    ChunkHere(v, v.w.dv);
  }

  lemma DvSizes(v: View)
    requires HeapOk(v)
    ensures v.w.dv == 0 <==> v.w.dvsize == 0
  {
    if v.w.dv != 0 { DvHere(v); }
  }

  lemma TopHere(v: View)
    requires HeapOk(v)
    ensures v.w.top in v.t && v.t[v.w.top] == Cell(v.w.topsize, false) && v.w.top + v.w.topsize == v.end &&
            v.w.top > 0 && v.w.top % 8 == 0
  {
    ChunkHere(v, v.w.top);
  }

  lemma FitSizes(binned: map<int, nat>, nb: nat, p: int)
    requires SmallestFit(binned, nb, p)
    ensures p in binned && !IsSmall(binned[p]) && binned[p] >= nb
  {}

  /** The rest of a binned chunk that is cut can be filed. */
  lemma RestFits(v: View, p: int, nb: nat)
    requires HeapOk(v) && Splits(v, p, nb) && p in v.binned && HeapOk(SplitToBin(v, p, nb))
    ensures HeadsAgree(SplitToBin(v, p, nb).w.head, v.binned - {p})
    ensures p + nb > 0 && (p + nb) % 8 == 0 && p + nb !in v.binned && ChunkSize(v.t[p].size - nb)
  {
    var v' := SplitToBin(v, p, nb);
    HeapHeads(v');
    BinnedHere(v', p + nb);
    NothingInside(v, p, p + nb);
    PositiveAddresses(v);
    hide HeapOk, Recut;
    forall q | q in v.binned - {p} ensures q in v'.w.head && v'.w.head[q].size == v.binned[q] { assert q in v'.binned; }
  }

  /** What the outcome of the search and the comparison with dv mean for the choice. */
  lemma LargeChoice(v: View, nb: nat, p: int, rsize: int)
    requires HeapOk(v) && LargeSize(nb)
    requires if p == 0 then rsize == WORD - nb && NoFit(v.binned, nb)
             else SmallestFit(v.binned, nb, p) && rsize == v.binned[p] - nb
    ensures p != 0 && rsize < Minus32(v.w.dvsize, nb) ==> BestCandidate(v, nb, p)
    ensures !(p != 0 && rsize < Minus32(v.w.dvsize, nb)) ==>
              if nb <= v.w.dvsize then BestCandidate(v, nb, v.w.dv) else !SomeCandidate(v, nb)
  {
    if v.w.dv != 0 { DvHere(v); }
    DvSizes(v);
    forall q | Candidate(v, nb, q)
      ensures q in v.binned ==> q != v.w.dv && !IsSmall(v.binned[q])
      ensures q in v.binned ==> v.binned[q] >= nb && p != 0 && v.binned[q] >= v.binned[p]
    {
      if q in v.binned { BinnedHere(v, q); }
    }
    if p != 0 { BinnedHere(v, p); }
    hide HeapOk, SmallestFit, NoFit;
  }

  /** A longer segment: no block is written to. */
  lemma MoreTopSpared(v: View, more: nat, m: BinWords)
    requires HeapOk(v) && v.w.top in v.t && HeapOk(MoreTop(v, more)) && Used(MoreTop(v, more).t) == Used(v.t)
    requires TagsSpare(v.w, MoreTop(v, more).w, Used(v.t))
    ensures Spared(StoreOf(v, m), StoreOf(MoreTop(v, more), m))
  {
    hide HeapOk, TagsSpare, LinksWithin, Spared;
    LinksSame(m, v.binned);
    StepSpared(v, MoreTop(v, more), m, m);
  }

  /** The two heads of a cut chunk can be written in either order. */
  lemma HeadsCommute(w: HeapWords, p: int, nb: nat, rs: nat)
    requires nb > 0
    ensures var r := p + nb;
            var w1 := SetSizeOfFree(w.(dv := r, dvsize := rs), r, rs);
            w1.(head := SetSizeOfInuse(w1.head, p, nb)) == SplitWords(w, p, nb, rs).(dv := r, dvsize := rs)
  {
    assert w.head[p + nb := Head(rs, false, true)][p := Head(nb, true, true)] ==
           w.head[p := Head(nb, true, true)][p + nb := Head(rs, false, true)];
  }

  lemma TookLater(v: View, v1: View, v2: View, p: int, nb: nat)
    requires Took(v1, v2, p, nb) && Used(v.t) == Used(v1.t)
    ensures Took(v, v2, p, nb)
  {}

  /** No chunk in a bin has one of the small sizes from 8 * idx up to 8 * i. */
  ghost predicate NoneBetween(v: View, idx: nat, i: nat)
  {
    forall j {:trigger HasSize(v.binned, 8 * j)} :: idx <= j < i ==> !HasSize(v.binned, 8 * j)
  }

  lemma AtLeast(b: Bins, v: View, idx: nat, i: nat, p: int)
    requires BinsOk(b) && v.binned == b.binned && NoneBetween(v, idx, i) && p in v.binned && v.binned[p] >= 8 * idx
    ensures v.binned[p] >= 8 * i
  {
    BinnedSize(b, p);
    hide BinsOk;
    var k := v.binned[p] / 8;
    assert HasSize(v.binned, 8 * k);
  }

  /** The first chunk of the next small bin is the best fit when dv is too small. */
  lemma NextSmallChosen(b: Bins, v: View, nb: nat, i: nat)
    requires BinsOk(b) && v.binned == b.binned && nb % 8 == 0 && nb / 8 + 1 < i < NSMALLBINS &&
             NoneBetween(v, nb / 8, i) && nb > v.w.dvsize && v.w.dv !in v.binned
    ensures forall p :: p in v.binned && v.binned[p] == 8 * i ==> Chosen(v, nb, p)
  {
    assert HasSize(v.binned, 8 * (nb / 8)) == HasSize(v.binned, nb);
    assert HasSize(v.binned, 8 * (nb / 8 + 1)) == HasSize(v.binned, nb + 8);
    forall p | p in v.binned && v.binned[p] == 8 * i ensures Chosen(v, nb, p) {
      assert Candidate(v, nb, p);
      forall q | Candidate(v, nb, q) ensures q in v.binned && v.binned[q] >= 8 * i { AtLeast(b, v, nb / 8, i, q); }
      hide BinsOk, HasSize;
    }
  }

  /** When no small chunk fits and dv is too small, the smallest large one is the best fit, if there is one. */
  lemma LargeForSmall(b: Bins, v: View, nb: nat)
    requires BinsOk(b) && v.binned == b.binned && nb % 8 == 0 && IsSmall(nb) && NoneBetween(v, nb / 8, NSMALLBINS) &&
             nb > v.w.dvsize && v.w.dv !in v.binned
    ensures forall p :: SmallestFit(v.binned, nb, p) ==> Chosen(v, nb, p)
    ensures b.treemap == 0 ==> !SomeCandidate(v, nb)
  {
    forall q | Candidate(v, nb, q) ensures q in v.binned && !IsSmall(v.binned[q]) {
      AtLeast(b, v, nb / 8, NSMALLBINS, q);
    }
    TreeMapChunks(b);
    hide BinsOk;
    assert HasSize(v.binned, 8 * (nb / 8)) == HasSize(v.binned, nb);
    assert HasSize(v.binned, 8 * (nb / 8 + 1)) == HasSize(v.binned, nb + 8);
    forall p | SmallestFit(v.binned, nb, p) ensures Chosen(v, nb, p) {
      assert Candidate(v, nb, p);
      hide HasSize;
    }
  }

  /** The chunk found in the next small bin, or else in the tree bins, is the one to choose. */
  lemma SmallChoice(b: Bins, v: View, nb: nat)
    requires BinsOk(b) && v.binned == b.binned && nb % 8 == 0 && IsSmall(nb) && nb > v.w.dvsize && v.w.dv !in v.binned
    ensures forall i: nat :: nb / 8 + 1 < i < NSMALLBINS && NoneBetween(v, nb / 8, i) ==>
              forall p :: p in v.binned && v.binned[p] == 8 * i ==> Chosen(v, nb, p)
    ensures NoneBetween(v, nb / 8, NSMALLBINS) ==>
              (forall p :: SmallestFit(v.binned, nb, p) ==> Chosen(v, nb, p)) &&
              (b.treemap == 0 ==> !SomeCandidate(v, nb))
  {
    hide *;
    forall i: nat | nb / 8 + 1 < i < NSMALLBINS && NoneBetween(v, nb / 8, i)
      ensures forall p :: p in v.binned && v.binned[p] == 8 * i ==> Chosen(v, nb, p)
    {
      NextSmallChosen(b, v, nb, i);
    }
    if NoneBetween(v, nb / 8, NSMALLBINS) { LargeForSmall(b, v, nb); }
  }

  /** What the bits of the small bin map say about the choice for a small request. */
  lemma SmallBins(b: Bins, v: View, nb: nat)
    requires BinsOk(b) && v.binned == b.binned && MIN_CHUNK_SIZE <= nb < MIN_LARGE_SIZE && nb % 8 == 0
    ensures var idx := nb / 8;
            var bits := ShiftRight(b.smallmap, idx);
            if EitherBin(bits) then
              var i := ExactBin(bits, idx);
              i < NSMALLBINS && Bit(b.smallmap, i) && HasSize(v.binned, 8 * i) && nb <= 8 * i <= nb + 8 &&
              forall p :: p in v.binned && v.binned[p] == 8 * i ==> Chosen(v, nb, p)
            else !HasSize(v.binned, nb) && !(IsSmall(nb + 8) && HasSize(v.binned, nb + 8)) &&
                 if bits != 0 then
                   var i := BinAfter(bits, idx);
                   idx + 1 < i < NSMALLBINS && Bit(b.smallmap, i) && HasSize(v.binned, 8 * i) && NoneBetween(v, idx, i)
                 else NoneBetween(v, idx, NSMALLBINS)
  {
    hide BinsOk, Bit, ShiftRight, EitherBin, ExactBin, BinAfter;
    var idx := nb / 8;
    var bits := ShiftRight(b.smallmap, idx);
    TwoBins(b.smallmap, idx);
    forall j: nat | j < NSMALLBINS ensures Bit(b.smallmap, j) <==> HasSize(v.binned, 8 * j) { SmallBitChunks(b, j); }
    hide HasSize;
    BitBelow32(b.smallmap, idx + 1);
    assert 8 * idx == nb && 8 * (idx + 1) == nb + 8;
    if !EitherBin(bits) {
      BinAbove(b.smallmap, idx);
    }
  }

  lemma BinnedSize(b: Bins, p: int)
    requires BinsOk(b) && p in b.binned
    ensures b.binned[p] % 8 == 0 && p > 0
  {
    assert ChunkFits(b, p);
  }

  /** Before the first request no bin is marked; later dv is never in a bin. */
  lemma EmptyHeap(b: Bins, v: View)
    requires BinsOk(b) && v.binned == b.binned && (NoHeap(v) || HeapOk(v))
    ensures NoHeap(v) ==> b.treemap == 0 && forall s :: !HasSize(v.binned, s)
    ensures v.w.dv !in v.binned
  {
    TreeMapChunks(b);
    if HeapOk(v) && v.w.dv in v.binned { BinnedHere(v, v.w.dv); }
  }

  /** The bins have nothing for nb: it comes from dv, or else from top or the system. */
  ghost predicate OnlyDvLeft(v: View, nb: nat)
  {
    if nb <= v.w.dvsize then Chosen(v, nb, v.w.dv)
    else !SomeCandidate(v, nb) && (nb < v.w.topsize ==> Chosen(v, nb, v.w.top))
  }

  lemma SmallLeft(v: View, nb: nat)
    requires IsSmall(nb)
    ensures !HasSize(v.binned, nb) && !(IsSmall(nb + 8) && HasSize(v.binned, nb + 8)) &&
            (nb <= v.w.dvsize || !SomeCandidate(v, nb)) ==>
              OnlyDvLeft(v, nb)
  {}

  lemma LargeChosen(v: View, nb: nat)
    requires !IsSmall(nb)
    ensures forall p :: BestCandidate(v, nb, p) ==> Chosen(v, nb, p)
    ensures (if nb <= v.w.dvsize then BestCandidate(v, nb, v.w.dv) else !SomeCandidate(v, nb)) ==> OnlyDvLeft(v, nb)
  {}

  lemma NoLarge(b: Bins, v: View, nb: nat)
    requires BinsOk(b) && v.binned == b.binned && !IsSmall(nb) && (NoHeap(v) || HeapOk(v))
    ensures b.treemap == 0 ==> if nb <= v.w.dvsize then BestCandidate(v, nb, v.w.dv) else !SomeCandidate(v, nb)
  {
    TreeMapChunks(b);
    if HeapOk(v) { DvSizes(v); if v.w.dv != 0 { DvHere(v); } }
    hide HeapOk;
  }

  lemma NothingThatBig(b: Bins, v: View)
    requires BinsOk(b) && v.binned == b.binned && (NoHeap(v) || HeapOk(v))
    ensures OnlyDvLeft(v, WORD - 1)
  {
    if HeapOk(v) {
      DvSizes(v);
      if v.w.dv != 0 { DvHere(v); }
      forall q | q in v.binned ensures v.binned[q] < WORD - 1 { BinnedHere(v, q); }
      ChunkHere(v, v.w.top);
    }
    hide HeapOk;
  }

  lemma WantedSizes(bytes: nat)
    ensures var nb := SizeWanted(bytes);
            nb == WORD - 1 ||
            (MIN_CHUNK_SIZE <= nb < WORD - SYS_ALLOC_PADDING && nb % 8 == 0 && nb == RequestSize(bytes))
  {
    if bytes < MAX_REQUEST { RequestSizeFits(bytes); }
  }

  /** When dv or top serves the request there is a heap, and the request is not too big. */
  lemma LastResorts(v: View, nb: nat)
    requires NoHeap(v) || HeapOk(v)
    ensures 0 < nb <= v.w.dvsize || nb < v.w.topsize ==> v.w.top != 0 && nb < WORD - 1
    ensures nb <= v.w.dvsize && HeapOk(v) ==> SomeCandidate(v, nb)
  {
    if HeapOk(v) { DvSizes(v); if v.w.dv != 0 { DvHere(v); } ChunkHere(v, v.w.top); }
    if HeapOk(v) && nb <= v.w.dvsize { assert Candidate(v, nb, v.w.dv); }
    hide HeapOk;
  }

  lemma ServedBefore(v: View, nb: nat, p: int)
    requires (NoHeap(v) || HeapOk(v)) && nb > 0 && Chosen(v, nb, p)
    ensures !Exhausted(v, nb)
  {
    LastResorts(v, nb);
    if NoHeap(v) && nb <= v.w.dvsize { assert false; }
    hide HeapOk;
    ChosenServes(v, nb, p);
  }

  lemma TookChunk(v: View, v': View, p: int, nb: nat)
    requires Took(v, v', p, nb)
    ensures p > 0
  {}

  /** What is known of the neighbours of a chunk in use, and that the merged chunk can be filed. */
  lemma ReleaseFits(v: View, p: int)
    requires HeapOk(v) && p in v.t && v.t[p].used && InUse(v, p) && HeapOk(Release(v, p))
    ensures var a, n := Start(v, p), NextOf(v, p);
            n in v.w.head && v.w.head[n].cinuse == v.t[n].used && v.w.head[n].size == v.t[n].size &&
            (n == v.w.top ==> v.w.topsize == v.t[n].size && !v.t[n].used && n !in v.binned && n != v.w.dv) &&
            (n == v.w.dv ==> v.w.dvsize == v.t[n].size && !v.t[n].used && n !in v.binned && a != v.w.dv) &&
            (!v.t[n].used && n != v.w.top && n != v.w.dv ==> n in v.binned && v.binned[n] == v.t[n].size && n != a) &&
            (v.t[n].used ==> n !in v.binned)
    ensures GoesToBin(v, p) ==>
              HeadsAgree(ReleaseWords(v, p).head, v.binned - {Start(v, p), NextOf(v, p)}) &&
              Start(v, p) > 0 && Start(v, p) % 8 == 0 && ChunkSize(Stop(v, p) - Start(v, p))
  {
    Neighbourhood(v, p);
    var a, n := Start(v, p), NextOf(v, p);
    ChunkHere(v, n);
    ChunkHere(v, p);
    if GoesToBin(v, p) {
      var v' := Release(v, p);
      HeapHeads(v');
      BinnedHere(v', a);
      hide HeapOk, ReleaseWords, InUse;
      forall q | q in v.binned - {a, n} ensures q in v'.w.head && v'.w.head[q].size == v.binned[q] {
        assert q in v'.binned;
      }
    }
  }

  /** The free chunk before p, if any, is dv or in the bin of the size that prev_foot gives. */
  lemma PrevHere(v: View, p: int)
    requires HeapOk(v) && p in v.t && v.t[p].used && InUse(v, p)
    ensures var a := Start(v, p);
            if a == p then a !in v.binned && a != v.w.dv && v.w.head[p].pinuse
            else !v.w.head[p].pinuse && (if a == v.w.dv then a !in v.binned else a in v.binned && v.binned[a] == p - a)
    ensures Start(v, p) !in v.binned ==> v.binned == v.binned - {Start(v, p)}
  {
    Neighbourhood(v, p);
    ChunkHere(v, p);
    ChunkHere(v, Start(v, p));
  }

  /** Chunk p, in use before and after, now has a size right for nb, and nothing else changed hands. */
  ghost predicate Fitted(v: View, v': View, p: int, nb: nat)
  {
    p in Used(v.t) && p in Used(v'.t) && nb <= Used(v'.t)[p] < nb + MIN_CHUNK_SIZE &&
    Used(v'.t) == Used(v.t)[p := Used(v'.t)[p]]
  }

  /** The second part of a chunk in use that was cut is a chunk in use, and giving it back leaves the first. */
  lemma SecondPart(v: View, p: int, nb: nat, t: Tiling)
    requires p in Used(v.t) && nb < Used(v.t)[p] && 0 < nb && p + nb !in v.t
    requires Used(t) == Used(v.t)[p := nb][p + nb := Used(v.t)[p] - nb]
    ensures p + nb in t && t[p + nb] == Cell(Used(v.t)[p] - nb, true)
    ensures Used(t) - {p + nb} == Used(v.t)[p := nb]
  {
    assert p + nb in Used(t);
    assert p + nb !in Used(v.t);
  }

  lemma GrownPart(v: View, p: int, nb: nat, t: Tiling)
    requires HeapOk(v) && Grows(v, p) && v.t[p].size <= nb < Joint(v, p) && 0 < nb
    requires Used(t) == Used(v.t)[p := nb][p + nb := Joint(v, p) - nb]
    ensures p + nb in t && t[p + nb] == Cell(Joint(v, p) - nb, true)
    ensures Used(t) - {p + nb} == Used(v.t)[p := nb]
  {
    GrowHere(v, p);
    hide HeapOk;
    assert p + nb in Used(t);
    assert p + nb !in Used(v.t);
  }

  /** The chunk p is large enough for nb bytes, or is together with a free chunk behind it; of top something must stay. */
  predicate FitsInPlace(v: View, p: int, nb: nat)
  {
    p in v.t && var n := p + v.t[p].size;
    v.t[p].size >= nb ||
    (n in v.t && !v.t[n].used && if n == v.w.top then v.t[p].size + v.t[n].size > nb else v.t[p].size + v.t[n].size >= nb)
  }

  /** What try_realloc_chunk reads at the chunk behind p. */
  lemma BehindUsed(v: View, p: int)
    requires HeapOk(v) && p in Used(v.t)
    ensures p > 0 && p in v.w.head && v.w.head[p].size == v.t[p].size
    ensures var n := p + v.t[p].size;
            n in v.w.head && n in v.t && v.w.head[n].size == v.t[n].size && v.w.head[n].cinuse == v.t[n].used &&
            (!v.t[n].used ==> Grows(v, p) && Joint(v, p) == v.t[p].size + v.t[n].size) &&
            (n == v.w.top ==> !v.t[n].used && v.w.topsize == v.t[n].size) &&
            (n == v.w.dv ==> !v.t[n].used && v.w.dvsize == v.t[n].size) &&
            (!v.t[n].used && n != v.w.top && n != v.w.dv ==> n in v.binned)
  {
    ChunkHere(v, p);
    ChunkHere(v, v.w.top);
    NextHere(v, p);
    ChunkHere(v, p + v.t[p].size);
  }

  /** In place of the block at oldmem, if that is one, there is now a block at mem with room for the request. */
  predicate Replaced(u: map<int, nat>, u': map<int, nat>, oldmem: int, mem: int, bytes: nat)
  {
    var p, q := oldmem - 8, mem - 8;
    var rest := if oldmem == 0 then u else u - {p};
    mem % 8 == 0 && bytes < MAX_REQUEST && q in u' && q !in rest &&
    RequestSize(bytes) <= u'[q] < RequestSize(bytes) + MIN_CHUNK_SIZE && u' == rest[q := u'[q]]
  }

  lemma AllocatedNew(v: View, v': View, mem: int, bytes: nat)
    requires bytes < MAX_REQUEST && Took(v, v', mem - 8, RequestSize(bytes))
    ensures Replaced(Used(v.t), Used(v'.t), 0, mem, bytes) && mem - 8 !in Used(v.t)
  {}

  lemma FittedReplaced(v: View, v': View, oldmem: int, bytes: nat)
    requires HeapOk(v) && bytes < MAX_REQUEST && oldmem != 0 && Fitted(v, v', oldmem - 8, RequestSize(bytes))
    ensures Replaced(Used(v.t), Used(v'.t), oldmem, oldmem, bytes)
  {
    ChunkHere(v, oldmem - 8);
    hide HeapOk;
  }

  /** Blocks handed out do not overlap. */
  lemma BlocksApart(v: View, p: int, q: int)
    requires HeapOk(v) && p in Used(v.t) && q in Used(v.t) && p != q
    ensures p + Used(v.t)[p] <= q || q + Used(v.t)[q] <= p
  {
    assert Ordered(v.t, p, q) && Ordered(v.t, q, p);
  }

  /** A new block beside an old one: copying between them and freeing the old one replaces it. */
  lemma MovedApart(v: View, v1: View, oldmem: int, mem: int, bytes: nat)
    requires (NoHeap(v1) || HeapOk(v1)) && bytes < MAX_REQUEST && oldmem != 0 && oldmem - 8 in Used(v.t) &&
             Took(v, v1, mem - 8, RequestSize(bytes))
    ensures oldmem - 8 in Used(v1.t) && oldmem - 8 in v1.w.head &&
            v1.w.head[oldmem - 8].size == Used(v.t)[oldmem - 8] >= MIN_CHUNK_SIZE
    ensures Replaced(Used(v.t), Used(v1.t) - {oldmem - 8}, oldmem, mem, bytes)
    ensures WithinBlock(Used(v1.t), mem - 8, mem, bytes)
    ensures var oc := Used(v.t)[oldmem - 8] - CHUNK_OVERHEAD;
            var n := if oc < bytes then oc else bytes;
            (mem + n <= oldmem || oldmem + n <= mem) &&
            forall p, a :: InBlock(Used(v.t), p, a) ==> !(mem <= a < mem + n)
  {
    var p, q := oldmem - 8, mem - 8;
    ChunkHere(v1, p);
    BlocksApart(v1, p, q);
    RequestSizeFits(bytes);
    forall r, a | InBlock(Used(v.t), r, a) ensures !(mem <= a < mem + bytes) { BlocksApart(v1, r, q); }
    hide HeapOk, RequestSize;
  }

  // ----- the bytes of blocks

  /** How many bytes of the block at mem are kept when it becomes a block of the given size. */
  function Kept(u: map<int, nat>, mem: int, bytes: nat): (n: nat)
  {
    if mem == 0 || mem - 8 !in u || u[mem - 8] < CHUNK_OVERHEAD then 0
    else if u[mem - 8] - CHUNK_OVERHEAD < bytes then u[mem - 8] - CHUNK_OVERHEAD else bytes
  }

  /** The block at mem has the bytes kept of the one at oldmem, and all other blocks of u have the bytes they had. */
  ghost predicate BlockMoved(u: map<int, nat>, b: map<int, Byte>, b': map<int, Byte>, oldmem: int, mem: int, bytes: nat)
  {
    Slice(b', mem, Kept(u, oldmem, bytes)) == Slice(b, oldmem, Kept(u, oldmem, bytes)) &&
    forall p, a {:trigger InBlock(u, p, a)} :: p != oldmem - 8 && InBlock(u, p, a) ==> At(b', a) == At(b, a)
  }

  /** The blocks of u that are still blocks in u' have the bytes they had, as far as they still extend. */
  ghost predicate BytesKept(u: map<int, nat>, u': map<int, nat>, b: map<int, Byte>, b': map<int, Byte>)
  {
    forall p, a {:trigger InBlock(u', p, a)} :: InBlock(u, p, a) && InBlock(u', p, a) ==> At(b', a) == At(b, a)
  }

  /** Stores that miss the blocks leave their bytes. */
  lemma StoresKeep(s: Store, s': Store, b: map<int, Byte>, b': map<int, Byte>)
    requires Spared(s, s') && forall a :: !Stored(s.words, s'.words, a) ==> At(b', a) == At(b, a)
    ensures BytesKept(s.used, s'.used, b, b')
  {
    hide Stored;
  }

  lemma InPlaceBytes(u: map<int, nat>, u': map<int, nat>, b: map<int, Byte>, b': map<int, Byte>, oldmem: int, mem: int,
                     bytes: nat)
    requires Replaced(u, u', oldmem, mem, bytes) && (oldmem == 0 || oldmem == mem) && BytesKept(u, u', b, b')
    requires forall p :: p in u ==> p > 0
    ensures BlockMoved(u, b, b', oldmem, mem, bytes)
  {
    RequestSizeFits(bytes);
    var n := Kept(u, oldmem, bytes);
    forall i | 0 <= i < n ensures SameAt(b, b', oldmem, mem, i) { assert InBlock(u', mem - 8, mem + i); }
    SliceAgrees(b, b', oldmem, mem, n);
    forall p, a | p != oldmem - 8 && InBlock(u, p, a) ensures At(b', a) == At(b, a) { assert InBlock(u', p, a); }
  }

  /** A new block does not touch the bytes of the others. */
  lemma TookKeeps(v: View, v1: View, b: map<int, Byte>, b1: map<int, Byte>, mem: int, bytes: nat)
    requires Took(v, v1, mem - 8, RequestSize(bytes)) && BytesKept(Used(v.t), Used(v1.t), b, b1)
    ensures forall p, a :: InBlock(Used(v.t), p, a) ==> At(b1, a) == At(b, a)
  {
    hide RequestSize, Used;
    forall p, a | InBlock(Used(v.t), p, a) ensures At(b1, a) == At(b, a) { assert InBlock(Used(v1.t), p, a); }
  }

  lemma MovedBytes(v: View, u1: map<int, nat>, u2: map<int, nat>, b: map<int, Byte>, b1: map<int, Byte>,
                   b2: map<int, Byte>,
                   oldmem: int, mem: int, bytes: nat)
    requires oldmem != 0 && oldmem - 8 in Used(v.t) && bytes < MAX_REQUEST &&
             Replaced(Used(v.t), u2, oldmem, mem, bytes)
    requires u2 == u1 - {oldmem - 8} && BytesKept(u1, u2, b1, b2)
    requires var n := Kept(Used(v.t), oldmem, bytes);
             Slice(b1, mem, n) == Slice(b, oldmem, n) &&
             (forall p, a :: InBlock(Used(v.t), p, a) ==> !(mem <= a < mem + n)) &&
             (forall a :: !(mem <= a < mem + n) ==> At(b1, a) == At(b, a))
    ensures BlockMoved(Used(v.t), b, b2, oldmem, mem, bytes)
  {
    RequestSizeFits(bytes);
    var u, n := Used(v.t), Kept(Used(v.t), oldmem, bytes);
    forall i | 0 <= i < n ensures SameAt(b1, b2, mem, mem, i) { assert InBlock(u2, mem - 8, mem + i); }
    SliceAgrees(b1, b2, mem, mem, n);
    forall p, a | p != oldmem - 8 && InBlock(u, p, a) ensures At(b2, a) == At(b, a) { assert InBlock(u2, p, a); }
  }

  lemma MovedLater(v: View, b: map<int, Byte>, b1: map<int, Byte>, b2: map<int, Byte>, oldmem: int, mem: int,
                   bytes: nat)
    requires oldmem - 8 in Used(v.t) && BlockMoved(Used(v.t), b1, b2, oldmem, mem, bytes)
    requires forall p, a :: InBlock(Used(v.t), p, a) ==> At(b1, a) == At(b, a)
    ensures BlockMoved(Used(v.t), b, b2, oldmem, mem, bytes)
  {
    var u, n := Used(v.t), Kept(Used(v.t), oldmem, bytes);
    forall i | 0 <= i < n ensures SameAt(b, b1, oldmem, oldmem, i) { assert InBlock(u, oldmem - 8, oldmem + i); }
    SliceAgrees(b, b1, oldmem, oldmem, n);
  }

  lemma HeapWithBlocks(v: View, p: int)
    requires (NoHeap(v) || HeapOk(v)) && p in Used(v.t)
    ensures HeapOk(v)
  {}

  lemma BlocksNeedHeap(v: View, p: int, lo: int, n: nat)
    requires WithinBlock(Used(v.t), p, lo, n)
    ensures !NoHeap(v)
  {}

  lemma TopStays(w: HeapWords, other: HeapWords, lo: int, n: nat)
    ensures var w' := TagsOver(w, other, lo, n);
            w' == w.(head := w'.head, foot := w'.foot)
  {}

  // ----- when and where realloc finds room

  /** Neither in place nor elsewhere is there room for the request. */
  ghost predicate NoRoomToResize(v: View, oldmem: int, bytes: nat)
  {
    bytes >= MAX_REQUEST ||
    (Exhausted(v, RequestSize(bytes)) && (oldmem != 0 ==> !FitsInPlace(v, oldmem - 8, RequestSize(bytes))))
  }

  /** The block stays where it is exactly when there is room; otherwise a new one is chosen as for any request. */
  ghost predicate ResizePlace(v: View, brk: nat, oldmem: int, mem: int, bytes: nat)
  {
    if oldmem != 0 && FitsInPlace(v, oldmem - 8, RequestSize(bytes)) then mem == oldmem
    else mem - 8 !in Used(v.t) && ComesFrom(v, brk, RequestSize(bytes), mem - 8)
  }

  lemma NewPlace(v: View, brk: nat, oldmem: int, mem: int, bytes: nat)
    requires oldmem == 0 || !FitsInPlace(v, oldmem - 8, RequestSize(bytes))
    requires mem - 8 !in Used(v.t) && ComesFrom(v, brk, RequestSize(bytes), mem - 8)
    ensures ResizePlace(v, brk, oldmem, mem, bytes)
  {}

  /** In numbers: chunk p, also with a free chunk behind it, has less than s bytes, and with top no more than s. */
  ghost predicate Cramped(v: View, p: int, s: nat)
  {
    p in Used(v.t) && var z := Used(v.t)[p];
    z < s && (p + z == v.w.top ==> z + v.w.topsize <= s) && (p + z == v.w.dv ==> z + v.w.dvsize < s) &&
    (p + z in v.binned ==> z + v.binned[p + z] < s)
  }

  lemma NoPlaceMeans(v: View, p: int, bytes: nat)
    requires HeapOk(v) && p in Used(v.t) && bytes < MAX_REQUEST && !FitsInPlace(v, p, RequestSize(bytes))
    ensures Cramped(v, p, if bytes < 5 then 16 else (bytes + 11) / 8 * 8)
  {
    BehindUsed(v, p);
    var n := p + v.t[p].size;
    if n in v.binned { BinnedHere(v, n); }
    if n == v.w.dv { DvHere(v); }
    hide HeapOk;
  }

  lemma BytesMoved(u: map<int, nat>, b: map<int, Byte>, b': map<int, Byte>, oldmem: int, mem: int, bytes: nat)
    requires oldmem != 0 && oldmem - 8 in u && BlockMoved(u, b, b', oldmem, mem, bytes)
    ensures forall a :: oldmem <= a < oldmem + bytes && a < oldmem + u[oldmem - 8] - 4 ==>
              At(b', mem + (a - oldmem)) == At(b, a)
  {
    var n := Kept(u, oldmem, bytes);
    forall a | oldmem <= a < oldmem + bytes && a < oldmem + u[oldmem - 8] - 4
      ensures At(b', mem + (a - oldmem)) == At(b, a)
    {
      assert Slice(b', mem, n)[a - oldmem] == Slice(b, oldmem, n)[a - oldmem];
    }
  }

  lemma UsedPositive(v: View)
    requires NoHeap(v) || HeapOk(v)
    ensures forall p :: p in Used(v.t) ==> p > 0
  {
    if HeapOk(v) { PositiveAddresses(v); }
    hide HeapOk;
  }

  /** The two calls of set_inuse can be made in either order. */
  lemma EitherOrder(head: map<int, Head>, p: int, lead: nat, rest: nat)
    requires lead > 0 && rest > 0
    ensures SetInuse(SetInuse(head, p + lead, rest), p, lead) == SetInuse(SetInuse(head, p, lead), p + lead, rest)
  {}

  /** The first part of a chunk in use that was cut is a chunk in use, and giving it back leaves the second. */
  lemma FirstPart(v: View, p: int, lead: nat, t: Tiling)
    requires p in Used(v.t) && 0 < lead < Used(v.t)[p]
    requires Used(t) == Used(v.t)[p := lead][p + lead := Used(v.t)[p] - lead]
    ensures p in t && t[p] == Cell(lead, true)
    ensures Used(t) - {p} == (Used(v.t) - {p})[p + lead := Used(v.t)[p] - lead]
  {
    assert p in Used(t);
  }

  /** A new chunk at q of at least nb bytes, and not much more, is in use, and nothing else changed hands. */
  predicate Placed(u: map<int, nat>, u': map<int, nat>, q: int, nb: nat)
  {
    q !in u && q in u' && nb <= u'[q] <= nb + MIN_CHUNK_SIZE && u' == u[q := u'[q]]
  }

  lemma StaysPlaced(u: map<int, nat>, u1: map<int, nat>, u2: map<int, nat>, p: int, nb: nat)
    requires p !in u && p in u1 && u1 == u[p := u1[p]] && u1[p] >= nb
    requires if u1[p] > nb + MIN_CHUNK_SIZE then u2 == u1[p := nb] else u2 == u1
    ensures Placed(u, u2, p, nb)
  {}

  /** A chunk that got smaller was in use in between to a greater extent. */
  lemma TailGiven(u1: map<int, nat>, u2: map<int, nat>, p: int, nb: nat)
    requires p in u1 && u1[p] >= nb && u2 == u1[p := nb]
    ensures forall u: map<int, nat> :: (forall q :: q in u && q in u2 ==> q in u1) ==> UsedBetween(u, u1, u2)
  {}

  /** There is a new block at mem, aligned, with room for the request. */
  ghost predicate AlignedBlock(u: map<int, nat>, u': map<int, nat>, mem: int, alignment: nat, bytes: nat)
  {
    mem > 0 && MultipleOf(mem, alignment) && Placed(u, u', mem - 8, RequestSize(bytes))
  }

  lemma AlignedMeans(u: map<int, nat>, u': map<int, nat>, mem: int, alignment: nat, bytes: nat)
    requires AlignedBlock(u, u', mem, alignment, bytes) && alignment > 0
    ensures mem > 0 && mem % alignment == 0
  {
    MultipleMeans(mem, alignment);
  }

  lemma TookLeaves(v: View, v1: View, mem: int, bytes: nat)
    requires Took(v, v1, mem - 8, RequestSize(bytes))
    ensures forall u: map<int, nat> :: UsedBetween(Used(v.t), Used(v1.t), u)
  {}

  /** What internal_memalign asks dlmalloc for: the block, and room to move it to an aligned spot behind a chunk. */
  function PaddedRequest(alignment: nat, bytes: nat): nat
  {
    RequestSize(bytes) + alignment + MIN_CHUNK_SIZE - CHUNK_OVERHEAD
  }

  /** There is no block for a request with the alignment: it is too large, or no free chunk serves the padded request. */
  ghost predicate NoRoomAligned(v: View, alignment: nat, bytes: nat)
  {
    bytes + alignment >= MAX_REQUEST || Exhausted(v, SizeWanted(PaddedRequest(alignment, bytes)))
  }

  /** The same in numbers: no free chunk has room for the block, the alignment and a chunk before it. */
  lemma NoneAligned(v: View, alignment: nat, bytes: nat, brk: nat, limit: nat)
    requires (NoHeap(v) || HeapOk(v)) && v.end < 0x10_0000 && limit < 0x10_0000 && alignment % 16 == 0
    requires Exhausted(v, SizeWanted(PaddedRequest(alignment, bytes))) &&
             brk + SizeWanted(PaddedRequest(alignment, bytes)) + 48 + 4096 > limit
    ensures NothingFor(v, brk, limit, (if bytes < 5 then 16 else (bytes + 11) / 8 * 8) + alignment + 16)
  {
    var req := PaddedRequest(alignment, bytes);
    if req < MAX_REQUEST {
      RoomForAlignment(RequestSize(bytes), alignment);
      ExhaustedMeans(v, req, brk, limit);
    } else if HeapOk(v) {
      ChunksShort(v);
    }
  }

  /** No free chunk is as long as the memory up to the end of the segment. */
  lemma ChunksShort(v: View)
    requires HeapOk(v)
    ensures (forall p :: p in v.binned ==> v.binned[p] < v.end) && v.w.dvsize < v.end && v.w.topsize < v.end
  {
    forall p | p in v.binned ensures v.binned[p] < v.end { BinnedHere(v, p); ChunkHere(v, p); }
    DvSizes(v);
    TopHere(v);
    if v.w.dv != 0 { DvHere(v); ChunkHere(v, v.w.dv); }
  }

  lemma RoomForAlignment(nb: nat, alignment: nat)
    requires nb % 8 == 0 && alignment % 16 == 0
    ensures RequestSize(nb + alignment + MIN_CHUNK_SIZE - CHUNK_OVERHEAD) == nb + alignment + MIN_CHUNK_SIZE
  {}

  /** A spot inside a new chunk is not where an old one starts. */
  lemma SpotIsNew(v: View, v1: View, p: int, lead: nat)
    requires (NoHeap(v1) || HeapOk(v1)) && p in Used(v1.t) && 0 < lead < Used(v1.t)[p] && p !in Used(v.t) &&
             Used(v1.t) == Used(v.t)[p := Used(v1.t)[p]]
    ensures p + lead !in Used(v.t) && Used(v1.t) - {p} == Used(v.t)
    ensures Used(v1.t)[p] % 8 == 0
  {
    NothingInside(v1, p, p + lead);
    ChunkHere(v1, p);
    hide HeapOk;
    assert p + lead !in Used(v1.t);
  }

  lemma SizeInUse(v: View, p: int)
    requires (NoHeap(v) || HeapOk(v)) && p in Used(v.t)
    ensures p in v.w.head && v.w.head[p].size == Used(v.t)[p] && Used(v.t)[p] % 8 == 0
  {
    ChunkHere(v, p);
  }

  class Malloc {
    const bins: FreeBins
    const sys: Break
    var w: HeapWords
    var space: Space
    ghost var tile: Tiling

    ghost function V(): View
      reads this, bins
    {
      View(w, tile, space.base, space.base + space.size - TOP_FOOT_SIZE, bins.Binned())
    }

    /** The words among the chunks. */
    function Memory(): Words
      reads this, bins
    {
      Words(w.head, w.foot, bins.m)
    }

    /** The blocks and the words around them. */
    ghost function Now(): Store
      reads this, bins
    {
      StoreOf(V(), bins.m)
    }

    /** The segment is the memory from its base to the break, and nothing else was ever obtained. */
    predicate SpaceOk()
      reads this`space, sys
    {
      SpaceUpTo(sys.curBrk) && sys.curBrk < MaxBrk(sys.start)
    }

    predicate SpaceUpTo(brk: nat)
      reads this`space
    {
      0 < space.base && space.base % PAGE == 0 && space.size % PAGE == 0 && 0 < space.size &&
      space.base + space.size == brk && space.footprint == space.size <= space.maxFootprint &&
      space.leastAddr == space.base
    }

    ghost predicate Valid()
      reads this, bins, sys
    {
      bins.Valid() && sys.Valid() && sys.Current() % PAGE == 0 &&
      if w.top == 0 then NoHeap(V()) && space == Space(0, 0, 0, 0, 0, space.contiguous) else HeapOk(V()) && SpaceOk()
    }

    constructor (sys: Break)
      requires sys.Valid() && sys.Current() % PAGE == 0
      ensures Valid() && this.sys == sys && Used(tile) == map[] && fresh(bins)
    {
      this.sys := sys;
      bins := new FreeBins();
      w := HeapWords(map[], map[], 0, 0, 0, 0);
      space := Space(0, 0, 0, 0, 0, true);
      tile := map[];
    }

    // ----- insert_chunk and unlink_chunk

    method InsertChunk(p: int, s: nat)
      requires bins.Valid() && HeadsAgree(w.head, bins.Binned()) && NewChunk(bins.State(), p, s)
      modifies bins
      ensures bins.Valid() && bins.Binned() == old(bins.Binned())[p := s]
      ensures LinksWithin(old(bins.m), bins.m, old(bins.Binned()), bins.Binned())
    {
      hide *;
      if IsSmall(s) { bins.InsertSmallChunk(p, s); } else { bins.InsertLargeChunk(w.head, p, s); }
    }

    method UnlinkChunk(p: int, s: nat)
      requires bins.Valid() && p in bins.Binned() && bins.Binned()[p] == s
      modifies bins
      ensures bins.Valid() && bins.Binned() == old(bins.Binned()) - {p}
      ensures LinksWithin(old(bins.m), bins.m, old(bins.Binned()), bins.Binned())
    {
      hide *;
      if IsSmall(s) { bins.UnlinkSmallChunk(p, s); } else { bins.UnlinkLargeChunk(p); }
    }

    // ----- the ways a request is served

    /** The heap was v, and since then p has been taken out of its bin. */
    ghost predicate Unlinked(v: View, m: BinWords, p: int)
      reads this, bins, sys
    {
      bins.Valid() && sys.Valid() && sys.Current() % PAGE == 0 && SpaceOk() && HeapOk(v) && w.top != 0 &&
      p in v.binned &&
      V() == v.(binned := v.binned - {p}) && LinksWithin(m, bins.m, v.binned, bins.Binned())
    }

    method UseWhole(p: int, s: nat, nb: nat, ghost v: View, ghost m: BinWords)
      requires Unlinked(v, m, p) && s == v.binned[p] && nb <= s < nb + MIN_CHUNK_SIZE
      modifies this`w, this`tile
      ensures Valid() && Took(v, V(), p, nb)
      ensures Spared(StoreOf(v, m), Now())
    {
      hide HeapOk, BinsOk, Spared, LinksWithin, TagsSpare, Recut;
      BinnedHere(v, p);
      WholeOk(v, p);
      w := w.(head := SetInuseAndPinuse(w.head, p, s));
      tile := Recut(tile, Cut(p, p + s, p + s, true, true));
      assert V() == Whole(v, p);
      StepSpared(v, V(), m, bins.m);
      assert p !in Used(v.t);
    }

    /** The rest of p becomes the designated victim, by way of replace_dv: the old one, known to be small, goes to its bin. */
    method UsePartReplacingDv(p: int, rsize: nat, nb: nat, ghost v: View, ghost m: BinWords)
      requires Unlinked(v, m, p) && rsize == v.binned[p] - nb >= MIN_CHUNK_SIZE && MIN_CHUNK_SIZE <= nb &&
               nb % 8 == 0 && IsSmall(w.dvsize)
      modifies this`w, this`tile, bins
      ensures Valid() && Took(v, V(), p, nb)
      ensures Spared(StoreOf(v, m), Now())
    {
      hide HeapOk, BinsOk, Spared, LinksWithin, TagsSpare, Recut;
      BinnedHere(v, p);
      SplitReplacingDvOk(v, p, nb);
      var r := p + nb;
      w := SetSizeOfFree(w.(head := SetSizeOfInuse(w.head, p, nb)), r, rsize);
      ghost var m1, b1 := bins.m, bins.Binned();
      ReplaceDv(r, rsize, v);
      tile := Recut(tile, Cut(p, r, r + rsize, true, false));
      assert V() == SplitReplacingDv(v, p, nb);
      LinksThen(m, m1, bins.m, v.binned, b1, bins.Binned());
      StepSpared(v, V(), m, bins.m);
      assert p !in Used(v.t);
    }

    method ReplaceDv(p: int, s: nat, ghost v: View)
      requires bins.Valid() && HeapOk(v) && w.dv == v.w.dv && w.dvsize == v.w.dvsize && IsSmall(w.dvsize)
      requires bins.Binned().Keys <= v.binned.Keys
      modifies this`w, bins
      ensures bins.Valid() && w == old(w).(dv := p, dvsize := s)
      ensures bins.Binned() == if v.w.dv == 0 then old(bins.Binned()) else old(bins.Binned())[v.w.dv := v.w.dvsize]
      ensures LinksWithin(old(bins.m), bins.m, old(bins.Binned()), bins.Binned())
    {
      hide HeapOk, BinsOk, Spared, LinksWithin, TagsSpare;
      var dvs := w.dvsize;
      if v.w.dv != 0 { DvHere(v); }
      DvSizes(v);
      LinksSame(bins.m, bins.Binned());
      if dvs != 0 {
        bins.InsertSmallChunk(w.dv, dvs);
      }
      w := w.(dv := p, dvsize := s);
    }

    /** The rest of p goes back to a bin. */
    method UsePart(p: int, rsize: nat, nb: nat, ghost v: View, ghost m: BinWords)
      requires Unlinked(v, m, p) && rsize == v.binned[p] - nb >= MIN_CHUNK_SIZE && MIN_CHUNK_SIZE <= nb && nb % 8 == 0
      modifies this`w, this`tile, bins
      ensures Valid() && Took(v, V(), p, nb)
      ensures Spared(StoreOf(v, m), Now())
    {
      hide HeapOk, BinsOk, Spared, LinksWithin, TagsSpare, Recut;
      BinnedHere(v, p);
      SplitToBinOk(v, p, nb);
      var r := p + nb;
      w := SetSizeOfFree(w.(head := SetSizeOfInuse(w.head, p, nb)), r, rsize);
      RestFits(v, p, nb);
      ghost var m1, b1 := bins.m, bins.Binned();
      InsertChunk(r, rsize);
      tile := Recut(tile, Cut(p, r, r + rsize, true, false));
      assert V() == SplitToBin(v, p, nb);
      LinksThen(m, m1, bins.m, v.binned, b1, bins.Binned());
      StepSpared(v, V(), m, bins.m);
      assert p !in Used(v.t);
    }

    /** A chunk of small bin i is handed out whole. */
    method TakeFromBin(i: nat, nb: nat) returns (p: int)
      requires Valid() && w.top != 0 && i < NSMALLBINS && Bit(bins.m.smallmap, i) && nb <= 8 * i < nb + MIN_CHUNK_SIZE
      modifies this`w, this`tile, bins
      ensures p > 0
      ensures Valid() && Took(old(V()), V(), p, nb)
      ensures p in old(V()).binned && old(V()).binned[p] == 8 * i
      ensures Spared(old(Now()), Now())
    {
      hide HeapOk, BinsOk, Spared, LinksWithin, TagsSpare, Bit;
      ghost var v, m := V(), bins.m;
      p := bins.UnlinkFirstSmallChunk(i);
      UseWhole(p, 8 * i, nb, v, m);
    }

    /** A chunk of small bin i is cut; with sizes of four bytes the rest is never too small for a chunk. */
    method SplitFromBin(i: nat, nb: nat) returns (p: int)
      requires Valid() && w.top != 0 && i < NSMALLBINS && Bit(bins.m.smallmap, i) && nb + MIN_CHUNK_SIZE <= 8 * i
      requires nb > w.dvsize && MIN_CHUNK_SIZE <= nb && nb % 8 == 0
      modifies this`w, this`tile, bins
      ensures p > 0
      ensures Valid() && Took(old(V()), V(), p, nb)
      ensures p in old(V()).binned && old(V()).binned[p] == 8 * i
      ensures Spared(old(Now()), Now())
    {
      hide HeapOk, BinsOk, Spared, LinksWithin, TagsSpare, Bit;
      ghost var v, m := V(), bins.m;
      p := bins.UnlinkFirstSmallChunk(i);
      UsePartReplacingDv(p, 8 * i - nb, nb, v, m);
    }

    method UnlinkLarge(p: int)
      requires bins.Valid() && p in bins.Binned() && !IsSmall(bins.Binned()[p])
      modifies bins
      ensures bins.Valid() && bins.Binned() == old(bins.Binned()) - {p}
      ensures LinksWithin(old(bins.m), bins.m, old(bins.Binned()), bins.Binned())
    {
      hide *;
      bins.UnlinkLargeChunk(p);
    }

    /** tmalloc_small */
    method TmallocSmall(nb: nat) returns (p: int)
      requires Valid() && w.top != 0 && bins.m.treemap != 0 && MIN_CHUNK_SIZE <= nb < MIN_LARGE_SIZE && nb % 8 == 0 &&
               nb > w.dvsize
      modifies this`w, this`tile, bins
      ensures p > 0
      ensures Valid() && Took(old(V()), V(), p, nb) && SmallestFit(old(V()).binned, nb, p)
      ensures Spared(old(Now()), Now())
    {
      hide HeapOk, BinsOk, Spared, LinksWithin, TagsSpare, SmallestFit, Took;
      ghost var v, m := V(), bins.m;
      HeapHeads(v);
      PositiveAddresses(v);
      var rsize: int;
      p, rsize := bins.FindSmallest(w.head, nb);
      FitSizes(v.binned, nb, p);
      UnlinkLarge(p);
      if rsize < MIN_CHUNK_SIZE {
        UseWhole(p, rsize + nb, nb, v, m);
      } else {
        UsePartReplacingDv(p, rsize, nb, v, m);
      }
    }

    /** tmalloc_large: a chunk that fits better than dv, or 0 so that the caller tries dv. */
    method TmallocLarge(nb: nat) returns (p: int)
      requires Valid() && w.top != 0 && LargeSize(nb)
      modifies this`w, this`tile, bins
      ensures Valid()
      ensures if p != 0 then Took(old(V()), V(), p, nb) && BestCandidate(old(V()), nb, p)
              else V() == old(V()) && bins.m == old(bins.m) &&
                   (if nb <= w.dvsize then BestCandidate(V(), nb, w.dv) else !SomeCandidate(V(), nb))
      ensures Spared(old(Now()), Now())
    {
      hide HeapOk, BinsOk, Spared, LinksWithin, TagsSpare, SmallestFit, NoFit, Took, BestCandidate, SomeCandidate;
      ghost var v, m := V(), bins.m;
      HeapHeads(v);
      var rsize: int;
      p, rsize := bins.FindBestFit(w.head, nb);
      LargeChoice(v, nb, p, rsize);
      if p != 0 && rsize < Minus32(w.dvsize, nb) {
        FitSizes(v.binned, nb, p);
        UnlinkLarge(p);
        if rsize < MIN_CHUNK_SIZE {
          UseWhole(p, rsize + nb, nb, v, m);
        } else {
          UsePart(p, rsize, nb, v, m);
        }
        return;
      }
      p := 0;
      NothingStored(Now(), Now());
    }

    /** The designated victim is cut. */
    method SplitDv(nb: nat) returns (p: int)
      requires Valid() && w.top != 0 && MIN_CHUNK_SIZE <= nb && nb + MIN_CHUNK_SIZE <= w.dvsize && nb % 8 == 0
      modifies this`w, this`tile
      ensures Valid() && Took(old(V()), V(), p, nb) && p == old(w.dv)
      ensures Spared(old(Now()), Now())
    {
      hide HeapOk, BinsOk, Spared, LinksWithin, TagsSpare, Recut, SetSizeOfFree, SetSizeOfInuse, SplitWords;
      ghost var v := V();
      DvSizes(v);
      DvHere(v);
      p := w.dv;
      SplitToDvOk(v, p, nb);
      HeadsCommute(v.w, p, nb, v.w.dvsize - nb);
      var rsize := w.dvsize - nb;
      var r := p + nb;
      w := w.(dv := r, dvsize := rsize);
      w := SetSizeOfFree(w, r, rsize);
      w := w.(head := SetSizeOfInuse(w.head, p, nb));
      tile := Recut(tile, Cut(p, r, r + rsize, true, false));
      assert v.binned - {p} == v.binned;
      assert V() == SplitToDv(v, p, nb);
      assert HeapOk(V());
      LinksSame(bins.m, v.binned);
      StepSpared(v, V(), bins.m, bins.m);
      hide SplitToDv, Splits;
      assert p !in Used(v.t);
    }

    /** The designated victim is handed out whole. */
    method ExhaustDv(nb: nat) returns (p: int)
      requires Valid() && w.top != 0 && nb <= w.dvsize < nb + MIN_CHUNK_SIZE && nb > 0
      modifies this`w, this`tile
      ensures Valid() && Took(old(V()), V(), p, nb) && p == old(w.dv)
      ensures Spared(old(Now()), Now())
    {
      hide HeapOk, BinsOk, Spared, LinksWithin, TagsSpare, Recut;
      ghost var v := V();
      DvSizes(v);
      DvHere(v);
      p := w.dv;
      WholeOk(v, p);
      var dvs := w.dvsize;
      w := w.(dv := 0, dvsize := 0);
      w := w.(head := SetInuseAndPinuse(w.head, p, dvs));
      tile := Recut(tile, Cut(p, p + dvs, p + dvs, true, true));
      assert v.binned - {p} == v.binned;
      assert V() == Whole(v, p);
      LinksSame(bins.m, v.binned);
      StepSpared(v, V(), bins.m, bins.m);
      assert p !in Used(v.t);
    }

    /** top is cut. */
    method TakeTop(nb: nat) returns (p: int)
      requires Valid() && w.top != 0 && MIN_CHUNK_SIZE <= nb < w.topsize && nb % 8 == 0
      modifies this`w, this`tile
      ensures Valid() && Took(old(V()), V(), p, nb) && p == old(w.top)
      ensures Spared(old(Now()), Now())
    {
      hide HeapOk, BinsOk, Spared, LinksWithin, TagsSpare, Recut;
      ghost var v := V();
      TopHere(v);
      SplitTopOk(v, nb);
      var rsize := w.topsize - nb;
      p := w.top;
      var r := p + nb;
      w := w.(topsize := rsize, top := r);
      w := w.(head := w.head[r := Head(rsize, false, true)]);
      w := w.(head := SetSizeOfInuse(w.head, p, nb));
      tile := Recut(tile, Cut(p, r, r + rsize, true, false));
      assert V() == SplitTop(v, nb);
      LinksSame(bins.m, v.binned);
      StepSpared(v, V(), bins.m, bins.m);
      assert p !in Used(v.t);
    }

    // ----- sys_alloc

    /** CALL_MORECORE, with increments too small to wrap. */
    method CallMorecore(increment: nat) returns (r: nat)
      requires sys.Valid() && increment < HALF_MAX_SIZE_T
      modifies sys`curBrk
      ensures sys.Valid()
      ensures if old(sys.Current()) + increment < MaxBrk(sys.start)
              then r == old(sys.Current()) && sys.curBrk == r + increment && r > 0 && r != CMFAIL
              else r == CMFAIL && sys.Current() == sys.curBrk == old(sys.Current())
    {
      assert old(sys.Current()) < 0x7000_1000;
      r := sys.Sbrk(increment);
    }

    /** The call of sbrk that is expected to extend the segment without a gap. */
    method MoreContiguous(nb: nat, asize: nat) returns (tbase: nat, tsize: nat)
      requires Valid() && w.topsize <= nb && asize == GranularityAlign(nb + SYS_ALLOC_PADDING) && nb < asize < WORD &&
               nb % 8 == 0
      modifies sys`curBrk, this`space
      ensures sys.Valid() && space == old(space).(contiguous := tbase != CMFAIL)
      ensures if tbase == CMFAIL
              then sys.Current() == old(sys.Current()) && (old(sys.curBrk) != 0 ==> sys.curBrk == old(sys.curBrk))
              else tbase == old(sys.Current()) && sys.curBrk == tbase + tsize < MaxBrk(sys.start) &&
                   tsize % PAGE == 0 &&
                   tbase > 0 && w.topsize + tsize > nb + TOP_FOOT_SIZE && tsize <= asize
    {
      hide HeapOk, BinsOk, Spared, LinksWithin, TagsSpare;
      AlignedSizes(nb, w.topsize, asize);
      tbase, tsize := CMFAIL, 0;
      var br: nat, ssize: int := CMFAIL, asize;
      if w.top == 0 {
        var base := CallMorecore(0);
        var pad := PageUp(base) - base;
        if base != CMFAIL {
          if base % PAGE != 0 { ssize := ssize + pad; }
          if ssize > nb && ssize < HALF_MAX_SIZE_T {
            br := CallMorecore(ssize);
            if br == base { tbase, tsize := base, ssize; }
          }
        }
      } else {
        ssize := GranularityAlign(nb - w.topsize + SYS_ALLOC_PADDING);
        if ssize < HALF_MAX_SIZE_T {
          br := CallMorecore(ssize);
          if br == space.base + space.size { tbase, tsize := br, ssize; }
        }
      }
      space := space.(contiguous := true);
      if tbase == CMFAIL {
        // the break moves for this allocator alone, so it is never found somewhere else
        assert br == CMFAIL;
        space := space.(contiguous := false);
      }
    }

    /** The call of sbrk that may leave a gap. */
    method MoreAnywhere(nb: nat, asize: nat) returns (tbase: nat, tsize: nat)
      requires sys.Valid() && asize == GranularityAlign(nb + SYS_ALLOC_PADDING) && nb < asize < WORD &&
               sys.Current() % PAGE == 0
      modifies sys`curBrk
      ensures sys.Valid()
      ensures if tbase == CMFAIL
              then sys.Current() == old(sys.Current()) && sys.Current() + asize >= MaxBrk(sys.start) &&
                   (old(sys.curBrk) != 0 ==> sys.curBrk == old(sys.curBrk))
              else tbase == old(sys.Current()) && sys.curBrk == tbase + tsize < MaxBrk(sys.start) && tsize == asize && tbase > 0
    {
      AlignedSizes(nb, 0, asize);
      hide GranularityAlign;
      tbase, tsize := CMFAIL, 0;
      if asize < HALF_MAX_SIZE_T {
        var br := CallMorecore(asize);
        var end := CallMorecore(0);
        if br != CMFAIL && end != CMFAIL && br < end {
          var ssize := end - br;
          if ssize > nb + TOP_FOOT_SIZE { tbase, tsize := br, ssize; }
        }
      }
    }

    method CountFootprint(tsize: nat)
      modifies this`space
      ensures space == old(space).(footprint := space.footprint, maxFootprint := space.maxFootprint)
      ensures space.footprint == old(space.footprint) + tsize <= space.maxFootprint
    {
      space := space.(footprint := space.footprint + tsize);
      if space.footprint > space.maxFootprint { space := space.(maxFootprint := space.footprint); }
    }

    /** The first segment. */
    method FirstSegment(tbase: nat, tsize: nat)
      requires bins.Valid() && sys.Valid() && sys.curBrk == tbase + tsize < MaxBrk(sys.start) && tbase > 0 &&
               tbase % PAGE == tsize % PAGE == 0
      requires w.top == 0 && NoHeap(V()) && space == Space(0, 0, 0, 0, 0, space.contiguous) && tsize > TOP_FOOT_SIZE
      modifies this`w, this`tile, this`space
      ensures Valid() && Used(tile) == Used(old(tile)) && space.contiguous == old(space.contiguous)
      ensures w.top == tbase && w.topsize == tsize - TOP_FOOT_SIZE
      ensures Spared(old(Now()), Now())
    {
      hide HeapOk, BinsOk, Spared, LinksWithin, TagsSpare;
      ghost var v := V();
      FirstTopOk(v, tbase, tsize - TOP_FOOT_SIZE);
      CountFootprint(tsize);
      space := space.(leastAddr := tbase, base := tbase, size := tsize);
      w := InitTop(w, tbase, tsize - TOP_FOOT_SIZE);
      tile := map[tbase := Cell(tsize - TOP_FOOT_SIZE, false)];
      assert V() == FirstTop(v, tbase, tsize - TOP_FOOT_SIZE);
      NothingStored(old(Now()), Now());
    }

    /** More room at the end of the segment: the new memory always starts where the segment ends, so no other is added. */
    method MoreSegment(tbase: nat, tsize: nat)
      requires bins.Valid() && sys.Valid() && sys.curBrk == tbase + tsize < MaxBrk(sys.start) &&
               tbase % PAGE == tsize % PAGE == 0
      requires w.top != 0 && HeapOk(V()) && SpaceUpTo(tbase)
      modifies this`w, this`tile, this`space
      ensures Valid() && Used(tile) == Used(old(tile)) && space.contiguous == old(space.contiguous)
      ensures w.top == old(w.top) && w.topsize == old(w.topsize) + tsize
      ensures Spared(old(Now()), Now())
    {
      hide HeapOk, BinsOk, Spared, LinksWithin, TagsSpare;
      ghost var v := V();
      MoreTopOk(v, tsize);
      MoreTopSpared(v, tsize, bins.m);
      hide StoreOf, ImageOk, BuffersOk, MaxBrk, NoHeap, PageUp;
      CountFootprint(tsize);
      if tbase == space.base + space.size {
        space := space.(size := space.size + tsize);
        tile := tile[w.top := Cell(w.topsize + tsize, false)];
        w := InitTop(w, w.top, w.topsize + tsize);
        assert V() == MoreTop(v, tsize);
        assert HeapOk(V());
        assert w.top == v.w.top && w.topsize == v.w.topsize + tsize;
        hide MoreTop, InitTop;
        assert SpaceOk();
        hide SpaceUpTo, SpaceOk;
      } else {
        assert false;
      }
    }

    /** sys_alloc */
    method SysAlloc(nb: nat) returns (p: int)
      requires Valid() && w.topsize <= nb &&
               (nb == WORD - 1 || (MIN_CHUNK_SIZE <= nb < WORD - SYS_ALLOC_PADDING && nb % 8 == 0))
      modifies this`w, this`tile, this`space, sys`curBrk
      ensures Valid()
      ensures p == 0 ==> Unchanged() && NoMoreFor(nb)
      ensures p != 0 ==> nb < WORD - 1 && Took(old(V()), V(), p, nb) &&
                         p == (if old(w.top) == 0 then old(sys.Current()) else old(w.top))
      ensures Spared(old(Now()), Now())
    {
      hide HeapOk, BinsOk, Spared, LinksWithin, TagsSpare, Took, Tiled, GranularityAlign, PageUp;
      ghost var v := V();
      AllocationSize(nb);
      var asize := GranularityAlign((nb + SYS_ALLOC_PADDING) % WORD);
      p := 0;
      NothingStored(Now(), Now());
      if asize <= nb { return; }
      AlignedSizes(nb, w.topsize, asize);
      var tbase, tsize := CMFAIL, 0;
      if space.contiguous {
        tbase, tsize := MoreContiguous(nb, asize);
      }
      if tbase == CMFAIL {
        tbase, tsize := MoreAnywhere(nb, asize);
      }
      if tbase != CMFAIL {
        if w.top == 0 {
          FirstSegment(tbase, tsize);
        } else {
          MoreSegment(tbase, tsize);
        }
        ghost var v1, s1 := V(), Now();
        if nb < w.topsize {
          p := TakeTop(nb);
          TookLater(v, v1, V(), p, nb);
          SparedThen(old(Now()), s1, Now());
        }
      }
    }

    // ----- dlmalloc

    /** Neither the blocks nor the words around them nor the break are different. */
    twostate predicate Unchanged()
      reads this, bins, sys
    {
      V() == old(V()) && bins.m == old(bins.m) && sys.Current() == old(sys.Current())
    }

    /** With a page to spare nb bytes more would pass MAX_BRK. */
    predicate NoMoreFor(nb: nat)
      reads sys
    {
      sys.Current() + nb + SYS_ALLOC_PADDING + PAGE > MaxBrk(sys.start)
    }

    /** The part of dlmalloc that serves a small request from a bin; 0 when dv or top is to be tried. */
    method SmallFromBins(nb: nat) returns (p: int)
      requires Valid() && MIN_CHUNK_SIZE <= nb < MIN_LARGE_SIZE && nb % 8 == 0
      modifies this`w, this`tile, bins
      ensures Valid()
      ensures if p != 0 then Took(old(V()), V(), p, nb) && Chosen(old(V()), nb, p)
              else V() == old(V()) && bins.m == old(bins.m) && !HasSize(V().binned, nb) &&
                   !(IsSmall(nb + 8) && HasSize(V().binned, nb + 8)) &&
                   (nb <= w.dvsize || !SomeCandidate(V(), nb))
      ensures Spared(old(Now()), Now())
    {
      hide HeapOk, BinsOk, Spared, LinksWithin, TagsSpare, Bit, ShiftRight, EitherBin, ExactBin, BinAfter,
           SmallestFit, Took, Chosen, HasSize, SomeCandidate, NoneBetween;
      ghost var v := V();
      NothingStored(Now(), Now());
      var idx := nb / 8;
      var smallbits := ShiftRight(bins.m.smallmap, idx);
      SmallBins(bins.State(), v, nb);
      EmptyHeap(bins.State(), v);
      if EitherBin(smallbits) {
        idx := ExactBin(smallbits, idx);
        p := TakeFromBin(idx, nb);
      } else if nb > w.dvsize {
        SmallChoice(bins.State(), v, nb);
        if smallbits != 0 {
          var i := BinAfter(smallbits, idx);
          p := SplitFromBin(i, nb);
        } else if bins.m.treemap != 0 {
          p := TmallocSmall(nb);
        } else {
          p := 0;
        }
      } else {
        p := 0;
      }
    }

    /** The part of dlmalloc that looks in the bins; 0 when dv, top and sbrk are left to be tried. */
    method FromBins(bytes: nat) returns (p: int, nb: nat)
      requires Valid() && bytes < WORD
      modifies this`w, this`tile, bins
      ensures Valid() && nb == SizeWanted(bytes)
      ensures if p != 0 then Took(old(V()), V(), p, nb) && Chosen(old(V()), nb, p)
              else V() == old(V()) && bins.m == old(bins.m) && OnlyDvLeft(V(), nb)
      ensures bytes >= MAX_REQUEST ==> p == 0
      ensures Spared(old(Now()), Now())
    {
      hide HeapOk, BinsOk, Spared, LinksWithin, TagsSpare, Took, Chosen, SomeCandidate, HasSize, BestCandidate;
      ghost var v := V();
      NothingStored(Now(), Now());
      p := 0;
      if bytes >= MAX_REQUEST {
        nb := WORD - 1;
        NothingThatBig(bins.State(), v);
      } else {
        RequestSizeFits(bytes);
        nb := RequestSize(bytes);
        if bytes <= MAX_SMALL_REQUEST {
          p := SmallFromBins(nb);
          SmallLeft(v, nb);
        } else {
          LargeChosen(v, nb);
          NoLarge(bins.State(), v, nb);
          if bins.m.treemap != 0 {
            EmptyHeap(bins.State(), v);
            p := TmallocLarge(nb);
          }
        }
      }
    }

    /** dlmalloc */
    method Allocate(bytes: nat) returns (mem: int)
      requires Valid() && bytes < WORD
      modifies this`w, this`tile, this`space, bins, sys`curBrk
      ensures Valid()
      ensures mem != 0 ==> bytes < MAX_REQUEST && Took(old(V()), V(), mem - 8, RequestSize(bytes)) &&
                           ComesFrom(old(V()), old(sys.Current()), RequestSize(bytes), mem - 8)
      ensures mem == 0 ==> Unchanged() && Exhausted(V(), SizeWanted(bytes)) && NoMoreFor(SizeWanted(bytes))
      ensures mem == 0 && bytes < 0xFFFF_FFC0 ==>
                var s := if bytes < 5 then 16 else (bytes + 11) / 8 * 8;
                (forall p :: p in bins.Binned() ==> bins.Binned()[p] < s) && w.dvsize < s && w.topsize <= s &&
                sys.Current() + s + 48 + 4096 > sys.start - 0x8000 + 0xf0000
      ensures Spared(old(Now()), Now())
    {
      hide HeapOk, BinsOk, Spared, LinksWithin, TagsSpare, Took, Chosen, SomeCandidate, RequestSize, NoHeap;
      ghost var v := V();
      var p, nb := FromBins(bytes);
      WantedSizes(bytes);
      if p == 0 {
        LastResorts(v, nb);
        if nb <= w.dvsize {
          if w.dvsize - nb >= MIN_CHUNK_SIZE { p := SplitDv(nb); } else { p := ExhaustDv(nb); }
        } else if nb < w.topsize {
          p := TakeTop(nb);
        } else {
          p := SysAlloc(nb);
          if p == 0 {
            if bytes < 0xFFFF_FFC0 { ExhaustedMeans(v, bytes, sys.Current(), MaxBrk(sys.start)); }
            return 0;
          }
          assert ComesFrom(v, old(sys.Current()), nb, p);
        }
      }
      if Chosen(v, nb, p) { ServedBefore(v, nb, p); }
      hide ComesFrom;
      TookChunk(v, V(), p, nb);
      return p + 8;
    }

    // ----- dispose_chunk and dlfree

    /** The heap was v, and the chunk before p, if free, has since been taken out of its bin to be merged with p. */
    ghost predicate Merging(v: View, m: BinWords, p: int)
      reads this, bins, sys
    {
      HeapOk(v) && p in v.t && v.t[p].used && InUse(v, p) && bins.Valid() && sys.Valid() &&
      sys.Current() % PAGE == 0 && SpaceOk() &&
      w.top != 0 && V() == v.(binned := v.binned - {Start(v, p)}) && LinksWithin(m, bins.m, v.binned, bins.Binned())
    }

    /** The merged chunk becomes top. */
    method MergeIntoTop(a: int, size: nat, ghost v: View, ghost m: BinWords, ghost p: int)
      requires Merging(v, m, p) && a == Start(v, p) && size == NextOf(v, p) - a && NextOf(v, p) == w.top
      modifies this`w, this`tile
      ensures Valid() && V() == Release(v, p)
      ensures LinksWithin(m, bins.m, v.binned, bins.Binned())
    {
      hide HeapOk, BinsOk, Spared, LinksWithin, TagsSpare, SpaceOk, InUse, Recut;
      Neighbourhood(v, p);
      ReleaseOk(v, p);
      ReleaseFits(v, p);
      var tsize := w.topsize + size;
      w := w.(topsize := tsize, top := a, head := w.head[a := Head(tsize, false, true)]);
      if a == w.dv { w := w.(dv := 0, dvsize := 0); }
      tile := Recut(tile, ReleaseCut(v, p));
      assert v.binned - {a} == v.binned - {a, NextOf(v, p)};
      assert V() == Release(v, p);
    }

    /** The chunk behind is dv, which grows to the front. */
    method MergeIntoDv(a: int, size: nat, ghost v: View, ghost m: BinWords, ghost p: int)
      requires Merging(v, m, p) && a == Start(v, p) && size == NextOf(v, p) - a && NextOf(v, p) == w.dv && w.dv != w.top
      modifies this`w, this`tile
      ensures Valid() && V() == Release(v, p)
      ensures LinksWithin(m, bins.m, v.binned, bins.Binned())
    {
      hide HeapOk, BinsOk, Spared, LinksWithin, TagsSpare, SpaceOk, InUse, Recut;
      Neighbourhood(v, p);
      ReleaseOk(v, p);
      ReleaseFits(v, p);
      var dsize := w.dvsize + size;
      w := SetSizeOfFree(w.(dv := a, dvsize := dsize), a, dsize);
      tile := Recut(tile, ReleaseCut(v, p));
      assert v.binned - {a} == v.binned - {a, NextOf(v, p)};
      assert V() == Release(v, p);
    }

    /** The chunk behind is in a bin and is merged; the result is filed unless it is dv. */
    method MergeWithNext(a: int, size: nat, next: int, ghost v: View, ghost m: BinWords, ghost p: int)
      requires Merging(v, m, p) && a == Start(v, p) && size == next - a && next == NextOf(v, p) && next != w.top &&
               next != w.dv && !v.t[next].used
      modifies this`w, this`tile, bins
      ensures Valid() && V() == Release(v, p)
      ensures LinksWithin(m, bins.m, v.binned, bins.Binned())
    {
      hide HeapOk, BinsOk, Spared, LinksWithin, TagsSpare, SpaceOk, InUse, Recut, SetSizeOfFree, SetFreeWithPinuse;
      Neighbourhood(v, p);
      ReleaseOk(v, p);
      ReleaseFits(v, p);
      var nsize := w.head[next].size;
      var psize := size + nsize;
      ghost var m1, b1 := bins.m, bins.Binned();
      UnlinkChunk(next, nsize);
      ghost var m2, b2 := bins.m, bins.Binned();
      LinksThen(m, m1, m2, v.binned, b1, b2);
      assert v.binned - {a} - {next} == v.binned - {a, next};
      w := SetSizeOfFree(w, a, psize);
      tile := Recut(tile, ReleaseCut(v, p));
      if a == w.dv {
        w := w.(dvsize := psize);
      } else {
        InsertChunk(a, psize);
        LinksThen(m, m2, bins.m, v.binned, b2, bins.Binned());
      }
      assert V() == Release(v, p);
    }

    /** The chunk behind is in use; the chunk is dv already or filed. */
    method MergeWithNothing(a: int, size: nat, next: int, ghost v: View, ghost m: BinWords, ghost p: int)
      requires Merging(v, m, p) && a == Start(v, p) && size == next - a && next == NextOf(v, p) && v.t[next].used
      modifies this`w, this`tile, bins
      ensures Valid() && V() == Release(v, p)
      ensures LinksWithin(m, bins.m, v.binned, bins.Binned())
    {
      hide HeapOk, BinsOk, Spared, LinksWithin, TagsSpare, SpaceOk, InUse, Recut, SetSizeOfFree, SetFreeWithPinuse;
      Neighbourhood(v, p);
      ReleaseOk(v, p);
      ReleaseFits(v, p);
      ghost var m1, b1 := bins.m, bins.Binned();
      assert v.binned - {a} == v.binned - {a, next};
      w := SetFreeWithPinuse(w, a, size, next);
      tile := Recut(tile, ReleaseCut(v, p));
      if a == w.dv {
        w := w.(dvsize := size);
      } else {
        InsertChunk(a, size);
        LinksThen(m, m1, bins.m, v.binned, b1, bins.Binned());
      }
      assert V() == Release(v, p);
    }

    /** dispose_chunk, and dlfree but for what dlfree checks before and counts after. */
    method Dispose(chunk: int, size: nat)
      requires Valid() && chunk in tile && tile[chunk] == Cell(size, true)
      modifies this`w, this`tile, bins
      ensures Valid() && Used(tile) == Used(old(tile)) - {chunk}
      ensures Spared(old(Now()), Now())
    {
      hide HeapOk, BinsOk, Spared, LinksWithin, TagsSpare, SpaceOk, InUse, Release;
      ghost var v, m := V(), bins.m;
      LinksSame(m, v.binned);
      Neighbourhood(v, chunk);
      ReleaseOk(v, chunk);
      ReleaseFits(v, chunk);
      var p, psize := chunk, size;
      var next := p + psize;
      if !w.head[p].pinuse {
        var prevsize := w.foot[p];
        var prev := p - prevsize;
        psize := psize + prevsize;
        p := prev;
        PrevHere(v, chunk);
        if p != w.dv {
          UnlinkChunk(p, prevsize);
        }
      } else {
        PrevHere(v, chunk);
      }
      if !w.head[next].cinuse {
        if next == w.top {
          MergeIntoTop(p, psize, v, m, chunk);
        } else if next == w.dv {
          MergeIntoDv(p, psize, v, m, chunk);
        } else {
          MergeWithNext(p, psize, next, v, m, chunk);
        }
      } else {
        MergeWithNothing(p, psize, next, v, m, chunk);
      }
      StepSpared(v, V(), m, bins.m);
    }

    /** dlfree */
    method Free(mem: int)
      requires Valid() && (mem == 0 || mem - 8 in Used(tile))
      modifies this`w, this`tile, bins
      ensures Valid() && Used(tile) == if mem == 0 then Used(old(tile)) else Used(old(tile)) - {mem - 8}
      ensures Spared(old(Now()), Now())
    {
      hide HeapOk, BinsOk, Spared, LinksWithin, TagsSpare;
      NothingStored(Now(), Now());
      if mem != 0 {
        var p := mem - 8;
        ghost var v := V();
        ChunkHere(v, p);
        var psize := w.head[p].size;
        Dispose(p, psize);
        TrimNeverDue();
      }
    }

    lemma SegmentLow()
      requires Valid()
      ensures (NoHeap(V()) || HeapOk(V())) && V().end < 0x10_0000 && MaxBrk(sys.start) < 0x10_0000
    {}

    /** top never grows to the size at which dlfree would give memory back. */
    lemma TrimNeverDue()
      requires Valid()
      ensures w.topsize <= DEFAULT_TRIM_THRESHOLD
    {
      if w.top != 0 { TopHere(V()); ChunkHere(V(), w.top); }
    }

    // ----- try_realloc_chunk

    /** The rest of a chunk in use after nb bytes is made a chunk in use and given back. */
    method GiveBackTail(p: int, nb: nat)
      requires Valid() && p in Used(tile) && nb % 8 == 0 && MIN_CHUNK_SIZE <= nb && nb + MIN_CHUNK_SIZE <= Used(tile)[p]
      modifies this`w, this`tile, bins
      ensures Valid() && Used(tile) == old(Used(tile))[p := nb]
      ensures Spared(old(Now()), Now())
    {
      hide HeapOk, BinsOk, Spared, LinksWithin, TagsSpare, SpaceOk, Recut, SetInuse;
      ghost var v := V();
      ChunkHere(v, p);
      var size := w.head[p].size;
      var rsize := size - nb;
      SplitUsedOk(v, p, nb);
      var r := p + nb;
      w := w.(head := SetInuse(w.head, p, nb));
      w := w.(head := SetInuse(w.head, r, rsize));
      tile := Recut(tile, Cut(p, r, p + size, true, true));
      assert V() == SplitUsed(v, p, nb);
      LinksSame(bins.m, v.binned);
      StepSpared(v, V(), bins.m, bins.m);
      SecondPart(v, p, nb, tile);
      hide SplitUsed;
      ghost var s1 := Now();
      Dispose(r, rsize);
      SparedThen(old(Now()), s1, Now());
    }

    /** A chunk that is big enough: what it does not need is given back if it is a chunk. */
    method Shrink(p: int, nb: nat)
      requires Valid() && p in Used(tile) && MIN_CHUNK_SIZE <= nb <= Used(tile)[p] && nb % 8 == 0
      modifies this`w, this`tile, bins
      ensures Valid() && Fitted(old(V()), V(), p, nb)
      ensures Spared(old(Now()), Now())
    {
      hide HeapOk, BinsOk, Spared, LinksWithin, TagsSpare, SpaceOk;
      NothingStored(Now(), Now());
      BehindUsed(V(), p);
      if w.head[p].size - nb >= MIN_CHUNK_SIZE {
        GiveBackTail(p, nb);
      }
    }

    method GrowTop(p: int, nb: nat)
      requires Valid() && Grows(V(), p) && p + tile[p].size == w.top && nb % 8 == 0 &&
               tile[p].size <= nb < tile[p].size + w.topsize
      modifies this`w, this`tile
      ensures Valid() && Fitted(old(V()), V(), p, nb)
      ensures Spared(old(Now()), Now())
    {
      hide HeapOk, BinsOk, Spared, LinksWithin, TagsSpare, SpaceOk, Recut;
      ghost var v := V();
      GrowHere(v, p);
      GrowIntoTopOk(v, p, nb);
      var oldsize := w.head[p].size;
      var newsize := oldsize + w.topsize;
      var newtopsize := newsize - nb;
      var newtop := p + nb;
      w := w.(head := SetInuse(w.head, p, nb));
      w := w.(head := w.head[newtop := Head(newtopsize, false, true)], top := newtop, topsize := newtopsize);
      tile := Recut(tile, GrowCut(v, p, nb, false));
      assert V() == GrowIntoTop(v, p, nb);
      LinksSame(bins.m, v.binned);
      StepSpared(v, V(), bins.m, bins.m);
    }

    /** The chunk behind p is dv and what p does not need stays dv. */
    method GrowPartOfDv(p: int, nb: nat)
      requires Valid() && Grows(V(), p) && p + tile[p].size == w.dv && nb % 8 == 0 && tile[p].size <= nb &&
               nb + MIN_CHUNK_SIZE <= Joint(V(), p)
      modifies this`w, this`tile
      ensures Valid() && Fitted(old(V()), V(), p, nb)
      ensures Spared(old(Now()), Now())
    {
      hide HeapOk, BinsOk, Spared, LinksWithin, TagsSpare, SpaceOk, Recut, SetInuse, HeadAt, SetSizeOfFree;
      ghost var v := V();
      GrowHere(v, p);
      GrowIntoDvOk(v, p, nb);
      var dsize := w.head[p].size + w.dvsize - nb;
      var r := p + nb;
      var n := r + dsize;
      w := w.(head := SetInuse(w.head, p, nb));
      w := SetSizeOfFree(w, r, dsize);
      w := w.(head := w.head[n := HeadAt(w.head, n).(pinuse := false)], dvsize := dsize, dv := r);
      tile := Recut(tile, GrowCut(v, p, nb, false));
      assert V() == GrowIntoDv(v, p, nb);
      LinksSame(bins.m, v.binned);
      StepSpared(v, V(), bins.m, bins.m);
      hide GrowIntoDv;
    }

    /** p takes the whole of the free chunk behind it, which is dv or has just left its bin. */
    method GrowByAll(p: int, newsize: nat, nb: nat, ghost v: View, ghost m: BinWords)
      requires HeapOk(v) && Grows(v, p) && p + v.t[p].size != v.w.top && newsize == Joint(v, p) &&
               nb <= newsize < nb + MIN_CHUNK_SIZE
      requires bins.Valid() && sys.Valid() && sys.Current() % PAGE == 0 && SpaceOk() && w.top != 0
      requires var n := p + v.t[p].size;
               V() == v.(binned := v.binned - {n}, w := if n == v.w.dv then v.w.(dv := 0, dvsize := 0) else v.w)
      requires LinksWithin(m, bins.m, v.binned, bins.Binned())
      modifies this`w, this`tile
      ensures Valid() && Fitted(v, V(), p, nb)
      ensures Spared(StoreOf(v, m), Now())
    {
      hide HeapOk, BinsOk, Spared, LinksWithin, TagsSpare, SpaceOk, Recut;
      GrowWholeOk(v, p);
      w := w.(head := SetInuse(w.head, p, newsize));
      tile := Recut(tile, GrowCut(v, p, newsize, true));
      assert V() == GrowWhole(v, p);
      StepSpared(v, V(), m, bins.m);
      hide GrowWhole;
    }

    method GrowDv(p: int, nb: nat)
      requires Valid() && Grows(V(), p) && p + tile[p].size == w.dv && nb % 8 == 0 &&
               tile[p].size <= nb <= tile[p].size + w.dvsize
      modifies this`w, this`tile
      ensures Valid() && Fitted(old(V()), V(), p, nb)
      ensures Spared(old(Now()), Now())
    {
      hide HeapOk, BinsOk, Spared, LinksWithin, TagsSpare, SpaceOk, Recut, Fitted;
      ghost var v := V();
      GrowHere(v, p);
      var newsize := w.head[p].size + w.dvsize;
      if newsize - nb >= MIN_CHUNK_SIZE {
        GrowPartOfDv(p, nb);
      } else {
        assert v.binned - {v.w.dv} == v.binned;
        w := w.(dvsize := 0, dv := 0);
        LinksSame(bins.m, v.binned);
        GrowByAll(p, newsize, nb, v, bins.m);
      }
    }

    /** The chunk behind p has just left its bin, and what p does not need of it is given back. */
    method GrowByPart(p: int, nb: nat, rsize: nat, ghost v: View, ghost m: BinWords)
      requires HeapOk(v) && Grows(v, p) && p + v.t[p].size in v.binned && v.t[p].size <= nb && nb % 8 == 0 &&
               rsize == Joint(v, p) - nb >= MIN_CHUNK_SIZE
      requires bins.Valid() && sys.Valid() && sys.Current() % PAGE == 0 && SpaceOk() && w.top != 0
      requires V() == v.(binned := v.binned - {p + v.t[p].size})
      requires LinksWithin(m, bins.m, v.binned, bins.Binned())
      modifies this`w, this`tile, bins
      ensures Valid() && Fitted(v, V(), p, nb)
      ensures Spared(StoreOf(v, m), Now())
    {
      hide HeapOk, BinsOk, Spared, LinksWithin, TagsSpare, SpaceOk, Recut, SetInuse;
      GrowHere(v, p);
      GrowPartOk(v, p, nb);
      var r := p + nb;
      w := w.(head := SetInuse(w.head, p, nb));
      w := w.(head := SetInuse(w.head, r, rsize));
      tile := Recut(tile, GrowCut(v, p, nb, true));
      assert V() == GrowPart(v, p, nb);
      StepSpared(v, V(), m, bins.m);
      GrownPart(v, p, nb, tile);
      hide GrowPart;
      ghost var s1 := Now();
      Dispose(r, rsize);
      SparedThen(StoreOf(v, m), s1, Now());
    }

    /** The chunk behind p is in a bin. */
    method GrowNext(p: int, nb: nat)
      requires Valid() && Grows(V(), p) && p + tile[p].size in bins.Binned() && nb % 8 == 0 &&
               tile[p].size <= nb <= Joint(V(), p)
      modifies this`w, this`tile, bins
      ensures Valid() && Fitted(old(V()), V(), p, nb)
      ensures Spared(old(Now()), Now())
    {
      hide HeapOk, BinsOk, Spared, LinksWithin, TagsSpare, SpaceOk, Recut, Fitted;
      ghost var v, m := V(), bins.m;
      GrowHere(v, p);
      var oldsize := w.head[p].size;
      var next := p + oldsize;
      var nextsize := w.head[next].size;
      var rsize := oldsize + nextsize - nb;
      UnlinkChunk(next, nextsize);
      if rsize < MIN_CHUNK_SIZE {
        GrowByAll(p, oldsize + nextsize, nb, v, m);
      } else {
        GrowByPart(p, nb, rsize, v, m);
      }
    }

    /** try_realloc_chunk: p fitted to nb bytes without moving, or 0 and nothing done. */
    method TryReallocChunk(p: int, nb: nat) returns (newp: int)
      requires Valid() && p in Used(tile) && MIN_CHUNK_SIZE <= nb && nb % 8 == 0
      modifies this`w, this`tile, bins
      ensures Valid() && (newp == 0 || newp == p)
      ensures newp == p <==> FitsInPlace(old(V()), p, nb)
      ensures if newp == p then Fitted(old(V()), V(), p, nb) else V() == old(V()) && bins.m == old(bins.m)
      ensures Spared(old(Now()), Now())
    {
      hide HeapOk, BinsOk, Spared, LinksWithin, TagsSpare, SpaceOk, Fitted;
      ghost var v := V();
      BehindUsed(v, p);
      NothingStored(Now(), Now());
      newp := 0;
      var oldsize := w.head[p].size;
      var next := p + oldsize;
      if oldsize >= nb {
        Shrink(p, nb);
        newp := p;
      } else if next == w.top {
        if oldsize + w.topsize > nb { GrowTop(p, nb); newp := p; }
      } else if next == w.dv {
        if oldsize + w.dvsize >= nb { GrowDv(p, nb); newp := p; }
      } else if !w.head[next].cinuse {
        if oldsize + w.head[next].size >= nb { GrowNext(p, nb); newp := p; }
      }
    }

    // ----- the same with the stores made in memory

    /** dlmalloc */
    method AllocateIn(ram: Ram, bytes: nat) returns (mem: int)
      requires Valid() && bytes < WORD
      modifies this`w, this`tile, this`space, bins, sys`curBrk, ram
      ensures Valid()
      ensures mem != 0 ==> bytes < MAX_REQUEST && Took(old(V()), V(), mem - 8, RequestSize(bytes)) &&
                           ComesFrom(old(V()), old(sys.Current()), RequestSize(bytes), mem - 8)
      ensures mem == 0 ==> Unchanged() && Exhausted(V(), SizeWanted(bytes)) && NoMoreFor(SizeWanted(bytes))
      ensures mem == 0 && bytes < 0xFFFF_FFC0 ==>
                NothingFor(V(), sys.Current(), MaxBrk(sys.start), if bytes < 5 then 16 else (bytes + 11) / 8 * 8)
      ensures BytesKept(old(Used(tile)), Used(tile), old(ram.bytes), ram.bytes) &&
              (mem == 0 ==> ram.bytes == old(ram.bytes))
    {
      hide HeapOk, BinsOk, SpaceOk, Took, Chosen, Exhausted, ComesFrom, RequestSize, Stored, Spared, BytesKept, At;
      ghost var s := Now();
      var words := Memory();
      mem := Allocate(bytes);
      ram.Change(words, Memory());
      StoresKeep(s, Now(), old(ram.bytes), ram.bytes);
    }

    /** dlfree */
    method FreeIn(ram: Ram, mem: int)
      requires Valid() && (mem == 0 || mem - 8 in Used(tile))
      modifies this`w, this`tile, bins, ram
      ensures Valid() && Used(tile) == if mem == 0 then Used(old(tile)) else Used(old(tile)) - {mem - 8}
      ensures BytesKept(old(Used(tile)), Used(tile), old(ram.bytes), ram.bytes)
    {
      hide HeapOk, BinsOk, SpaceOk, Stored, Spared, BytesKept, At;
      ghost var s := Now();
      var words := Memory();
      Free(mem);
      ram.Change(words, Memory());
      StoresKeep(s, Now(), old(ram.bytes), ram.bytes);
    }

    /** try_realloc_chunk */
    method TryReallocIn(ram: Ram, p: int, nb: nat) returns (newp: int)
      requires Valid() && p in Used(tile) && MIN_CHUNK_SIZE <= nb && nb % 8 == 0
      modifies this`w, this`tile, bins, ram
      ensures Valid() && (newp == 0 || newp == p)
      ensures newp == p <==> FitsInPlace(old(V()), p, nb)
      ensures if newp == p then Fitted(old(V()), V(), p, nb) else V() == old(V()) && bins.m == old(bins.m)
      ensures BytesKept(old(Used(tile)), Used(tile), old(ram.bytes), ram.bytes) &&
              (newp != p ==> ram.bytes == old(ram.bytes))
    {
      hide HeapOk, BinsOk, SpaceOk, Fitted, FitsInPlace, Stored, Spared, BytesKept, At;
      ghost var s := Now();
      var words := Memory();
      newp := TryReallocChunk(p, nb);
      ram.Change(words, Memory());
      StoresKeep(s, Now(), old(ram.bytes), ram.bytes);
    }

    /** internal_memalign */
    method MemalignIn(ram: Ram, asked: nat, bytes: nat) returns (mem: int, ghost alignment: nat)
      requires Valid() && asked <= 0x8000_0000 && bytes < WORD
      modifies this`w, this`tile, this`space, bins, sys`curBrk, ram
      ensures Valid() && RoundedUp(asked, alignment)
      ensures mem == 0 ==> Unchanged() && NoRoomAligned(V(), alignment, bytes) &&
                           (bytes + alignment < MAX_REQUEST ==> NoMoreFor(SizeWanted(PaddedRequest(alignment, bytes))))
      ensures mem == 0 && bytes + alignment < 0xFFFF_FFC0 ==>
                NothingFor(V(), sys.Current(), MaxBrk(sys.start),
                           (if bytes < 5 then 16 else (bytes + 11) / 8 * 8) + alignment + 16)
      ensures mem != 0 ==> AlignedBlock(old(Used(tile)), Used(tile), mem, alignment, bytes)
      ensures BytesKept(old(Used(tile)), Used(tile), old(ram.bytes), ram.bytes) &&
              (mem == 0 ==> ram.bytes == old(ram.bytes))
    {
      hide HeapOk, BinsOk, SpaceOk, RoundedUp, AlignedBlock, NoRoomAligned, PaddedRequest, SizeWanted, Stored, Spared,
           BytesKept, At;
      ghost var s := Now();
      var words := Memory();
      mem, alignment := Memalign(asked, bytes);
      ram.Change(words, Memory());
      StoresKeep(s, Now(), old(ram.bytes), ram.bytes);
    }

    // ----- writes of callers

    /** A caller has written n bytes from lo on into its block: the words that lie there may now be any others. */
    method Overwritten(lo: int, n: nat, ghost p: int)
      requires Valid() && WithinBlock(Used(tile), p, lo, n)
      modifies this`w, bins
      ensures Valid() && V() == old(V()).(w := w) && TagsInBlocks(old(w), w, Used(tile)) &&
              LinksInBlocks(old(bins.m), bins.m, Used(tile))
    {
      hide HeapOk, BinsOk, SpaceOk, WithinBlock, TagsOver, LinksOver, TagsInBlocks, LinksInBlocks, Overlaid;
      var tags: HeapWords := *;
      var links: BinWords := *;
      BlocksNeedHeap(V(), p, lo, n);
      WriteStays(V(), bins.State(), tags, links, p, lo, n);
      TagsOverInBlocks(w, tags, Used(tile), p, lo, n);
      LinksOverInBlocks(bins.m, links, Used(tile), p, lo, n);
      assert TagsOver(w, tags, lo, n).top == w.top by { TopStays(w, tags, lo, n); }
      bins.Overwrite(links, lo, n);
      w := TagsOver(w, tags, lo, n);
    }

    // ----- dlrealloc

    /** A new block at mem takes the place of the one at oldmem: its bytes are copied and it is freed. */
    method MoveBlock(ram: Ram, oldmem: int, mem: int, bytes: nat, ghost v: View)
      requires Valid() && oldmem != 0 && mem != 0 && oldmem - 8 in Used(v.t) && bytes < MAX_REQUEST
      requires Took(v, V(), mem - 8, RequestSize(bytes))
      modifies this`w, this`tile, bins, ram
      ensures Valid() && Replaced(Used(v.t), Used(tile), oldmem, mem, bytes)
      ensures BlockMoved(Used(v.t), old(ram.bytes), ram.bytes, oldmem, mem, bytes)
    {
      hide HeapOk, BinsOk, SpaceOk, Took, RequestSize, Replaced, InBlock, BytesKept, BlockMoved, TagsInBlocks,
           LinksInBlocks;
      MovedApart(v, V(), oldmem, mem, bytes);
      var oc := w.head[oldmem - 8].size - CHUNK_OVERHEAD;
      ram.MemCpy(mem, oldmem, if oc < bytes then oc else bytes);
      Overwritten(mem, if oc < bytes then oc else bytes, mem - 8);
      ghost var u1, copied := Used(tile), ram.bytes;
      FreeIn(ram, oldmem);
      MovedBytes(v, u1, Used(tile), old(ram.bytes), copied, ram.bytes, oldmem, mem, bytes);
    }

    /** The last resort of dlrealloc: the block moves to where there is room. */
    method MoveElsewhere(ram: Ram, oldmem: int, bytes: nat) returns (mem: int)
      requires Valid() && bytes < MAX_REQUEST && oldmem - 8 in Used(tile) && oldmem != 0
      requires !FitsInPlace(V(), oldmem - 8, RequestSize(bytes))
      modifies this`w, this`tile, this`space, bins, sys`curBrk, ram
      ensures Valid()
      ensures mem == 0 ==> Unchanged() && ram.bytes == old(ram.bytes) && NoRoomToResize(V(), oldmem, bytes) &&
                           NoMoreFor(RequestSize(bytes))
      ensures mem == 0 && bytes < 0xFFFF_FFC0 ==>
                NothingFor(V(), sys.Current(), MaxBrk(sys.start), if bytes < 5 then 16 else (bytes + 11) / 8 * 8)
      ensures mem == 0 ==> Cramped(V(), oldmem - 8, if bytes < 5 then 16 else (bytes + 11) / 8 * 8)
      ensures mem != 0 ==> Replaced(old(Used(tile)), Used(tile), oldmem, mem, bytes) &&
                           ResizePlace(old(V()), old(sys.Current()), oldmem, mem, bytes) &&
                           BlockMoved(old(Used(tile)), old(ram.bytes), ram.bytes, oldmem, mem, bytes)
    {
      hide HeapOk, BinsOk, SpaceOk, Took, Chosen, Exhausted, ComesFrom, RequestSize, Replaced, FitsInPlace, BlockMoved,
           ResizePlace, BytesKept, Cramped;
      ghost var v := V();
      HeapWithBlocks(v, oldmem - 8);
      NoPlaceMeans(v, oldmem - 8, bytes);
      mem := AllocateIn(ram, bytes);
      if mem != 0 {
        ghost var b1 := ram.bytes;
        AllocatedNew(v, V(), mem, bytes);
        NewPlace(v, old(sys.Current()), oldmem, mem, bytes);
        TookKeeps(v, V(), old(ram.bytes), b1, mem, bytes);
        MoveBlock(ram, oldmem, mem, bytes, v);
        MovedLater(v, old(ram.bytes), b1, ram.bytes, oldmem, mem, bytes);
      }
    }

    /** dlrealloc */
    method Reallocate(ram: Ram, oldmem: int, bytes: nat) returns (mem: int)
      requires Valid() && bytes < WORD && (oldmem == 0 || oldmem - 8 in Used(tile))
      modifies this`w, this`tile, this`space, bins, sys`curBrk, ram
      ensures Valid()
      ensures mem == 0 ==> Unchanged() && ram.bytes == old(ram.bytes) && NoRoomToResize(V(), oldmem, bytes) &&
                           (bytes < MAX_REQUEST ==> NoMoreFor(RequestSize(bytes)))
      ensures mem != 0 ==> Replaced(old(Used(tile)), Used(tile), oldmem, mem, bytes) &&
                           ResizePlace(old(V()), old(sys.Current()), oldmem, mem, bytes) &&
                           BlockMoved(old(Used(tile)), old(ram.bytes), ram.bytes, oldmem, mem, bytes)
      ensures mem == 0 && bytes < 0xFFFF_FFC0 ==>
                var s := if bytes < 5 then 16 else (bytes + 11) / 8 * 8;
                (forall p :: p in bins.Binned() ==> bins.Binned()[p] < s) && w.dvsize < s && w.topsize <= s &&
                sys.Current() + s + 48 + 4096 > sys.start - 0x8000 + 0xf0000
      ensures mem == 0 && bytes < 0xFFFF_FFC0 && oldmem != 0 ==>
                var s := if bytes < 5 then 16 else (bytes + 11) / 8 * 8;
                var p, z := oldmem - 8, Used(tile)[oldmem - 8];
                z < s && (p + z == w.top ==> z + w.topsize <= s) && (p + z == w.dv ==> z + w.dvsize < s) &&
                (p + z in bins.Binned() ==> z + bins.Binned()[p + z] < s)
      ensures mem != 0 && oldmem != 0 ==>
                var size := old(Used(tile))[oldmem - 8];
                forall a :: oldmem <= a < oldmem + bytes && a < oldmem + size - 4 ==>
                  At(ram.bytes, mem + (a - oldmem)) == At(old(ram.bytes), a)
    {
      hide HeapOk, BinsOk, SpaceOk, Took, Fitted, Chosen, Exhausted, ComesFrom, RequestSize, Replaced, FitsInPlace, BlockMoved,
           BytesKept;
      ghost var v := V();
      UsedPositive(v);
      if oldmem == 0 {
        mem := AllocateIn(ram, bytes);
        if mem != 0 {
          AllocatedNew(v, V(), mem, bytes);
          NewPlace(v, old(sys.Current()), 0, mem, bytes);
          InPlaceBytes(Used(v.t), Used(tile), old(ram.bytes), ram.bytes, 0, mem, bytes);
        }
      } else if bytes >= MAX_REQUEST {
        mem := 0;
      } else {
        RequestSizeFits(bytes);
        var nb := RequestSize(bytes);
        var oldp := oldmem - 8;
        var newp := TryReallocIn(ram, oldp, nb);
        if newp != 0 {
          mem := newp + 8;
          HeapWithBlocks(v, oldp);
          FittedReplaced(v, V(), oldmem, bytes);
          InPlaceBytes(Used(v.t), Used(tile), old(ram.bytes), ram.bytes, oldmem, mem, bytes);
        } else {
          mem := MoveElsewhere(ram, oldmem, bytes);
        }
        if mem != 0 { BytesMoved(Used(v.t), old(ram.bytes), ram.bytes, oldmem, mem, bytes); }
      }
    }

    // ----- internal_memalign

    /** The first bytes of a chunk in use are made a chunk of their own and given back. */
    method GiveBackLeader(p: int, leadsize: nat)
      requires Valid() && p in Used(tile) && leadsize % 8 == 0 && MIN_CHUNK_SIZE <= leadsize &&
               leadsize + MIN_CHUNK_SIZE <= Used(tile)[p]
      modifies this`w, this`tile, bins
      ensures Valid() && Used(tile) == (old(Used(tile)) - {p})[p + leadsize := old(Used(tile))[p] - leadsize]
      ensures Spared(old(Now()), Now())
    {
      hide HeapOk, BinsOk, Spared, LinksWithin, TagsSpare, SpaceOk, Recut, SetInuse;
      ghost var v := V();
      ChunkHere(v, p);
      var size := w.head[p].size;
      var newp, newsize := p + leadsize, size - leadsize;
      SplitUsedOk(v, p, leadsize);
      EitherOrder(v.w.head, p, leadsize, newsize);
      w := w.(head := SetInuse(w.head, newp, newsize));
      w := w.(head := SetInuse(w.head, p, leadsize));
      tile := Recut(tile, Cut(p, newp, p + size, true, true));
      assert V() == SplitUsed(v, p, leadsize);
      LinksSame(bins.m, v.binned);
      StepSpared(v, V(), bins.m, bins.m);
      FirstPart(v, p, leadsize, tile);
      hide SplitUsed;
      ghost var s1 := Now();
      Dispose(p, leadsize);
      SparedThen(old(Now()), s1, Now());
    }

    /** The block at mem was just handed out with room to spare: what comes before an aligned spot in it is given back. */
    method AlignFront(mem: int, alignment: nat, room: nat, ghost v: View) returns (p: int)
      requires Valid() && PowerOfTwo(alignment) && alignment % 16 == 0 && room >= alignment + 2 * MIN_CHUNK_SIZE &&
               Took(v, V(), mem - 8, room)
      modifies this`w, this`tile, bins
      ensures Valid() && p > 0 && MultipleOf(p + 8, alignment)
      ensures p !in Used(v.t) && p in Used(tile) && Used(tile) == Used(v.t)[p := Used(tile)[p]] &&
              Used(tile)[p] >= room - alignment - 8
      ensures Spared(old(Now()), Now())
    {
      hide HeapOk, BinsOk, Spared, LinksWithin, TagsSpare, SpaceOk, PowerOfTwo, MultipleOf, LowPart, HighPart;
      ghost var v1 := V();
      NothingStored(Now(), Now());
      p := mem - 8;
      if LowPart(mem, alignment) != 0 {
        LeaderFits(mem, alignment);
        LeaderAligns(mem, alignment);
        var br := HighPart(mem + alignment - 1, alignment) - 8;
        var pos := if br - p >= MIN_CHUNK_SIZE then br else br + alignment;
        var leadsize := pos - p;
        SpotIsNew(v, v1, p, leadsize);
        hide Took, Leader;
        GiveBackLeader(p, leadsize);
        p := pos;
      } else {
        AlignedAlready(mem, alignment);
      }
    }

    /** An aligned block inside the one at mem stays, and the rest of that is given back. */
    method AlignBlock(mem: int, alignment: nat, nb: nat, ghost v: View) returns (aligned: int)
      requires Valid() && PowerOfTwo(alignment) && alignment % 16 == 0 && MIN_CHUNK_SIZE <= nb && nb % 8 == 0
      requires Took(v, V(), mem - 8, nb + alignment + MIN_CHUNK_SIZE)
      modifies this`w, this`tile, bins
      ensures Valid() && aligned > 0 && MultipleOf(aligned, alignment) && Placed(Used(v.t), Used(tile), aligned - 8, nb)
      ensures Spared(old(Now()), Now())
    {
      hide HeapOk, BinsOk, Spared, LinksWithin, TagsSpare, SpaceOk, PowerOfTwo, MultipleOf, Took;
      var p := AlignFront(mem, alignment, nb + alignment + MIN_CHUNK_SIZE, v);
      ghost var s1 := Now();
      SizeInUse(V(), p);
      var size := w.head[p].size;
      if size > nb + MIN_CHUNK_SIZE {
        GiveBackTail(p, nb);
        TailGiven(s1.used, Used(tile), p, nb);
        SparedThen(old(Now()), s1, Now());
      }
      StaysPlaced(Used(v.t), s1.used, Used(tile), p, nb);
      hide Placed, UsedBetween;
      return p + 8;
    }

    /** internal_memalign, with an alignment that the doubling loop can reach; alignment is what it is rounded up to. */
    method Memalign(asked: nat, bytes: nat) returns (mem: int, ghost alignment: nat)
      requires Valid() && asked <= 0x8000_0000 && bytes < WORD
      modifies this`w, this`tile, this`space, bins, sys`curBrk
      ensures Valid() && RoundedUp(asked, alignment)
      ensures (exists k: nat :: alignment == Pow2(k)) && alignment >= 16 && alignment >= asked &&
              (alignment == 16 || alignment < 2 * asked) && (mem != 0 ==> mem > 0 && mem % alignment == 0)
      ensures mem == 0 ==> Unchanged() && NoRoomAligned(V(), alignment, bytes) &&
                           (bytes + alignment < MAX_REQUEST ==> NoMoreFor(SizeWanted(PaddedRequest(alignment, bytes))))
      ensures mem == 0 && bytes + alignment < 0xFFFF_FFC0 ==>
                var s := (if bytes < 5 then 16 else (bytes + 11) / 8 * 8) + alignment + 16;
                (forall p :: p in bins.Binned() ==> bins.Binned()[p] < s) && w.dvsize < s && w.topsize <= s &&
                sys.Current() + s + 48 + 4096 > sys.start - 0x8000 + 0xf0000
      ensures mem != 0 ==> AlignedBlock(old(Used(tile)), Used(tile), mem, alignment, bytes)
      ensures Spared(old(Now()), Now())
    {
      hide HeapOk, BinsOk, Spared, LinksWithin, TagsSpare, RoundedUp, AlignedBlock, NoRoomAligned, PaddedRequest,
           SizeWanted;
      var rounded := RoundAlignment(asked);
      alignment := rounded;
      mem := MemalignRounded(rounded, bytes);
      RoundedMeans(asked, rounded);
      if mem != 0 { AlignedMeans(old(Used(tile)), Used(tile), mem, rounded, bytes); }
    }

    /** internal_memalign from the point on where the alignment is a power of two. */
    method MemalignRounded(alignment: nat, bytes: nat) returns (mem: int)
      requires Valid() && PowerOfTwo(alignment) && alignment % 16 == 0 && alignment <= 0x8000_0000 && bytes < WORD
      modifies this`w, this`tile, this`space, bins, sys`curBrk
      ensures Valid()
      ensures mem == 0 ==> Unchanged() && NoRoomAligned(V(), alignment, bytes) &&
                           (bytes + alignment < MAX_REQUEST ==> NoMoreFor(SizeWanted(PaddedRequest(alignment, bytes))))
      ensures mem == 0 && bytes + alignment < 0xFFFF_FFC0 ==>
                NothingFor(V(), sys.Current(), MaxBrk(sys.start),
                           (if bytes < 5 then 16 else (bytes + 11) / 8 * 8) + alignment + 16)
      ensures mem != 0 ==> AlignedBlock(old(Used(tile)), Used(tile), mem, alignment, bytes)
      ensures Spared(old(Now()), Now())
    {
      hide HeapOk, BinsOk, Spared, LinksWithin, TagsSpare, Took, Chosen, Exhausted, RequestSize, PowerOfTwo, SizeWanted;
      NothingStored(Now(), Now());
      if bytes >= MAX_REQUEST - alignment { return 0; }
      RequestSizeFits(bytes);
      var nb := RequestSize(bytes);
      var req := nb + alignment + MIN_CHUNK_SIZE - CHUNK_OVERHEAD;
      ghost var v := V();
      mem := Allocate(req);
      if mem != 0 {
        RoomForAlignment(nb, alignment);
        ghost var v1, s1 := V(), Now();
        TookLeaves(v, v1, mem, req);
        mem := AlignBlock(mem, alignment, nb, v);
        SparedThen(old(Now()), s1, Now());
      } else {
        SegmentLow();
        NoneAligned(V(), alignment, bytes, sys.Current(), MaxBrk(sys.start));
      }
    }
  }
}
