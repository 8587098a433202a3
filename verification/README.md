# Verified models of rpi-boot's allocator, string search and storage path

This project models the parts of rpi-boot, a second-stage boot loader for the Raspberry Pi, whose
correctness is not visible from any single function, and proves what they promise.

* **The heap** (malloc.c over heap.c). dlmalloc 2.8.6 as it is configured here on 32-bit ARM: words of 4
  bytes, alignment 8, chunks of at least 16 bytes, the portable index macros, no mmap, no locks, no
  footers, no mspaces. `Heap` says what a heap in order is: cells tile one segment, each boundary tag
  agrees with its neighbours, no two free cells touch, and each free cell is exactly one of top, the
  designated victim and a chunk in its one bin. `Tries`, `Rings` and `BinState` say what bins in order
  are. `FreeBins` and `Malloc` are classes whose methods follow malloc.c branch by branch and keep both.
  The class `Malloc.Malloc` promises what a client sees: the set of blocks handed out changes by exactly
  the block asked for, which free chunk serves a request, and when none does. `Stores` compares the words
  of the allocator before and after each operation: none that differs shares a byte with a block in use
  before and after, and that blocks keep their bytes is derived from this alone (`Malloc.StoresKeep`).
  `BlockWrites` is the other way round: whatever callers write into their blocks, heap and bins stay in
  order.
  `Clients` sums up what this means to callers: the heap is a map from block pointers to byte sequences
  that do not disturb each other.
* **The search** (strstr.c). The two maximal-suffix loops, the critical factorization theorem, each kind
  of shift, and from these that `strstr` finds the first occurrence.
* **The storage path** (block.c, block_cache.c, libfs.c, ext2.c, fat.c). A write-through cache that cannot
  be told from no cache, the loops that cut requests into blocks, the indirect blocks of ext2 and the
  chains of FAT, both tied to the bytes on the disk, and `fs_fread` and `fs_fwrite` over all of them as
  operations on one array of bytes.
* **Arithmetic** (crc32.c, strtol.c, printf.c). The CRC table against division by the polynomial of
  section 3.2.9 of IEEE Std 802.3-2018, and `strtol` (section 7.20.1.4 of ISO C99) against exact integers
  and against the printer `ksprintn`.
* **Physical memory** (memchunk.c) and the buffers of heap.c.

`dafny verify dfyconfig.toml` checks everything. Files hold one component each; `HeapSteps`, `HeapGives`
and `HeapGrows` are the value-level transitions behind the methods of `Malloc.Malloc`, and one lemma,
`Heap.CutKeeps`, carries the invariant through all of them: every operation cuts one stretch of the
tiling anew.

Promises that the code does not keep on all inputs are stated with the exact condition under which it
does, and an input on which it does not:

* `alloc_buf` adds in 32 bits before it compares: `Breaks.AllocBufKeeps` (if and only if the sum does not
  wrap) and `Breaks.AllocBufWraps`.
* `chunk_get_chunk` grants requests whose end wraps: `MemChunks.GiveKeeps` (if and only if it does not)
  and `MemChunks.WrappingRequestGranted`. So does `chunk_get_any_chunk`, unless before the call some
  available chunk does not wrap or there is none: `MemChunks.GiveLowestKeeps` (if and only if) and
  `MemChunks.AnyChunkWraps`. Its search ends if and only if max_free is at most 2^32 - 4096 or some page is
  available (`MemChunks.ChunkAllocator.GetAnyChunk` and `MemChunks.SearchNeverEnds`);
  `MemChunks.LastPageSearched` is a state in which it does not.
* `internal_memalign` never returns for an alignment above 2^31: `Alignment.DoublingNeverEnds`; for every
  other alignment `Alignment.RoundAlignment` gives the least power of two.

## Model

| member | source | states |
|---|---|---|
| Words.CriticalFactorization | strstr.c:82-90 | The position where the later of the two maximal suffixes starts is critical: every local period there is at least the smallest period of the whole needle |
| Words.PeriodicOrLong | strstr.c:85-89 | Comparing the left part with the needle p bytes on separates needles whose smallest period is p from those whose period is longer than both sides of the cut |
| Words.LocalPeriodIsMultiple | strstr.c:94-97 | A local period at the critical position that fits into the right part is a multiple of the smallest period |
| Words.SmallestPeriodExists | strstr.c:85-89 | Every needle has a smallest period |
| MaximalSuffixes.EqualStep | strstr.c:48-52 | The equal-letters branch keeps the loop invariant: the candidate is maximal among the suffixes seen and p is its period |
| MaximalSuffixes.DescendStep | strstr.c:53-56 | The branch that takes the prefix seen so far as the new period keeps it |
| MaximalSuffixes.AscendStep | strstr.c:57-60 | The branch that restarts at the competitor keeps it |
| MaximalSuffixes.DuelEnds | strstr.c:47-63 | When the loop ends the candidate is the maximal suffix and p its smallest period |
| CStrings.StrChr | strstr.c:145 | strchr: the first place of a byte, or none |
| CStrings.FindEnd | strstr.c:101-105 | memchr for the terminator: found within the window exactly when the string ends there |
| CStrings.MemCmp | strstr.c:86 | memcmp: zero exactly when the bytes agree |
| TwoWay.Prepare | strstr.c:40-43 | The needle's length, or that it is longer than the haystack; the byte set and the shift table hold each byte's last position |
| TwoWay.FindMaximalSuffix | strstr.c:46-63 | Either loop terminates with the maximal suffix under its order and the suffix's smallest period |
| TwoWay.Factorize | strstr.c:45-90 | The chosen ms, p and mem0 are a plan: a critical position, with p the period and mem0 the overlap, or p a safe shift and mem0 zero |
| TwoWay.AbsentByteShift | strstr.c:119-121 | When the last byte under the needle is in no place of it, the shift by l skips no occurrence |
| TwoWay.BadByteShift | strstr.c:109-115 | The shift by the distance to that byte's last place in the needle skips no occurrence |
| TwoWay.RememberedShift | strstr.c:113 | While a prefix is remembered and that distance is below p, the shift by l - p skips no occurrence |
| TwoWay.RightMismatchShift | strstr.c:124-130 | A mismatch at k in the right part allows the shift by k - ms |
| TwoWay.LeftMismatchShift | strstr.c:131-135 | A mismatch in the left part allows the shift by p |
| TwoWay.PrefixRemembered | strstr.c:135 | After the shift by a true period the first l - p bytes are known to match |
| TwoWay.AdvanceEnd | strstr.c:97-106 | The end pointer: either the haystack is too short for another occurrence, or l bytes are there |
| TwoWay.LastByteShift | strstr.c:108-122 | One test of the last byte: a shift that skips no occurrence, or a match of the last byte |
| TwoWay.CompareRight | strstr.c:125-126 | The first mismatch of the right part, or none |
| TwoWay.CompareLeft | strstr.c:132-133 | Whether the left part down to the remembered prefix matches |
| TwoWay.Search | strstr.c:92-137 | The search loop terminates with the first occurrence, or none exactly when there is none |
| TwoWay.TwoWayStrStr | strstr.c:33-137 | twoway_strstr returns the first occurrence, or none exactly when there is none |
| StrStr.TwoByteStrStr | strstr.c:4-9 | The shifted word finds the first occurrence of a needle of two bytes |
| StrStr.ThreeByteStrStr | strstr.c:11-17 | The same for three bytes |
| StrStr.FourByteStrStr | strstr.c:19-25 | The same for four bytes |
| StrStr.StrStr | strstr.c:139-155 | strstr returns the first occurrence of the needle, for every pair of strings |
| Crc32.TableEntries | crc32.c:49-93 | Each of the 256 entries is its index after eight steps of the bit-serial register |
| Crc32.TableOfBits | crc32.c:49-93 | Each entry is put together from those of the bits of its index |
| Crc32.TableStepTakesByte | crc32.c:108 | One table step is the same as taking the eight bits of the byte one at a time |
| Crc32.Crc32 | crc32.c:101-110 | crc32 is the bit-at-a-time register started and finished with all ones |
| Crc32.Crc32Append | crc32.c:119-125 | crc32_append takes the bits of the buffer one at a time |
| Crc32.Crc32OfParts | crc32.c:114-130 | start, append over any list of parts, and finish give the crc of the concatenation |
| Crc32.CrcIsStandard | crc32.c:101-110 | The result's bits are the complemented remainder of the long division of section 3.2.9 of IEEE Std 802.3-2018 |
| Crc32.RemainderIsRegister | crc32.c:108 | The register is the remainder of dividing the message so far by the generator polynomial |
| Crc32.PolynomialIsGenerator | crc32.c:49-93 | The reflected constant has the coefficients of the standard's generator |
| Crc32.BurstDetected | crc32.c:101-110 | Equal-length buffers that differ only within four consecutive bytes have different crcs |
| Bits.LeastBitIsLowest | malloc.c:2939 | least_bit keeps exactly the lowest set bit |
| Bits.BitLeftBits | malloc.c:2942 | left_bits of a one-bit word is all bits above it |
| Bits.Bit2IdxInverts | malloc.c:2977-2986 | The portable compute_bit2idx inverts idx2bit on every power of two |
| Bits.MarkBin | malloc.c:2930 | Marking a bin sets its bit and no other |
| Bits.ClearBin | malloc.c:2931 | Clearing a bin clears its bit and no other |
| Bits.TestBin | malloc.c:2932 | The test of a bin reads its bit |
| Bits.NextBin | malloc.c:4472-4480 | left_bits, the map, least_bit and compute_bit2idx together find the lowest marked bin above a given one |
| Bits.FirstBin | malloc.c:4518-4520 | least_bit and compute_bit2idx find the lowest marked bin |
| TreeIndex.TreeIndexIsBin | malloc.c:2889-2921 | minsize(I) <= S, and S < minsize(I+1) unless I is the last bin, for every 32-bit S of at least 256 |
| TreeIndex.HighestBitIsLog | malloc.c:2897-2903 | The shifts and borrows of the portable macro compute the binary logarithm |
| TreeIndex.TreeIndexMonotone | malloc.c:2890-2906 | Larger sizes never have smaller tree indices |
| TreeIndex.SameBinSamePrefix | malloc.c:2913-2916 | Sizes of one bin agree in all bits above those the trie of the bin decides |
| TreeIndex.PathBit | malloc.c:3672-3676 | The top bit of the shifted size is the size's next undecided bit |
| Tries.Descend | malloc.c:3674-3678 | Every node under x other than x lies under the child that its next bit picks |
| Tries.RootCovers | malloc.c:3664-3673 | Every node of a bin lies under the bin's root |
| Tries.PathDescends | malloc.c:3671-3678 | One step of the descent stays on the path of the size, one level down; the depth is bounded by the undecided bits |
| Tries.AddNodeOk | malloc.c:3662-3683 | Hanging a new node where its path ends, or at an empty root, keeps the digital-tree invariant |
| Tries.RemoveLeafOk | malloc.c:3740-3754 | Taking a leaf out keeps it |
| Tries.PutInPlaceOk | malloc.c:3755-3789 | Putting a leaf or a node of the same size in a node's place, with its children adopted, keeps it |
| Rings.InsertAfterHead | malloc.c:3591-3594 | Linking a chunk in behind the head leaves a ring with the chunk second |
| Rings.RemoveAt | malloc.c:3611-3612 | Unlinking an element leaves the ring without it |
| BinState.InsertSmallOk | malloc.c:3579-3595 | insert_small_chunk keeps all bins in order |
| BinState.RemoveSmallOk | malloc.c:3598-3621 | unlink_small_chunk keeps all bins in order |
| BinState.InsertNodeOk | malloc.c:3662-3683 | insert_large_chunk of a new size keeps all bins in order |
| BinState.InsertChainedOk | malloc.c:3690-3697 | insert_large_chunk of a size that is there keeps all bins in order |
| BinState.RemoveInnerOk | malloc.c:3739-3789 | Replacing an unlinked inner node by its leaf keeps all bins in order |
| BinState.RemoveHeadOk | malloc.c:3728-3789 | Replacing an unlinked node by the next chunk of its size keeps all bins in order |
| BinState.RemoveChainedOk | malloc.c:3728-3733 | Unlinking a chained chunk keeps all bins in order |
| BinWrites.InsertSmallWrites | malloc.c:3579-3595 | insert_small_chunk changes links only of chunks in bins and of bin heads |
| BinWrites.InsertNodeWrites | malloc.c:3662-3683 | insert_large_chunk changes links only of chunks in bins, and the links of tree nodes only of large ones |
| BinWrites.RemoveSmallWrites | malloc.c:3598-3621 | The same for unlink_small_chunk |
| BinWrites.RemoveHeadWrites | malloc.c:3728-3789 | The same for unlink_large_chunk of a node with others of its size |
| BinWrites.RemoveInnerWrites | malloc.c:3739-3789 | The same for unlink_large_chunk of a lone inner node, whose leaf, parent and children are written |
| BinWrites.LinksThen | malloc.c:4386-4433 | Links written by several bin operations belong to chunks in bins before or after all of them |
| FreeBins.FreeBins.InsertSmallChunk | malloc.c:3579-3595 | The bins stay in order and hold exactly one chunk more; links change only in chunks that are in bins before or after |
| FreeBins.FreeBins.UnlinkSmallChunk | malloc.c:3598-3621 | The bins stay in order and hold exactly that chunk less |
| FreeBins.FreeBins.UnlinkFirstSmallChunk | malloc.c:3624-3639 | The same for the first chunk of a marked bin, whose size is the bin's |
| FreeBins.FreeBins.FindPlace | malloc.c:3671-3704 | The descent ends at a node of the size, or below a node with room for it on the side of its next bit |
| FreeBins.FreeBins.InsertLargeChunk | malloc.c:3657-3706 | The bins stay in order and hold exactly one chunk more; links change only in chunks that are in bins before or after |
| FreeBins.FreeBins.TakeLeaf | malloc.c:3740-3754 | The search ends at a leaf below the node and takes it from its parent |
| FreeBins.FreeBins.UnlinkLargeChunk | malloc.c:3725-3794 | The bins stay in order and hold exactly that chunk less; links change only in chunks that are in bins before or after |
| FreeBins.FreeBins.WalkBin | malloc.c:4448-4471 | The walk through the size's own bin: every better chunk not seen yet lies under the deepest untaken right subtree |
| FreeBins.FreeBins.Leftmost | malloc.c:4482-4489 | Following leftmost children ends at the smallest fitting chunk of all bins |
| FreeBins.FreeBins.FindBestFit | malloc.c:4443-4489 | The search of tmalloc_large finds the smallest tree chunk of at least nb bytes, or that there is none, with unsigned remainders |
| FreeBins.FreeBins.FindSmallest | malloc.c:4518-4529 | The search of tmalloc_small finds the smallest tree chunk of all |
| FreeBins.FreeBins.WalkRing | malloc.c:3404-3407 | The walk around a ring finds exactly the chunks of the ring |
| FreeBins.FreeBins.BinFind | malloc.c:3395-3429 | bin_find finds a chunk exactly when it is in a bin |
| Heap.RecutTiled | malloc.c:2280-2286 | Cutting a stretch of chunks anew leaves a tiling |
| Heap.RecutTags | malloc.c:2288-2301 | With the heads and feet of the new chunks written, all boundary tags agree again |
| Heap.RecutFiled | malloc.c:3432-3460 | With the new chunks filed, every free chunk is exactly one of top, dv and binned, and follows one in use |
| Heap.CutKeeps | malloc.c:3228-3307 | The whole heap invariant is kept by every such step, and what it writes lies in no block |
| Heap.CutSpares | malloc.c:2258-2301 | A cut changes only the heads of the new cells and of the one behind, and prev_foot words behind free cells; none shares a byte with a block in use |
| Heap.WriteClear | malloc.c:2258-2301 | Every head or prev_foot that a cut changes lies outside each single byte of each block |
| HeapSteps.WholeOk | malloc.c:3068-3071 | Handing out a free chunk whole keeps the invariant and adds exactly that block |
| HeapSteps.SplitToBinOk | malloc.c:4500-4504 | Cutting a chunk and filing the rest in a bin keeps it and adds exactly the first part |
| HeapSteps.SplitReplacingDvOk | malloc.c:3643-3651 | The same with the rest as the new dv and the old dv filed |
| HeapSteps.SplitToDvOk | malloc.c:4650-4655 | The same for a cut dv |
| HeapSteps.SplitTopOk | malloc.c:4667-4672 | The same for top |
| HeapGives.ReleaseOk | malloc.c:4372-4438 | Giving a chunk back, merged with both neighbours in all combinations with dv and top, keeps the invariant and takes away exactly that block |
| HeapGrows.SplitUsedOk | malloc.c:4831-4834 | Cutting a chunk in use keeps the invariant and replaces one block by two |
| HeapGrows.GrowWholeOk | malloc.c:4865-4882 | Taking the whole free chunk behind keeps it and only enlarges that block |
| HeapGrows.GrowPartOk | malloc.c:4883-4888 | The same with the part not needed made a chunk in use |
| HeapGrows.GrowIntoDvOk | malloc.c:4852-4864 | The same with the part not needed left as dv |
| HeapGrows.GrowIntoTopOk | malloc.c:4840-4850 | The same with the part not needed left as top |
| HeapGrows.FirstTopOk | malloc.c:3905-3917 | The first segment as one top chunk is a heap in order |
| HeapGrows.MoreTopOk | malloc.c:4215-4217 | Extending the segment and top with it keeps the invariant and all blocks |
| HeapTotals.TraverseTotal | malloc.c:3432-3460 | Walking from head to head arrives at top, and the sizes add up to the segment |
| HeapTotals.BytesAccounted | malloc.c:3432-3460 | Blocks in use, binned chunks, dv, top and TOP_FOOT_SIZE together are the segment size |
| HeapChecks.ChecksHold | malloc.c:3228-3307 | The invariant implies the checks on top, dv, chunks in use and free chunks |
| HeapChecks.TreeChecked | malloc.c:3310-3358 | The invariant implies the checks on every chunk in a tree bin: index, size bounds, parent and child links, child sizes |
| HeapChecks.SmallBinChecked | malloc.c:3372-3392 | The invariant implies do_check_smallbin: a marked bin is not empty, and each chunk is free, of the size of the bin, linked to its like, and followed by one in use |
| HeapChecks.TreeBinChecked | malloc.c:3361-3369 | The invariant implies do_check_treebin: marked exactly when there is a root, and the root passes |
| HeapLayout.FieldsApart | malloc.c:2196-2201 | No two words that the allocator uses in the heap overlap |
| HeapLayout.FieldsOutsideBlocks | malloc.c:2229-2231 | In a heap in order none of them overlaps a byte of a block handed out; for the words that an operation writes see Stores.StepSpared |
| Stores.StepSpared | malloc.c:2196-2201 | A step of the heap and its bins changes no head, prev_foot or link that shares a byte with a block in use before and after |
| Stores.SparedThen | malloc.c:4943-4959 | Two steps after each other spare what is in use all the time |
| Stores.LinksSpared | malloc.c:2405-2415 | Links of chunks in bins share no byte with a block that stays |
| BlockWrites.HeapStays | malloc.c:2142-2169 | When callers write into their blocks, so that words there read as anything, the heap stays in order |
| BlockWrites.BinsStay | malloc.c:2405-2415 | The same for the bins: links that matter lie in free chunks |
| BlockWrites.WriteStays | malloc.c:2229-2231 | A write of any bytes into one block keeps heap and bins in order |
| SmallSearch.TwoBins | malloc.c:4588-4593 | The two low bits of the shifted map, and the added complement, pick the size's bin or the next |
| SmallSearch.BinAbove | malloc.c:4605-4612 | Otherwise the lowest marked bin above is found |
| Requests.RequestSizeFits | malloc.c:2236-2245 | The padded size is the smallest legal chunk with room for the request |
| Requests.ExhaustedMeans | malloc.c:2236-2245 | When nothing serves a request below 0xFFFFFFC0, then in numbers: with s the least multiple of 8 from 16 up that holds the bytes and 4 more, no binned chunk and not dv has s bytes, top has no more, and s + 48 + 4096 bytes from the break on pass the limit |
| Malloc.LargeChoice | malloc.c:4491-4510 | The unsigned comparison with dvsize - nb picks the best fit, dv winning ties and losing when too small |
| Malloc.SmallBins | malloc.c:4588-4614 | The exact and next-bin tests on the map mean what they should about the chunks in bins |
| Malloc.Malloc.TakeFromBin | malloc.c:4591-4602 | A remainderless fit: a block of the bin's size, less than MIN_CHUNK_SIZE too large |
| Malloc.Malloc.SplitFromBin | malloc.c:4604-4629 | With the two nearest bins empty the rest is always a legal chunk and becomes dv |
| Malloc.Malloc.TmallocSmall | malloc.c:4514-4549 | The block is cut from the smallest tree chunk |
| Malloc.Malloc.TmallocLarge | malloc.c:4443-4511 | The block comes from the best fit among tree bins and dv, or it is left to dv, or nothing fits |
| Malloc.Malloc.SplitDv | malloc.c:4647-4655 | A block from the front of dv |
| Malloc.Malloc.ExhaustDv | malloc.c:4656-4661 | dv as a whole |
| Malloc.Malloc.TakeTop | malloc.c:4667-4677 | A block from the front of top |
| Malloc.Malloc.MoreContiguous | malloc.c:4092-4151 | The contiguous extension: exactly the memory behind the segment, or nothing |
| Malloc.Malloc.MoreAnywhere | malloc.c:4162-4178 | The non-contiguous call also returns the memory behind the segment, or fails only when it does not fit |
| Malloc.Malloc.FirstSegment | malloc.c:4185-4204 | First-time initialization |
| Malloc.Malloc.MoreSegment | malloc.c:4206-4218 | New memory is always appended to the one segment; footprint stays its size |
| Malloc.Malloc.SysAlloc | malloc.c:4046-4252 | A block from new memory, where top was or the segment starts; failure changes nothing and means that the request and one page do not fit below MAX_BRK |
| Malloc.Malloc.Allocate | malloc.c:4553-4687 | dlmalloc: a new 8-aligned block of size in [nb, nb + MIN_CHUNK_SIZE) from the chunk that the rules choose, or, when new memory has to be got, where top was or the segment starts; failure leaves everything as it was, and for every request below 0xFFFFFFC0 bytes it means that every chunk in a bin and dv are smaller than max(16, (bytes + 11) / 8 * 8), that top is not larger, and that the break plus that plus 48 plus 4096 passes MAX_BRK; no word shared with a block that stays is changed |
| Malloc.Malloc.Dispose | malloc.c:4372-4438 | dispose_chunk, and the body of dlfree (4691-4798): exactly that block is gone, the heap is in order, and no word shared with a block that stays is changed |
| Malloc.Malloc.Free | malloc.c:4691-4798 | dlfree: exactly that block is gone, and nothing for null |
| Malloc.Malloc.TrimNeverDue | malloc.c:4751-4752 | top never reaches the size at which memory would be trimmed |
| Malloc.Malloc.TryReallocChunk | malloc.c:4820-4897 | In place exactly when the chunk, alone or with a free one behind it, is large enough; then it has the new size and nothing else changed hands, otherwise nothing is done; no word shared with a block that stays is changed |
| Malloc.Malloc.Reallocate | malloc.c:5194-5237 | dlrealloc: in place exactly when there is room, else in a new block chosen as for malloc; byte i of the new block is byte i of the old one for every i below the new size and the old usable size; all other blocks keep their bytes, which follows from the words that change; failure leaves everything as it was and means for every request below 0xFFFFFFC0 bytes that nothing free is large enough, as for malloc, and that the old chunk, with the free one behind it, is not either |
| Malloc.BytesMoved | malloc.c:5229-5230 | After a block has moved or changed its size, each byte that both sizes have is the one it was |
| Malloc.NoPlaceMeans | malloc.c:4820-4897 | When a chunk cannot grow in place, it and the free chunk behind it are together too small, and with top not larger than needed |
| Malloc.Malloc.Overwritten | malloc.c:5230 | After bytes of a block are written, by memcpy or a caller, the words that lie there may be any others, and heap and bins are in order |
| Malloc.Malloc.AlignFront | malloc.c:4921-4949 | The padded block always has an aligned spot behind a legal leader, which is given back |
| Malloc.Malloc.Memalign | malloc.c:4899-4971 | A block at a multiple of the least power of two that is at least 16 and the alignment asked for, with nb to nb + MIN_CHUNK_SIZE bytes, nothing else changed; failure leaves everything as it was and means, when bytes plus alignment are below 0xFFFFFFC0, that no free chunk has max(16, (bytes + 11) / 8 * 8) + alignment + 16 bytes and the break cannot grow by as many |
| Malloc.StoresKeep | malloc.c:5219-5233 | If the words that differ share no byte with the blocks that stay, those blocks keep their bytes, whatever the words now read as |
| Malloc.InPlaceBytes | malloc.c:5222-5225 | A block that grew or shrank in place has the first min(old, new) bytes it had |
| Malloc.MovedBytes | malloc.c:5227-5231 | After the copy and the release of the old block the new one has its bytes, and all others theirs |
| Alignment.RoundAlignment | malloc.c:4901-4907 | The least power of two that is at least 16 and at least the alignment asked for |
| Alignment.RoundedMeans | malloc.c:4901-4907 | In numbers: a power 2^k, at least 16, at least the alignment asked for, and 16 or less than twice that |
| Alignment.DoublingNeverEnds | malloc.c:4904-4905 | For an alignment above 2^31 the doubled value never reaches it |
| Alignment.LeaderFits | malloc.c:4930-4936 | The leader is at least MIN_CHUNK_SIZE, a multiple of 8 and at most the alignment and 8 |
| Alignment.LeaderAligns | malloc.c:4930-4935 | The spot is a multiple of the alignment |
| Runs.Serve | malloc.c:4553-4798 | Every request is answered as malloc, free, realloc and memalign promise: which block, from which chunk, which bytes are kept, and when there is none; a client that writes into its block changes these bytes only |
| Runs.Run | malloc.c:3432-3490 | Over every run each request takes one moment to the next as promised; in each moment heap and bins are in order, blocks are disjoint, aligned and inside the segment below MAX_BRK, all bytes are accounted for, and footprint, segment size and break minus base are equal |
| Clients.StepAnswered | malloc.c:4553-5237 | Seen as a map from block pointers to sequences of bytes, each request does to the heap what its answer says: malloc and memalign add one new 8-aligned block of at least the size asked for, free takes away one, realloc replaces one by one that begins with the same bytes, a write changes the bytes of one block, and nothing else differs |
| Clients.RunAnswered | malloc.c:4553-5237 | Every run of the heap is a run over such blocks |
| Clients.BytesSurvive | malloc.c:4553-5237 | Over every run the bytes of a block stay as they are until a request names the block |
| Clients.AllowedIsLegal | malloc.c:2229-2231 | A client may write exactly to the bytes of its blocks |
| Ram.Ram.MemCpy | malloc.c:5230 | memcpy copies the bytes and changes no other |
| Ram.Ram.Change | malloc.c:2196-2201 | The stores of the allocator as its callers see them: bytes of words that differ may be anything, all others are kept |
| Breaks.Break.Sbrk | heap.c:58-86 | The old break, or failure and no change when the 32-bit sum is not below MAX_BRK |
| Breaks.Break.AllocBuffer | heap.c:39-56 | cur_buf, recorded as a buffer of that size, or 0 and no change when the 32-bit sum is above 0x100000; the buffers stay in order if and only if the sum does not wrap |
| Breaks.AllocBufKeeps | heap.c:39-56 | Buffers pairwise disjoint, 512-aligned and between MAX_BRK and MAX_BUF, if and only if the sum does not wrap |
| Breaks.AllocBufWraps | heap.c:43-48 | A concrete request that breaks this |
| Breaks.AllocBufsKeep | heap.c:39-56 | Over every run of requests below 2^32 - MAX_BUF the buffers stay in order |
| Breaks.AnswersApart | heap.c:39-56 | No two buffers that a run of requests below 2^32 - MAX_BUF is answered with have a byte in common |
| Breaks.AnswersAbove | heap.c:39-56 | Each of them starts on a sector, at or above MAX_BRK, and ends at or below 0x100000 |
| MemChunks.ChunkOverlaps | memchunk.c:48-63 | True exactly when the chunk overlaps one of the list, with 32-bit ends |
| MemChunks.ChunkContains | memchunk.c:66-81 | True exactly when one of the list contains the chunk |
| MemChunks.GiveKeeps | memchunk.c:84-91 | Giving out a chunk that passes the tests keeps chunks disjoint and inside regions, if and only if its end does not wrap |
| MemChunks.WrappingRequestGranted | memchunk.c:117-125 | A wrapping request that is granted though it lies in no region |
| MemChunks.GiveLowestKeeps | memchunk.c:101-112 | Giving out the lowest available chunk keeps the memory in order if and only if before the call some available chunk does not wrap; a length that fits above max_free is enough |
| MemChunks.AnyChunkWraps | memchunk.c:101-112 | A request to chunk_get_any_chunk itself that gets a chunk whose end wraps |
| MemChunks.ChunkAllocator.RegisterFree | memchunk.c:93-99 | The region is added, the chunks given out stay, and max_free is the highest end |
| MemChunks.ChunkAllocator.GetAnyChunk | memchunk.c:101-115 | The lowest page-aligned allocatable address, or 0 exactly when there is none; the list of chunks given out keeps all it had and gets exactly the new one, the regions stay; the memory stays in order if and only if some available chunk does not wrap or there is none |
| MemChunks.ChunkAllocator.GetChunk | memchunk.c:117-125 | The address if it can be allocated, and then the list of chunks given out gets exactly the new one besides all it had; else 0 and no change |
| MemChunks.SearchNeverEnds | memchunk.c:103-112 | Exactly when GetAnyChunk may not be called, the search goes on after any number of steps and is refused at each address |
| MemChunks.LastPageSearched | memchunk.c:93-125 | A state reached by one registration and one request in which no search for 0x800 bytes ends |
| MemChunks.ZeroMeansNone | memchunk.c:114 | With page 0 in no region, 0 is never an allocatable address |
| MemChunks.BelowMaxFree | memchunk.c:97-104 | Every allocatable non-empty chunk starts below max_free, so the search misses none |
| MemChunks.TestsAreExact | memchunk.c:84-91 | For a chunk whose end does not wrap the tests hold exactly when it lies inside one region and shares no byte with a chunk given out |
| MemChunks.RunsAreSafe | memchunk.c:93-125 | In every state of every run the chunks given out are disjoint and inside registered regions |
| MemChunks.AnswerAll | memchunk.c:93-125 | Over every run of calls whose sums do not wrap: any two answers that are not 0 are apart with the lengths asked for, and each lies inside a region registered by an earlier call |
| StrToL.CutoffDecides | strtol.c:105-120 | The comparison with cutoff and cutlim says exactly whether one more digit passes the limit |
| StrToL.ReadFront | strtol.c:61-86 | White space, sign, prefix and base as the standard describes the subject sequence |
| StrToL.ReadDigits | strtol.c:109-127 | The longest run of digits; the accumulator holds its exact value and never wraps, or the value is past the limit |
| StrToL.StrToLong | strtol.c:45-139 | The exact value saturated to [LONG_MIN, LONG_MAX], ERANGE exactly when out of range, EINVAL and the start of the string when there are no digits |
| KSprintN.KSprintN | printf.c:83-97 | The digits are in the buffer backwards behind a NUL, within MAXNBUF, for every 32-bit number and base 2 to 36 |
| KSprintN.DigitsShort | printf.c:75 | A number of k bits has at most k digits |
| KSprintN.StrToLongInverts | strtol.c:45-139 | strtol reads back what ksprintn printed, for every number, base and case of letters, behind any white space, a sign and the prefixes 0x, 0X and 0, with the base given or found out: the number with its sign, or the end of the range of a long with ERANGE, and the end of the digits |
| KSprintN.NothingToRead | strtol.c:61-128 | Behind white space anything but a sign, a letter or a digit is no number: EINVAL |
| KSprintN.DigitsSpelled | printf.c:83-97 | Digit i from the right is the remainder of i divisions by the base, spelled with 0 to 9 and a to z, or A to Z, and there is no leading zero |
| BlockCaches.RoundDown | block_cache.c:97-104 | The number of slots is the largest power of two that fits |
| BlockCaches.CacheInit | block_cache.c:57-129 | None when no block fits into the memory given; else an empty cache in order, with a power of two of slots that take more than half of the memory and fit into it |
| BlockCaches.Cache.Read | block_cache.c:136-200 | Hit, miss, short read and pass-through all return the disk's bytes and keep every slot right |
| BlockCaches.Cache.Write | block_cache.c:202-228 | Whole blocks reach the disk and the slots that hold them; anything else is refused |
| BlockCaches.FillSlot | block_cache.c:170-187 | Filling or emptying one slot keeps all slots right |
| BlockCaches.AllDueAfterWrite | block_cache.c:213-225 | After the write to the disk only slots of the written blocks are out of date |
| BlockDevices.Device.BlockRead | block.c:28-84 | The bytes of the disk from the starting block on, in one request or block by block |
| BlockDevices.Device.BlockWrite | block.c:86-131 | The bytes replace those of the disk from the starting block on |
| StorageRuns.RunRequests | block_cache.c:136-228 | Over every run of requests the device answers as the bare disk would |
| Ext2.CountsFit | ext2.c:415-419 | Up to 4096-byte blocks the three pointer counts do not wrap and all indices fit into 32 bits |
| Ext2.SectorPlace | ext2.c:111-121 | get_sector_num is the sector at the block's first byte |
| Ext2.LeafAt | ext2.c:168-201 | Quotient and remainder lead to the right leaf of the flattened tree |
| Ext2.BlocksInOrder | ext2.c:136-245 | The branches lead to the index-th block of direct, single, double and triple indirect blocks flattened in order, and to 0 beyond |
| Ext2.SlotInverse | ext2.c:136-225 | From the path of indices the file index can be computed back |
| Ext2.SlotsDistinct | ext2.c:136-225 | Different file indices use different pointer slots |
| Ext2.GetBlockNoFromInode | ext2.c:136-245 | The index-th block of the file, read through the device; for what is stored on the disk see Ext2Trees.FileRead |
| Ext2.WordStored | ext2.c:156 | Four bytes are what repeated division by 256 gives for a number exactly when that number is the word read there |
| Ext2.PointerStored | ext2.c:156 | Pointer i of a block that stores the numbers ns is ns[i] |
| Ext2Trees.LeavesRead | ext2.c:149-225 | The blocks read below a pointer begin with the leaves, from left to right, of the tree of pointer blocks that was written there |
| Ext2Trees.FileRead | ext2.c:136-245 | For a file written as 12 blocks and three trees, the blocks read are those, in order, at 0, 12, 12 + p and 12 + p + p * p |
| Ext2.InodesApart | ext2.c:311-338 | Different valid inode numbers have disjoint byte ranges |
| Ext2.InodeInBlock | ext2.c:322-330 | An inode lies within one block of its group's table |
| Ext2.ReadInode | ext2.c:311-338 | The inode's pointers from exactly those bytes: bytes 40 to 99 are what is stored for the 15 pointers returned |
| Ext2.InodeStored | ext2.c:67-100 | An inode that stores 15 numbers from byte 40 on is read as these: db0 to db11, sibp, dibp and tibp |
| Ext2.InodePosition | ext2.c:311-338 | Where inode n is, in numbers: index (n - 1) modulo the inodes of a group in the table of group (n - 1) / that, an array of inodes, when inodes fill a block |
| Fat.EndMarks | fat.c:346-368 | Widened 16-bit and masked 28-bit entries meet at one end test |
| Fat.GetNextFatEntry | fat.c:329-374 | The successor of the cluster, read through the device: for FAT16 the little-endian halfword at 512 * first_fat_sector + 2 * cluster, with 0x0fff0000 added from 0xfff7 up, for FAT32 the word at 512 * first_fat_sector + 4 * cluster modulo 2^28, where the 32-bit sums do not wrap |
| Fat.Entry16 | fat.c:333-350 | The same of the bytes on the disk, and that the end test holds exactly from 0xfff8 up |
| Fat.Entry32 | fat.c:353-371 | The same for 32-bit entries, from 0x0ffffff8 up |
| Fat.SectorIsExact | fat.c:318-327 | get_sector is first_non_root_sector + (cluster - 2) * sectors_per_cluster exactly when that is below 2^32 |
| Fat.EndStays | fat.c:416-420 | A chain that has ended stays ended |
| Fat.Cursor.GetNextBdevBlockNum | fat.c:411-433 | For indices that do not decrease the cursor is the pure n-th successor; past the end NO_BLOCK and the end-of-file flag |
| BlockMaps.BlockInFile | libfs.c:202-221 | A stretch of the file within one block is that stretch of the block on the disk |
| LibFs.FileByte | libfs.c:186-221 | Byte r of block i of a file, at i * block size + r, is byte r of that block on the disk |
| BlockMaps.BlockMap.Next | libfs.c:215 | The callback agrees with the block map for a list, an inode and a chain |
| LibFs.ProgressGoesOn | libfs.c:202-212 | The segment arithmetic covers the request block by block without gap or overlap |
| LibFs.StoppedAt | libfs.c:215-217 | At the first missing block exactly the bytes before it have been transferred |
| LibFs.AllTransferable | libfs.c:199-217 | With no block missing up to the end of the request all of it is transferred |
| LibFs.SomeTransferable | libfs.c:199-217 | Otherwise the bytes up to the start of the first missing block |
| LibFs.FsRead | libfs.c:183-260 | The buffer gets file[pos..pos+n), or up to the first missing block, and pos advances by as much |
| LibFs.WriteInFile | libfs.c:324-348 | A write within a block of the file changes the file there and nowhere else |
| LibFs.FsWrite | libfs.c:262-354 | Exactly file[pos..pos+n) changes and no byte outside the file's blocks; len becomes max(len, pos+n) |
| LibFs.NofsIsListed | nofs.c:241-253 | The callback of nofs.c, the only one that fs_fwrite is called with, is a fixed list of blocks that do not overlap, but for blocks that the disk does not have |
| StorageRuns.WriteThenRead | libfs.c:183-354 | A read at the same position returns the bytes written |
| StorageRuns.Ext2FileBlock | ext2.c:282-289 | Block i of an ext2 file is the i-th block of its flattened tree on the disk |
| StorageRuns.FatFileBlock | fat.c:148-159 | Block i of a FAT file is the stretch of the disk from 512 times the sector of the i-th cluster of its chain on, so fs_fread gives the clusters one after the other |

## Left out

- Head words are modelled unpacked, as a size and two bits, and memory as one map per chunk field; `HeapLayout` proves that in a heap in order these words and the callers' bytes do not overlap, but accesses in the middle of an operation go by field.
- A head word inside user data, which set_inuse reads before it is written, counts as an empty head; both calls of set_inuse overwrite all of it.
- The heads of small bins and the tree bin slots are the only addresses below zero, since malloc_state is not in the heap.
- Malloc.Malloc.Dispose: one method stands for dispose_chunk and the equal body of dlfree; dlfree's count of release checks is not modelled, since release_unused_segments finds nothing to do with one segment.
- The CORRUPTION and USAGE error actions are not modelled: the links they test are part of the invariant, and callers pass null or a block in use.
- mmap, mspaces, locks, footers and PROCEED_ON_ERROR are compiled out; add_segment, prepend_alloc, sys_trim and the release of a partial extension are unreachable with this sbrk, as the contracts of MoreContiguous, MoreSegment and TrimNeverDue show.
- calloc, independent_calloc, mallinfo, mallopt, malloc_usable_size and bulk free are not modelled: they would add easy members.
- HeapLayout.FieldsOutsideBlocks: speaks of a heap in order, between operations; Stores.StepSpared and the contracts of Malloc.Malloc speak of what an operation changes.
- Stores.StepSpared: compares words before and after an operation; a store that leaves a word as it was, or is undone within the operation, is not seen. Since callers may have put any value there (BlockWrites.HeapStays), only storing a word's own value can stay unseen.
- A heap shared with other callers of sbrk is not modelled; in this repository the allocator is the only one.
- Breaks.Break.Sbrk: the image is assumed to be linked as the linker scripts do, with _start at 0x8000 to 0x10000 on a sector boundary, and MAX_BUF is the value without USB.
- MemChunks.AnswerAll: the regions of a run end at or below 2^32 - 4096 and the sums of its requests do not wrap, which a caller can check; what happens otherwise is WrappingRequestGranted, AnyChunkWraps and SearchNeverEnds.
- MemChunks.ChunkAllocator.GetAnyChunk: with max_free above 2^32 - 4096 it needs an available page, because otherwise the search does not end (SearchNeverEnds); lists are sequences, and allocating their nodes does not fail.
- Malloc.Malloc.Memalign: needs an alignment of at most 2^31, because beyond that the rounding loop does not end (DoublingNeverEnds); masks with a power of two are written bit by bit.
- StrToL.StrToLong: longs have 32 bits; the locale argument is ignored as in the source, and errno and endptr are results.
- KSprintN.KSprintN: kvprintf, its only caller, is not modelled.
- Disks.Disk.Read: devices do not fail and transfer whole requests; the code mixes negative results with sizes when they do not.
- BlockCaches.Cache.Read: block number 0xffffffff is excluded, since it is the mark of an empty slot; no disk of the model has that many blocks.
- BlockCaches.CacheInit: memory for the structures can always be allocated, and the number of blocks that fit is below 2^31, since the code keeps it in an int.
- LibFs.FsRead: positions and sums stay below 2^32 as the unsigned arithmetic needs, and temporary buffers can always be allocated.
- LibFs.FsWrite: over a fixed list of blocks, which is what the callback of nofs.c gives, the only file system that writes (NofsIsListed); ext2 and FAT files can only be opened for reading. Blocks that the callback of nofs.c gives but the disk does not have are requests that fail. The rest of nofs.c is not part of this model.
- Ext2.BlocksInOrder: block sizes above 4096 are excluded, since the pointer counts wrap; blocks lie below 4 GB as get_sector_num needs. The parsing of the superblock and directories are not part of this model.
- Fat.GetNextFatEntry: sectors of 512 bytes only, and neither FAT12 nor directories; the cursor needs no acyclic chain, since it stops at the index asked for.
- Fat.Cursor.GetNextBdevBlockNum: indices that go backwards are excluded; fs_fread makes a new cursor for each call and goes forward.
- TwoWay.Search: chars are bytes 0 to 255, the bit set is an array of words, and pointers are indices into the haystack.
- Hardware drivers, the USB stack, console, configuration parsing, ELF, multiboot and device tree loading, ramdisk.c, log.c, strtoll.c and memmove are not part of this model.
