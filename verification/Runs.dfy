/** Whole runs of the allocator. */
module Runs {
  import opened TreeIndex
  import opened BinState
  import opened BlockWrites
  import opened Chunks
  import opened Heap
  import opened HeapGrows
  import opened HeapTotals
  import opened Requests
  import opened Malloc
  import opened Alignment
  import opened Breaks
  import opened Bytes
  import opened Ram

  /** What a client asks for next. */
  datatype Request =
    Get(bytes: nat) | Drop(mem: int) | Resize(mem: int, bytes: nat) | GetAligned(alignment: nat, bytes: nat) |
    Write(mem: int, at: nat, data: seq<Byte>)

  /** The C types, block pointers a client holds, an alignment that can be rounded up, and bytes of a block. */
  predicate Legal(r: Request, live: set<int>, head: map<int, Head>)
  {
    match r
    case Get(bytes) => bytes < WORD
    case Drop(mem) => mem == 0 || mem in live
    case Resize(mem, bytes) => bytes < WORD && (mem == 0 || mem in live)
    case GetAligned(alignment, bytes) => bytes < WORD && alignment <= 0x8000_0000
    case Write(mem, at, data) =>
      mem in live && mem - 8 in head && at + |data| + CHUNK_OVERHEAD <= head[mem - 8].size
  }

  /** The clients hold exactly the blocks handed out. */
  ghost predicate Holds(live: set<int>, u: map<int, nat>)
  {
    forall mem :: mem in live <==> mem - 8 in u
  }

  /** Two blocks have no byte in common, every one is aligned, and lies in the segment. */
  ghost predicate BlocksOk(v: View)
  {
    (forall p, q, a :: InBlock(Used(v.t), p, a) && InBlock(Used(v.t), q, a) ==> p == q) &&
    (forall p :: p in Used(v.t) ==> p % 8 == 0 && p > 0) &&
    (forall p, a :: InBlock(Used(v.t), p, a) ==> v.base <= a < v.end + TOP_FOOT_SIZE)
  }

  lemma BlocksAreOk(v: View)
    requires NoHeap(v) || HeapOk(v)
    ensures BlocksOk(v)
  {
    forall p, q, a | InBlock(Used(v.t), p, a) && InBlock(Used(v.t), q, a) ensures p == q {
      if p != q { BlocksApart(v, p, q); }
    }
    forall p | p in Used(v.t) ensures p % 8 == 0 && p > 0 && v.base <= p && p + v.t[p].size <= v.end {
      ChunkHere(v, p);
    }
  }

  // ----- one request

  /** A heap and its clients at one time: chunks, bins, the segment, the break, the bytes in memory, and the blocks held. */
  datatype Moment = Moment(v: View, bins: Bins, space: Space, brk: nat, bytes: map<int, Byte>, live: set<int>)

  ghost function MomentOf(heap: Malloc, ram: Ram, live: set<int>): Moment
    reads heap, heap.bins, heap.sys, ram
  {
    Moment(heap.V(), heap.bins.State(), heap.space, heap.sys.Current(), ram.bytes, live)
  }

  /** The least multiple of 8 from 16 up that holds the bytes and a word. */
  function ChunkFor(bytes: nat): nat
  {
    if bytes < 5 then 16 else (bytes + 11) / 8 * 8
  }

  /** With a page to spare nb bytes more would pass the limit of the break. */
  predicate PastLimit(brk: nat, limit: nat, nb: nat)
  {
    brk + nb + SYS_ALLOC_PADDING + PAGE > limit
  }

  /** Everything a client can see is as it was. */
  predicate NothingDone(s: Moment, s': Moment)
  {
    s'.v == s.v && s'.brk == s.brk && s'.bytes == s.bytes && s'.live == s.live
  }

  ghost predicate KeepsBytes(s: Moment, s': Moment)
  {
    BytesKept(Used(s.v.t), Used(s'.v.t), s.bytes, s'.bytes)
  }

  /** malloc: a new block from the chunk that the rules choose, or none because nothing fits. */
  ghost predicate Got(limit: nat, bytes: nat, mem: int, s: Moment, s': Moment)
  {
    if mem == 0
    then NothingDone(s, s') && Exhausted(s.v, SizeWanted(bytes)) && PastLimit(s.brk, limit, SizeWanted(bytes)) &&
         (bytes < 0xFFFF_FFC0 ==> NothingFor(s.v, s.brk, limit, ChunkFor(bytes)))
    else bytes < MAX_REQUEST && Took(s.v, s'.v, mem - 8, RequestSize(bytes)) && s'.live == s.live + {mem} &&
         KeepsBytes(s, s') &&
         ComesFrom(s.v, s.brk, RequestSize(bytes), mem - 8)
  }

  /** free: exactly that block is gone. */
  ghost predicate Dropped(mem: int, s: Moment, s': Moment)
  {
    Used(s'.v.t) == (if mem == 0 then Used(s.v.t) else Used(s.v.t) - {mem - 8}) && s'.live == s.live - {mem} &&
    s'.brk == s.brk && KeepsBytes(s, s')
  }

  /** realloc: in place exactly when there is room, with the bytes that both blocks have, or not at all. */
  ghost predicate Resized(limit: nat, oldmem: int, bytes: nat, mem: int, s: Moment, s': Moment)
  {
    if mem == 0
    then NothingDone(s, s') && NoRoomToResize(s.v, oldmem, bytes) &&
         (bytes < 0xFFFF_FFC0 ==>
            NothingFor(s.v, s.brk, limit, ChunkFor(bytes)) &&
            (oldmem != 0 ==> Cramped(s.v, oldmem - 8, ChunkFor(bytes))))
    else Replaced(Used(s.v.t), Used(s'.v.t), oldmem, mem, bytes) && ResizePlace(s.v, s.brk, oldmem, mem, bytes) &&
         BlockMoved(Used(s.v.t), s.bytes, s'.bytes, oldmem, mem, bytes) && s'.live == s.live - {oldmem} + {mem} &&
         (oldmem != 0 && oldmem - 8 in Used(s.v.t) ==>
            forall a :: oldmem <= a < oldmem + bytes && a < oldmem + Used(s.v.t)[oldmem - 8] - 4 ==>
              At(s'.bytes, mem + (a - oldmem)) == At(s.bytes, a))
  }

  /** memalign: a new block at a multiple of the rounded alignment, or none because nothing fits. */
  ghost predicate GotAligned(limit: nat, alignment: nat, bytes: nat, mem: int, s: Moment, s': Moment)
  {
    if mem == 0
    then NothingDone(s, s') && NoRoomAligned(s.v, alignment, bytes) &&
         (bytes + alignment < 0xFFFF_FFC0 ==> NothingFor(s.v, s.brk, limit, ChunkFor(bytes) + alignment + 16))
    else AlignedBlock(Used(s.v.t), Used(s'.v.t), mem, alignment, bytes) && s'.live == s.live + {mem} && KeepsBytes(s, s')
  }

  /** A client has written into a block: words of the allocator that lie in blocks may have become anything. */
  ghost predicate Wrote(at: int, data: seq<Byte>, s: Moment, s': Moment)
  {
    s'.v == s.v.(w := s'.v.w) && TagsInBlocks(s.v.w, s'.v.w, Used(s.v.t)) && s'.brk == s.brk && s'.live == s.live &&
    Slice(s'.bytes, at, |data|) == data && forall a :: !(at <= a < at + |data|) ==> At(s'.bytes, a) == At(s.bytes, a)
  }

  /** The request r was answered with mem. */
  ghost predicate Served(limit: nat, r: Request, mem: int, s: Moment, s': Moment)
  {
    match r
    case Get(bytes) => Got(limit, bytes, mem, s, s')
    case Drop(gone) => Dropped(gone, s, s')
    case Resize(oldmem, bytes) => Resized(limit, oldmem, bytes, mem, s, s')
    case GetAligned(asked, bytes) =>
      exists alignment: nat :: RoundedUp(asked, alignment) && GotAligned(limit, alignment, bytes, mem, s, s')
    case Write(into, at, data) => Wrote(into + at, data, s, s')
  }

  method ServeGet(heap: Malloc, ram: Ram, bytes: nat, live: set<int>) returns (mem: int, live': set<int>)
    requires heap.Valid() && Holds(live, Used(heap.tile)) && bytes < WORD
    modifies heap`w, heap`tile, heap`space, heap.bins, heap.sys`curBrk, ram
    ensures heap.Valid() && Holds(live', Used(heap.tile))
    ensures Got(MaxBrk(heap.sys.start), bytes, mem, old(MomentOf(heap, ram, live)), MomentOf(heap, ram, live'))
  {
    hide HeapOk, BinsOk, Took, Chosen, ComesFrom, SomeCandidate, Exhausted, RequestSize, Slice, BytesKept, At, InBlock,
         SizeWanted, NothingFor;
    ghost var v := heap.V();
    live' := live;
    mem := heap.AllocateIn(ram, bytes);
    if mem != 0 {
      TookHolds(v, heap.V(), live, mem, RequestSize(bytes));
      live' := live + {mem};
    }
  }

  method ServeResize(heap: Malloc, ram: Ram, oldmem: int, bytes: nat, live: set<int>)
    returns (mem: int, live': set<int>)
    requires heap.Valid() && Holds(live, Used(heap.tile)) && bytes < WORD && (oldmem == 0 || oldmem in live)
    modifies heap`w, heap`tile, heap`space, heap.bins, heap.sys`curBrk, ram
    ensures heap.Valid() && Holds(live', Used(heap.tile))
    ensures Resized(MaxBrk(heap.sys.start), oldmem, bytes, mem, old(MomentOf(heap, ram, live)),
                    MomentOf(heap, ram, live'))
  {
    hide HeapOk, BinsOk, Exhausted, RequestSize, Replaced, Slice, BlockMoved, ResizePlace, NoRoomToResize, At, InBlock;
    ghost var v := heap.V();
    live' := live;
    mem := heap.Reallocate(ram, oldmem, bytes);
    if mem != 0 {
      ReplacedHolds(v, Used(v.t), Used(heap.tile), live, oldmem, mem, bytes);
      live' := live - {oldmem} + {mem};
    }
  }

  method ServeAligned(heap: Malloc, ram: Ram, asked: nat, bytes: nat, live: set<int>)
    returns (mem: int, live': set<int>, ghost alignment: nat)
    requires heap.Valid() && Holds(live, Used(heap.tile)) && bytes < WORD && asked <= 0x8000_0000
    modifies heap`w, heap`tile, heap`space, heap.bins, heap.sys`curBrk, ram
    ensures heap.Valid() && Holds(live', Used(heap.tile)) && RoundedUp(asked, alignment)
    ensures GotAligned(MaxBrk(heap.sys.start), alignment, bytes, mem, old(MomentOf(heap, ram, live)),
                       MomentOf(heap, ram, live'))
  {
    hide HeapOk, BinsOk, Slice, BytesKept, NoRoomAligned, RoundedUp, AlignedBlock, At, InBlock, NothingFor;
    ghost var v := heap.V();
    live' := live;
    mem, alignment := heap.MemalignIn(ram, asked, bytes);
    if mem != 0 {
      AlignedHolds(Used(v.t), Used(heap.tile), live, mem, alignment, bytes);
      live' := live + {mem};
    }
  }

  /** One request. */
  method Serve(heap: Malloc, ram: Ram, r: Request, live: set<int>) returns (mem: int, live': set<int>)
    requires heap.Valid() && Holds(live, Used(heap.tile)) && Legal(r, live, heap.w.head)
    modifies heap`w, heap`tile, heap`space, heap.bins, heap.sys`curBrk, ram
    ensures heap.Valid() && Holds(live', Used(heap.tile))
    ensures Served(MaxBrk(heap.sys.start), r, mem, old(MomentOf(heap, ram, live)), MomentOf(heap, ram, live'))
  {
    hide HeapOk, BinsOk, Slice, BytesKept, TagsInBlocks, RoundedUp, Got, Resized, GotAligned;
    ghost var v := heap.V();
    live' := live;
    match r
    case Get(bytes) =>
      mem, live' := ServeGet(heap, ram, bytes, live);
    case Drop(gone) =>
      mem := 0;
      heap.FreeIn(ram, gone);
      NullNotHeld(v, heap.V(), live);
      live' := live - {gone};
    case Resize(oldmem, bytes) =>
      mem, live' := ServeResize(heap, ram, oldmem, bytes, live);
    case GetAligned(asked, bytes) =>
      ghost var alignment: nat;
      mem, live', alignment := ServeAligned(heap, ram, asked, bytes, live);
    case Write(into, at, data) =>
      mem := 0;
      InBlockHeld(v, live, into, at, |data|);
      ram.Write(into + at, data);
      heap.Overwritten(into + at, |data|, into - 8);
  }

  lemma InBlockHeld(v: View, live: set<int>, mem: int, at: nat, n: nat)
    requires (NoHeap(v) || HeapOk(v)) && Holds(live, Used(v.t)) && mem in live
    requires mem - 8 in v.w.head && at + n + CHUNK_OVERHEAD <= v.w.head[mem - 8].size
    ensures WithinBlock(Used(v.t), mem - 8, mem + at, n)
  {
    ChunkHere(v, mem - 8);
    hide HeapOk;
  }

  lemma TookHolds(v: View, v': View, live: set<int>, mem: int, nb: nat)
    requires Holds(live, Used(v.t)) && Took(v, v', mem - 8, nb)
    ensures Holds(live + {mem}, Used(v'.t))
  {}

  lemma NullNotHeld(v: View, v': View, live: set<int>)
    requires (NoHeap(v) || HeapOk(v)) && Holds(live, Used(v.t))
    ensures 0 !in live
  {
    BlocksAreOk(v);
  }

  lemma ReplacedHolds(v: View, u: map<int, nat>, u': map<int, nat>, live: set<int>, mem: int, mem': int, bytes: nat)
    requires (NoHeap(v) || HeapOk(v)) && u == Used(v.t) && Holds(live, u) && Replaced(u, u', mem, mem', bytes)
    ensures Holds(live - {mem} + {mem'}, u')
  {
    NullNotHeld(v, v, live);
    hide HeapOk, RequestSize;
  }

  lemma AlignedHolds(u: map<int, nat>, u': map<int, nat>, live: set<int>, mem: int, alignment: nat, bytes: nat)
    requires Holds(live, u) && AlignedBlock(u, u', mem, alignment, bytes)
    ensures Holds(live + {mem}, u')
  {}

  // ----- whole runs

  /** The heap is in order, the clients hold its blocks, and every byte up to the break is accounted for. */
  ghost predicate InOrder(limit: nat, s: Moment)
  {
    (NoHeap(s.v) || HeapOk(s.v)) && BinsOk(s.bins) && s.bins.binned == s.v.binned &&
    Holds(s.live, Used(s.v.t)) && BlocksOk(s.v) &&
    (s.v.w.top != 0 ==>
       Total(Used(s.v.t)) + Total(s.v.binned) + s.v.w.dvsize + s.v.w.topsize + 40 ==
       s.space.size == s.space.footprint == s.brk - s.space.base && s.brk < limit)
  }

  lemma ValidInOrder(heap: Malloc, ram: Ram, live: set<int>)
    requires heap.Valid() && Holds(live, Used(heap.tile))
    ensures InOrder(MaxBrk(heap.sys.start), MomentOf(heap, ram, live))
  {
    hide HeapOk, BinsOk;
    BlocksAreOk(heap.V());
    if heap.w.top != 0 { BytesAccounted(heap.V()); }
  }

  /** A request that is not legal when its turn comes is passed over. */
  ghost predicate Step(limit: nat, r: Request, mem: int, s: Moment, s': Moment)
  {
    if Legal(r, s.live, s.v.w.head) then Served(limit, r, mem, s, s') else s' == s
  }

  /** The moments before and after every request, each reached from the one before by serving the request. */
  ghost predicate IsRun(limit: nat, requests: seq<Request>, answers: seq<int>, moments: seq<Moment>)
  {
    |answers| == |requests| && |moments| == |requests| + 1 &&
    (forall i :: 0 <= i <= |requests| ==> InOrder(limit, moments[i])) &&
    (forall i :: 0 <= i < |requests| ==> Step(limit, requests[i], answers[i], moments[i], moments[i + 1]))
  }

  lemma RunOn(limit: nat, requests: seq<Request>, r: Request, answers: seq<int>, mem: int, moments: seq<Moment>,
              s: Moment)
    requires IsRun(limit, requests, answers, moments) && InOrder(limit, s) &&
             Step(limit, r, mem, moments[|requests|], s)
    ensures IsRun(limit, requests + [r], answers + [mem], moments + [s])
  {
    hide InOrder, Step;
  }

  /** The requests are served one after the other; answers and moments say what came of each. */
  method Run(heap: Malloc, ram: Ram, requests: seq<Request>)
    returns (answers: seq<int>, live: set<int>, ghost moments: seq<Moment>)
    requires heap.Valid() && Used(heap.tile) == map[]
    modifies heap`w, heap`tile, heap`space, heap.bins, heap.sys`curBrk, ram
    ensures heap.Valid() && IsRun(MaxBrk(heap.sys.start), requests, answers, moments)
    ensures moments[0] == old(MomentOf(heap, ram, {})) && moments[|requests|] == MomentOf(heap, ram, live)
  {
    hide HeapOk, BinsOk, Legal, InOrder, Served;
    ghost var limit := MaxBrk(heap.sys.start);
    live, answers, moments := {}, [], [MomentOf(heap, ram, {})];
    ValidInOrder(heap, ram, live);
    for i := 0 to |requests|
      invariant heap.Valid() && Holds(live, Used(heap.tile)) && limit == MaxBrk(heap.sys.start)
      invariant IsRun(limit, requests[..i], answers, moments)
      invariant moments[0] == old(MomentOf(heap, ram, {})) && moments[i] == MomentOf(heap, ram, live)
    {
      var mem := 0;
      if Legal(requests[i], live, heap.w.head) {
        mem, live := Serve(heap, ram, requests[i], live);
      }
      ValidInOrder(heap, ram, live);
      RunOn(limit, requests[..i], requests[i], answers, mem, moments, MomentOf(heap, ram, live));
      assert requests[..i] + [requests[i]] == requests[..i + 1];
      answers, moments := answers + [mem], moments + [MomentOf(heap, ram, live)];
    }
    assert requests[..|requests|] == requests;
  }
}
