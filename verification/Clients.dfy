/** What clients see of the allocator: every block is a sequence of bytes of its own. */
module Clients {
  import opened TreeIndex
  import opened BlockWrites
  import opened BinState
  import opened Chunks
  import opened Heap
  import opened HeapGrows
  import opened HeapTotals
  import opened Requests
  import opened Malloc
  import opened Alignment
  import opened Bytes
  import opened Ram
  import opened Runs

  /** The blocks held, by address, and what is in them. */
  type Blocks = map<int, seq<Byte>>

  predicate Allowed(c: Blocks, r: Request)
  {
    match r
    case Get(bytes) => bytes < 0x1_0000_0000
    case Drop(mem) => mem == 0 || mem in c
    case Resize(mem, bytes) => bytes < 0x1_0000_0000 && (mem == 0 || mem in c)
    case GetAligned(alignment, bytes) => bytes < 0x1_0000_0000 && alignment <= 0x8000_0000
    case Write(mem, at, data) => mem in c && at + |data| <= |c[mem]|
  }

  /** There is one block more, at mem, with room for the bytes. */
  predicate Added(c: Blocks, c': Blocks, mem: int, bytes: nat)
  {
    mem > 0 && mem % 8 == 0 && mem !in c && mem in c' && c' - {mem} == c && |c'[mem]| >= bytes
  }

  /** The first n bytes of x, or all if they are fewer, are the first of y. */
  predicate Begins(x: seq<Byte>, y: seq<Byte>, n: nat)
  {
    forall i :: 0 <= i < n && i < |x| ==> i < |y| && y[i] == x[i]
  }

  /** What a request answered with mem does to the blocks; answer 0 leaves them as they are. */
  ghost predicate Does(r: Request, mem: int, c: Blocks, c': Blocks)
  {
    match r
    case Get(bytes) => if mem == 0 then c' == c else Added(c, c', mem, bytes)
    case Drop(gone) => c' == c - {gone}
    case Resize(oldmem, bytes) =>
      if mem == 0 then c' == c
      else Added(c - {oldmem}, c', mem, bytes) && (oldmem in c ==> Begins(c[oldmem], c'[mem], bytes))
    case GetAligned(asked, bytes) =>
      if mem == 0 then c' == c
      else Added(c, c', mem, bytes) && exists k: nat :: Pow2(k) >= 16 && Pow2(k) >= asked && mem % Pow2(k) == 0
    case Write(into, at, data) =>
      into in c && at + |data| <= |c[into]| &&
      c' == c[into := c[into][..at] + data + c[into][at + |data|..]]
  }

  /** A request that is not allowed is passed over. */
  ghost predicate Answered(r: Request, mem: int, c: Blocks, c': Blocks)
  {
    if Allowed(c, r) then Does(r, mem, c, c') else c' == c
  }

  // ----- the heap as blocks

  /** The bytes from behind the head of the chunk up to its end and the word behind. */
  ghost function Contents(s: Moment): (c: Blocks)
  {
    ContentsOf(Used(s.v.t), s.bytes, s.live)
  }

  ghost function ContentsOf(u: map<int, nat>, b: map<int, Byte>, live: set<int>): (c: Blocks)
    ensures forall mem :: mem in c <==> mem in live && mem - 8 in u && u[mem - 8] >= 4
    ensures forall mem {:trigger c[mem]} :: mem in c ==> c[mem] == Slice(b, mem, u[mem - 8] - 4)
  {
    map mem | mem in live && mem - 8 in u && u[mem - 8] >= 4 :: Slice(b, mem, u[mem - 8] - 4)
  }

  lemma UsedChunk(v: View, p: int)
    requires (NoHeap(v) || HeapOk(v)) && p in Used(v.t)
    ensures p > 0 && p % 8 == 0 && Used(v.t)[p] >= 8 && p in v.w.head && v.w.head[p].size == Used(v.t)[p]
  {
    ChunkHere(v, p);
  }

  /** The clients hold exactly the chunks in use, which are aligned and have room for two words. */
  ghost predicate Held(u: map<int, nat>, live: set<int>)
  {
    (forall mem {:trigger mem in live} :: mem in live <==> mem - 8 in u) &&
    forall mem {:trigger mem in live} :: mem in live ==> u[mem - 8] >= 8 && mem > 8 && mem % 8 == 0
  }

  lemma ContentsHeld(limit: nat, s: Moment)
    requires InOrder(limit, s)
    ensures Held(Used(s.v.t), s.live)
  {
    hide HeapOk, BlocksOk, Total;
    forall mem | mem in s.live ensures Used(s.v.t)[mem - 8] >= 8 && mem > 8 && mem % 8 == 0 { UsedChunk(s.v, mem - 8); }
  }

  lemma AllowedHere(u: map<int, nat>, b: map<int, Byte>, live: set<int>, head: map<int, Head>, r: Request)
    requires Held(u, live)
    requires r.Write? && r.mem in live ==> r.mem - 8 in head && head[r.mem - 8].size == u[r.mem - 8]
    ensures Allowed(ContentsOf(u, b, live), r) <==> Legal(r, live, head)
  {
    var c := ContentsOf(u, b, live);
    assert forall mem :: mem in c <==> mem in live;
    hide Held, Slice, ContentsOf;
  }

  /** The bytes a block may be written to are those it has. */
  lemma AllowedIsLegal(limit: nat, s: Moment, r: Request)
    requires InOrder(limit, s)
    ensures Allowed(Contents(s), r) <==> Legal(r, s.live, s.v.w.head)
  {
    ContentsHeld(limit, s);
    hide HeapOk, BlocksOk, Total, Allowed, Legal, BinsOk;
    if r.Write? && r.mem in s.live { UsedChunk(s.v, r.mem - 8); }
    AllowedHere(Used(s.v.t), s.bytes, s.live, s.v.w.head, r);
  }

  /** A block that is in use before and after, with the same size and the same bytes. */
  lemma Stays(u: map<int, nat>, u': map<int, nat>, b: map<int, Byte>, b': map<int, Byte>, mem: int)
    requires mem - 8 in u && mem - 8 in u' && u'[mem - 8] == u[mem - 8] >= 4
    requires forall a :: InBlock(u, mem - 8, a) ==> At(b', a) == At(b, a)
    ensures Slice(b', mem, u'[mem - 8] - 4) == Slice(b, mem, u[mem - 8] - 4)
  {
    forall i | 0 <= i < u[mem - 8] - 4 ensures SameAt(b, b', mem, mem, i) { assert InBlock(u, mem - 8, mem + i); }
    SliceAgrees(b, b', mem, mem, u[mem - 8] - 4);
  }

  /** All blocks of l stay. */
  ghost predicate Remain(u: map<int, nat>, u': map<int, nat>, b: map<int, Byte>, b': map<int, Byte>, l: set<int>)
  {
    (forall m :: m in l ==> m - 8 in u && m - 8 in u' && u'[m - 8] == u[m - 8] >= 8) &&
    forall m, a {:trigger m in l, InBlock(u, m - 8, a)} :: m in l && InBlock(u, m - 8, a) ==> At(b', a) == At(b, a)
  }

  lemma AllStay(u: map<int, nat>, u': map<int, nat>, b: map<int, Byte>, b': map<int, Byte>, l: set<int>)
    requires Remain(u, u', b, b', l)
    ensures ContentsOf(u', b', l) == ContentsOf(u, b, l)
  {
    hide InBlock, At, Slice, ContentsOf;
    forall m | m in l ensures Slice(b', m, u'[m - 8] - 4) == Slice(b, m, u[m - 8] - 4) { Stays(u, u', b, b', m); }
  }

  /** What fewer clients hold is part of what all hold. */
  lemma Fewer(u: map<int, nat>, b: map<int, Byte>, l: set<int>, mem: int)
    ensures ContentsOf(u, b, l - {mem}) == ContentsOf(u, b, l) - {mem}
  {}

  /** One chunk more, and the others as they were. */
  lemma OneMore(u: map<int, nat>, u': map<int, nat>, b: map<int, Byte>, b': map<int, Byte>, l: set<int>, mem: int,
                bytes: nat)
    requires Remain(u, u', b, b', l) && Held(u', l + {mem})
    requires mem !in l && u'[mem - 8] >= bytes + 4
    ensures Added(ContentsOf(u, b, l), ContentsOf(u', b', l + {mem}), mem, bytes)
  {
    AllStay(u, u', b, b', l);
    Fewer(u', b', l + {mem}, mem);
    assert l + {mem} - {mem} == l;
    hide Remain, ContentsOf, Slice;
    assert mem in l + {mem};
  }

  /** The blocks of l keep their bytes when those of all chunks in use before and after are kept. */
  lemma AllKept(u: map<int, nat>, u': map<int, nat>, b: map<int, Byte>, b': map<int, Byte>, l: set<int>)
    requires BytesKept(u, u', b, b')
    requires forall m :: m in l ==> m - 8 in u && m - 8 in u' && u'[m - 8] == u[m - 8] >= 8
    ensures Remain(u, u', b, b', l)
  {
    forall m, a | m in l && InBlock(u, m - 8, a) ensures At(b', a) == At(b, a) { assert InBlock(u', m - 8, a); }
  }

  lemma GotDoes(limit: nat, bytes: nat, mem: int, s: Moment, s': Moment)
    requires Held(Used(s.v.t), s.live) && Held(Used(s'.v.t), s'.live) && Got(limit, bytes, mem, s, s')
    ensures Does(Get(bytes), mem, Contents(s), Contents(s'))
  {
    if mem != 0 {
      RequestSizeFits(bytes);
      hide RequestSize, ComesFrom, ContentsOf, BytesKept, NothingFor, Exhausted;
      var u, u' := Used(s.v.t), Used(s'.v.t);
      hide Used;
      AllKept(u, u', s.bytes, s'.bytes, s.live);
      OneMore(u, u', s.bytes, s'.bytes, s.live, mem, bytes);
    }
  }

  lemma AlignedAdds(u: map<int, nat>, u': map<int, nat>, b: map<int, Byte>, b': map<int, Byte>, l: set<int>, mem: int,
                    alignment: nat, bytes: nat)
    requires Held(u, l) && Held(u', l + {mem}) && AlignedBlock(u, u', mem, alignment, bytes) && BytesKept(u, u', b, b')
    ensures Added(ContentsOf(u, b, l), ContentsOf(u', b', l + {mem}), mem, bytes)
    ensures alignment > 0 ==> mem % alignment == 0
  {
    assert bytes + 4 <= RequestSize(bytes);
    hide RequestSize, ContentsOf, BytesKept, MultipleOf;
    AllKept(u, u', b, b', l);
    OneMore(u, u', b, b', l, mem, bytes);
    if alignment > 0 { MultipleMeans(mem, alignment); }
  }

  lemma GotAlignedDoes(limit: nat, asked: nat, alignment: nat, bytes: nat, mem: int, s: Moment, s': Moment)
    requires Held(Used(s.v.t), s.live) && Held(Used(s'.v.t), s'.live) && GotAligned(limit, alignment, bytes, mem, s, s')
    requires RoundedUp(asked, alignment)
    ensures Does(GetAligned(asked, bytes), mem, Contents(s), Contents(s'))
  {
    hide ContentsOf, BytesKept, MultipleOf, RoundedUp, AlignedBlock, Added, Held, NoRoomAligned, NothingFor;
    var u, u' := Used(s.v.t), Used(s'.v.t);
    RoundedMeans(asked, alignment);
    if mem != 0 { AlignedAdds(u, u', s.bytes, s'.bytes, s.live, mem, alignment, bytes); }
  }

  lemma DroppedDoes(mem: int, s: Moment, s': Moment)
    requires Held(Used(s.v.t), s.live) && Dropped(mem, s, s')
    ensures Does(Drop(mem), 0, Contents(s), Contents(s'))
  {
    var u, u' := Used(s.v.t), Used(s'.v.t);
    hide Used, ContentsOf, BytesKept;
    AllKept(u, u', s.bytes, s'.bytes, s'.live);
    AllStay(u, u', s.bytes, s'.bytes, s'.live);
    Fewer(u, s.bytes, s.live, mem);
  }

  lemma MovedKept(u: map<int, nat>, u': map<int, nat>, b: map<int, Byte>, b': map<int, Byte>, live: set<int>,
                  oldmem: int, mem: int, bytes: nat)
    requires Held(u, live) && Replaced(u, u', oldmem, mem, bytes) && BlockMoved(u, b, b', oldmem, mem, bytes)
    ensures Remain(u, u', b, b', live - {oldmem}) && mem !in live - {oldmem} && u'[mem - 8] >= bytes + 4
  {
    RequestSizeFits(bytes);
    hide RequestSize, Slice, InBlock;
  }

  /** A block that was moved or resized has the bytes that both sizes share. */
  lemma FirstBytes(u: map<int, nat>, u': map<int, nat>, b: map<int, Byte>, b': map<int, Byte>, oldmem: int, mem: int,
                   bytes: nat)
    requires mem - 8 in u' && u'[mem - 8] >= bytes + 4 && oldmem != 0 && oldmem - 8 in u && u[oldmem - 8] >= 4
    requires BlockMoved(u, b, b', oldmem, mem, bytes)
    ensures Begins(Slice(b, oldmem, u[oldmem - 8] - 4), Slice(b', mem, u'[mem - 8] - 4), bytes)
  {
    var x, x' := Slice(b, oldmem, u[oldmem - 8] - 4), Slice(b', mem, u'[mem - 8] - 4);
    var n := if u[oldmem - 8] - 4 < bytes then u[oldmem - 8] - 4 else bytes;
    assert Slice(b', mem, n) == Slice(b, oldmem, n);
    forall i | 0 <= i < bytes && i < |x| ensures x'[i] == x[i] {
      assert Slice(b', mem, n)[i] == Slice(b, oldmem, n)[i];
    }
  }

  lemma ResizeAdds(u: map<int, nat>, u': map<int, nat>, b: map<int, Byte>, b': map<int, Byte>, l: set<int>, oldmem: int,
                   mem: int, bytes: nat)
    requires Held(u, l) && Held(u', l - {oldmem} + {mem})
    requires Replaced(u, u', oldmem, mem, bytes) && BlockMoved(u, b, b', oldmem, mem, bytes)
    ensures Added(ContentsOf(u, b, l) - {oldmem}, ContentsOf(u', b', l - {oldmem} + {mem}), mem, bytes)
    ensures mem in ContentsOf(u', b', l - {oldmem} + {mem}) && mem - 8 in u' && u'[mem - 8] >= bytes + 4
  {
    MovedKept(u, u', b, b', l, oldmem, mem, bytes);
    hide Replaced, BlockMoved, ContentsOf, Remain, Held;
    OneMore(u, u', b, b', l - {oldmem}, mem, bytes);
    Fewer(u, b, l, oldmem);
  }

  lemma BlockIs(u: map<int, nat>, b: map<int, Byte>, l: set<int>, mem: int)
    requires mem in ContentsOf(u, b, l)
    ensures mem - 8 in u && u[mem - 8] >= 4 && ContentsOf(u, b, l)[mem] == Slice(b, mem, u[mem - 8] - 4)
  {}

  lemma ResizeKeeps(u: map<int, nat>, u': map<int, nat>, b: map<int, Byte>, b': map<int, Byte>, l: set<int>,
                    l': set<int>, oldmem: int, mem: int, bytes: nat)
    requires oldmem != 0 && oldmem in ContentsOf(u, b, l) && mem in ContentsOf(u', b', l')
    requires mem - 8 in u' && u'[mem - 8] >= bytes + 4 && BlockMoved(u, b, b', oldmem, mem, bytes)
    ensures Begins(ContentsOf(u, b, l)[oldmem], ContentsOf(u', b', l')[mem], bytes)
  {
    BlockIs(u, b, l, oldmem);
    BlockIs(u', b', l', mem);
    hide *;
    FirstBytes(u, u', b, b', oldmem, mem, bytes);
  }

  lemma ResizeDoes(u: map<int, nat>, u': map<int, nat>, b: map<int, Byte>, b': map<int, Byte>, l: set<int>, oldmem: int,
                   mem: int, bytes: nat)
    requires Held(u, l) && Held(u', l - {oldmem} + {mem}) && mem != 0
    requires Replaced(u, u', oldmem, mem, bytes) && BlockMoved(u, b, b', oldmem, mem, bytes)
    ensures Does(Resize(oldmem, bytes), mem, ContentsOf(u, b, l), ContentsOf(u', b', l - {oldmem} + {mem}))
  {
    var l' := l - {oldmem} + {mem};
    assert 0 !in l;
    hide Replaced, BlockMoved, Held, At, Slice, Added, ContentsOf, Begins;
    ResizeAdds(u, u', b, b', l, oldmem, mem, bytes);
    if oldmem in ContentsOf(u, b, l) { ResizeKeeps(u, u', b, b', l, l', oldmem, mem, bytes); }
  }

  lemma ResizedParts(limit: nat, oldmem: int, bytes: nat, mem: int, s: Moment, s': Moment)
    requires Resized(limit, oldmem, bytes, mem, s, s')
    ensures if mem == 0 then NothingDone(s, s')
            else Replaced(Used(s.v.t), Used(s'.v.t), oldmem, mem, bytes) &&
                 BlockMoved(Used(s.v.t), s.bytes, s'.bytes, oldmem, mem, bytes) &&
                 s'.live == s.live - {oldmem} + {mem}
  {
    hide BlockMoved, Replaced, ResizePlace, NothingFor, Cramped, NoRoomToResize, Used, At, NothingDone;
  }

  lemma ResizedDoes(limit: nat, oldmem: int, bytes: nat, mem: int, s: Moment, s': Moment)
    requires Held(Used(s.v.t), s.live) && Held(Used(s'.v.t), s'.live) && Resized(limit, oldmem, bytes, mem, s, s')
    ensures Does(Resize(oldmem, bytes), mem, Contents(s), Contents(s'))
  {
    ResizedParts(limit, oldmem, bytes, mem, s, s');
    hide Resized, BlockMoved, Replaced, Held, Used, ContentsOf, Added, Begins;
    if mem != 0 { ResizeDoes(Used(s.v.t), Used(s'.v.t), s.bytes, s'.bytes, s.live, oldmem, mem, bytes); }
  }

  /** Blocks of different clients have no byte in common. */
  lemma BesideWritten(v: View, live: set<int>, into: int, at: nat, n: nat, b: map<int, Byte>, b': map<int, Byte>)
    requires BlocksOk(v) && Held(Used(v.t), live) && into in live && at + n + 4 <= Used(v.t)[into - 8]
    requires forall a :: !(into + at <= a < into + at + n) ==> At(b', a) == At(b, a)
    ensures Remain(Used(v.t), Used(v.t), b, b', live - {into})
  {
    var u := Used(v.t);
    forall m, a | m in live - {into} && InBlock(u, m - 8, a) ensures At(b', a) == At(b, a) {
      assert into + at <= a < into + at + n ==> InBlock(u, into - 8, a);
    }
  }

  lemma WrittenInto(u: map<int, nat>, b: map<int, Byte>, b': map<int, Byte>, live: set<int>, into: int, at: nat,
                    data: seq<Byte>)
    requires Held(u, live) && into in live && at + |data| + 4 <= u[into - 8]
    requires Slice(b', into + at, |data|) == data &&
             forall a :: !(into + at <= a < into + at + |data|) ==> At(b', a) == At(b, a)
    ensures var x := Slice(b, into, u[into - 8] - 4);
            Slice(b', into, u[into - 8] - 4) == x[..at] + data + x[at + |data|..]
  {
    var x := Slice(b, into, u[into - 8] - 4);
    var x' := Slice(b', into, u[into - 8] - 4);
    forall i | 0 <= i < |x| ensures x'[i] == (x[..at] + data + x[at + |data|..])[i] {
      if at <= i < at + |data| { assert Slice(b', into + at, |data|)[i - at] == data[i - at]; }
    }
  }

  lemma WroteDoes(into: int, at: nat, data: seq<Byte>, s: Moment, s': Moment)
    requires BlocksOk(s.v) && Held(Used(s.v.t), s.live) && Wrote(into + at, data, s, s')
    requires Allowed(Contents(s), Write(into, at, data))
    ensures Does(Write(into, at, data), 0, Contents(s), Contents(s'))
  {
    var u := Used(s.v.t);
    hide Used, BlocksOk, ContentsOf, TagsInBlocks;
    BesideWritten(s.v, s.live, into, at, |data|, s.bytes, s'.bytes);
    WrittenInto(u, s.bytes, s'.bytes, s.live, into, at, data);
    AllStay(u, u, s.bytes, s'.bytes, s.live - {into});
    Fewer(u, s.bytes, s.live, into);
    Fewer(u, s'.bytes, s.live, into);
    hide Slice, Held, Remain;
    SameBeside(Contents(s), Contents(s'), into);
  }

  lemma SameBeside(c: Blocks, c': Blocks, mem: int)
    requires c - {mem} == c' - {mem} && mem in c && mem in c'
    ensures c' == c[mem := c'[mem]]
  {
    forall m | m in c && m != mem ensures m in c' && c'[m] == c[m] { assert m in c - {mem}; }
    forall m | m in c' && m != mem ensures m in c { assert m in c' - {mem}; }
  }

  lemma ServedDoes(limit: nat, r: Request, mem: int, s: Moment, s': Moment)
    requires Held(Used(s.v.t), s.live) && Held(Used(s'.v.t), s'.live) && BlocksOk(s.v)
    requires Allowed(Contents(s), r) && Served(limit, r, mem, s, s')
    ensures Does(r, mem, Contents(s), Contents(s'))
  {
    hide Used, BlocksOk, Contents, Got, Resized, GotAligned, Dropped, Wrote, RoundedUp, Held, Allowed;
    match r
    case Get(bytes) => GotDoes(limit, bytes, mem, s, s');
    case Drop(gone) => DroppedDoes(gone, s, s');
    case Resize(oldmem, bytes) => ResizedDoes(limit, oldmem, bytes, mem, s, s');
    case GetAligned(asked, bytes) =>
      var a: nat :| RoundedUp(asked, a) && GotAligned(limit, a, bytes, mem, s, s');
      GotAlignedDoes(limit, asked, a, bytes, mem, s, s');
    case Write(into, at, data) => WroteDoes(into, at, data, s, s');
  }

  lemma InOrderHeld(limit: nat, s: Moment)
    requires InOrder(limit, s)
    ensures Held(Used(s.v.t), s.live) && BlocksOk(s.v)
  {
    ContentsHeld(limit, s);
    hide HeapOk, BlocksOk, Total, BinsOk, Held, Used;
  }

  /** What serving a request does to the heap, it does to the blocks. */
  lemma StepAnswered(limit: nat, r: Request, mem: int, s: Moment, s': Moment)
    requires InOrder(limit, s) && InOrder(limit, s') && Step(limit, r, mem, s, s')
    ensures Answered(r, mem, Contents(s), Contents(s'))
  {
    hide InOrder, Contents, Served, Held, Does, Used, BlocksOk, Allowed, Legal;
    AllowedIsLegal(limit, s, r);
    InOrderHeld(limit, s);
    InOrderHeld(limit, s');
    if Allowed(Contents(s), r) { ServedDoes(limit, r, mem, s, s'); }
  }

  // ----- whole runs

  /** Request r frees, resizes or writes the block at mem. */
  predicate Names(r: Request, mem: int)
  {
    match r
    case Drop(gone) => gone == mem
    case Resize(oldmem, bytes) => oldmem == mem
    case Write(into, at, data) => into == mem
    case _ => false
  }

  /** Requests that do not name a block leave it and its bytes. */
  lemma OthersStay(r: Request, answer: int, c: Blocks, c': Blocks, mem: int)
    requires Answered(r, answer, c, c') && mem in c && mem != 0 && !Names(r, mem)
    ensures mem in c' && c'[mem] == c[mem]
  {
    if Allowed(c, r) && answer != 0 {
      if r.Resize? { assert mem in c - {r.mem} && mem in c' - {answer}; }
      if r.Get? || r.GetAligned? { assert mem in c' - {answer}; }
    }
  }

  /** The blocks before and after each request. */
  ghost predicate ClientRun(requests: seq<Request>, answers: seq<int>, cs: seq<Blocks>)
  {
    |answers| == |requests| && |cs| == |requests| + 1 && (forall k :: 0 <= k <= |requests| ==> 0 !in cs[k]) &&
    forall k :: 0 <= k < |requests| ==> Answered(requests[k], answers[k], cs[k], cs[k + 1])
  }

  ghost function AllContents(moments: seq<Moment>): (cs: seq<Blocks>)
    ensures |cs| == |moments| && forall k :: 0 <= k < |cs| ==> cs[k] == Contents(moments[k])
  {
    seq(|moments|, k requires 0 <= k < |moments| => Contents(moments[k]))
  }

  /** Every run of the heap is a run over blocks that are sequences of bytes of their own. */
  lemma RunAnswered(limit: nat, requests: seq<Request>, answers: seq<int>, moments: seq<Moment>)
    requires IsRun(limit, requests, answers, moments)
    ensures ClientRun(requests, answers, AllContents(moments))
  {
    hide InOrder, Step, Answered, Contents;
    var cs := AllContents(moments);
    forall k | 0 <= k <= |requests| ensures 0 !in cs[k] { NullHasNoBlock(limit, moments[k]); }
    forall k | 0 <= k < |requests| ensures Answered(requests[k], answers[k], cs[k], cs[k + 1]) {
      StepAnswered(limit, requests[k], answers[k], moments[k], moments[k + 1]);
    }
  }

  lemma NullHasNoBlock(limit: nat, s: Moment)
    requires InOrder(limit, s)
    ensures 0 !in Contents(s)
  {
    ContentsHeld(limit, s);
    hide InOrder;
  }

  /** In every run: what is in a block stays there until a request names the block. */
  lemma {:induction false} BytesSurvive(requests: seq<Request>, answers: seq<int>, cs: seq<Blocks>, i: nat, j: nat,
                                        mem: int)
    requires ClientRun(requests, answers, cs) && i <= j <= |requests| && mem in cs[i]
    requires forall k :: i <= k < j ==> !Names(requests[k], mem)
    ensures mem in cs[j] && cs[j][mem] == cs[i][mem]
    decreases j
  {
    hide Answered;
    if i < j {
      BytesSurvive(requests, answers, cs, i, j - 1, mem);
      OthersStay(requests[j - 1], answers[j - 1], cs[j - 1], cs[j], mem);
    }
  }
}
