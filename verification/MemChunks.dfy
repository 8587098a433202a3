/**
  The physical memory allocator of memchunk.c: a list of registered regions and a list of the chunks
  given out. Both lists grow at the front; all sums of addresses are taken in 32 bits.
*/
module MemChunks {
  import opened TreeIndex

  const PAGE_SIZE: nat := 0x1000

  datatype Chunk = Chunk(start: nat, length: nat)

  /** start + length, in 32 bits. */
  function EndOf(c: Chunk): nat { (c.start + c.length) % WORD }

  /** The end does not wrap around. */
  predicate Fits(c: Chunk) { c.start + c.length < WORD }

  // ----- the two tests on a list

  predicate Overlap(c: Chunk, d: Chunk) { c.start < EndOf(d) && EndOf(c) > d.start }

  predicate Within(c: Chunk, d: Chunk) { c.start >= d.start && EndOf(c) <= EndOf(d) }

  /** Two chunks that fit have no byte in common. */
  predicate Apart(c: Chunk, d: Chunk) { c.start + c.length <= d.start || d.start + d.length <= c.start }

  predicate Inside(c: Chunk, d: Chunk) { d.start <= c.start && c.start + c.length <= d.start + d.length }

  /** chunk_overlaps */
  method ChunkOverlaps(start: nat, length: nat, list: seq<Chunk>) returns (r: bool)
    ensures r <==> exists d :: d in list && Overlap(Chunk(start, length), d)
  {
    var i := 0;
    while i < |list|
      invariant 0 <= i <= |list| && forall k :: 0 <= k < i ==> !Overlap(Chunk(start, length), list[k])
    {
      var lStart, lEnd, end := list[i].start, EndOf(list[i]), EndOf(Chunk(start, length));
      if start < lEnd && end > lStart {
        assert Overlap(Chunk(start, length), list[i]) && list[i] in list;
        return true;
      }
      i := i + 1;
    }
    return false;
  }

  /** chunk_contains */
  method ChunkContains(start: nat, length: nat, list: seq<Chunk>) returns (r: bool)
    ensures r <==> exists d :: d in list && Within(Chunk(start, length), d)
  {
    var i := 0;
    while i < |list|
      invariant 0 <= i <= |list| && forall k :: 0 <= k < i ==> !Within(Chunk(start, length), list[k])
    {
      var lStart, lEnd, end := list[i].start, EndOf(list[i]), EndOf(Chunk(start, length));
      if start >= lStart && end <= lEnd {
        assert Within(Chunk(start, length), list[i]) && list[i] in list;
        return true;
      }
      i := i + 1;
    }
    return false;
  }

  // ----- the state

  /** The registered regions, the chunks given out, and the highest end of a region. */
  datatype Memory = Memory(free: seq<Chunk>, used: seq<Chunk>, maxFree: nat)

  ghost predicate CanAllocate(m: Memory, c: Chunk)
  {
    (exists d :: d in m.free && Within(c, d)) && forall d :: d in m.used ==> !Overlap(c, d)
  }

  predicate UsedApart(m: Memory, i: nat, j: nat) { i < j < |m.used| ==> Apart(m.used[i], m.used[j]) }

  ghost predicate InRegion(m: Memory, c: Chunk) { exists d :: d in m.free && Inside(c, d) }

  /** The chunks given out lie in registered regions and do not overlap; maxFree bounds the regions. */
  ghost predicate MemoryOk(m: Memory)
  {
    (forall d :: d in m.free ==> Fits(d) && d.start + d.length <= m.maxFree) && m.maxFree < WORD &&
    (forall c :: c in m.used ==> Fits(c) && InRegion(m, c)) &&
    (forall i: nat, j: nat {:trigger UsedApart(m, i, j)} :: UsedApart(m, i, j))
  }

  /** chunk_register_free */
  function Register(m: Memory, c: Chunk): Memory
  {
    m.(free := [c] + m.free, maxFree := if EndOf(c) > m.maxFree then EndOf(c) else m.maxFree)
  }

  /** Chunk c is given out. */
  function Give(m: Memory, c: Chunk): Memory { m.(used := [c] + m.used) }

  lemma RegisterKeeps(m: Memory, c: Chunk)
    requires MemoryOk(m) && Fits(c)
    ensures MemoryOk(Register(m, c))
  {
    var m' := Register(m, c);
    forall u | u in m'.used ensures InRegion(m', u) {
      var d :| d in m.free && Inside(u, d);
      assert d in m'.free;
    }
    forall i: nat, j: nat ensures UsedApart(m', i, j) { assert UsedApart(m, i, j); }
  }

  /** Giving out a chunk that passes the tests keeps the memory in order exactly when its end does not wrap. */
  lemma GiveKeeps(m: Memory, c: Chunk)
    requires MemoryOk(m) && CanAllocate(m, c)
    ensures MemoryOk(Give(m, c)) <==> Fits(c)
  {
    assert c in Give(m, c).used;
    if Fits(c) {
      GivenInRegions(m, c);
      forall i: nat, j: nat ensures UsedApart(Give(m, c), i, j) { GivenApart(m, c, i, j); }
      hide Overlap, Within, Inside, Apart, EndOf, CanAllocate;
    }
  }

  lemma GivenInRegions(m: Memory, c: Chunk)
    requires MemoryOk(m) && CanAllocate(m, c) && Fits(c)
    ensures forall u :: u in Give(m, c).used ==> Fits(u) && InRegion(Give(m, c), u)
  {
    var d :| d in m.free && Within(c, d);
    assert Inside(c, d);
    forall u | u in Give(m, c).used ensures Fits(u) && InRegion(Give(m, c), u) {
      if u != c { assert InRegion(m, u); }
    }
  }

  lemma GivenApart(m: Memory, c: Chunk, i: nat, j: nat)
    requires MemoryOk(m) && CanAllocate(m, c) && Fits(c)
    ensures UsedApart(Give(m, c), i, j)
  {
    if 0 < i < j { assert UsedApart(m, i - 1, j - 1); }
    if 0 == i < j <= |m.used| { assert m.used[j - 1] in m.used; }
  }

  /** What goes wrong: with one megabyte registered, a request that wraps around is granted and lies in no region. */
  lemma WrappingRequestGranted()
    ensures var m, c := Memory([Chunk(0x1000, 0xf_f000)], [], 0x10_0000), Chunk(0x2000, WORD - 0x1000);
            MemoryOk(m) && CanAllocate(m, c) && !MemoryOk(Give(m, c))
  {
    var m, c := Memory([Chunk(0x1000, 0xf_f000)], [], 0x10_0000), Chunk(0x2000, WORD - 0x1000);
    assert m.free[0] in m.free && Within(c, m.free[0]);
    GiveKeeps(m, c);
  }

  /** What chunk_get_any_chunk is asked for: a page boundary below maxFree from which length bytes pass the tests. */
  ghost predicate Available(m: Memory, length: nat, a: nat)
  {
    a % 0x1000 == 0 && a < m.maxFree && CanAllocate(m, Chunk(a, length))
  }

  ghost predicate SomeAvailable(m: Memory, length: nat) { exists a :: Available(m, length, a) }

  /** There is an available page address from which length bytes do not wrap. */
  ghost predicate SomeFitting(m: Memory, length: nat) { exists a :: Available(m, length, a) && Fits(Chunk(a, length)) }

  ghost predicate IsLowest(m: Memory, length: nat, a: nat)
  {
    Available(m, length, a) && forall x :: Available(m, length, x) ==> a <= x
  }

  /** The page addresses below maxFree do not wrap, or one of them is available. */
  ghost predicate SearchEnds(m: Memory, length: nat)
  {
    m.maxFree <= WORD - PAGE_SIZE || SomeAvailable(m, length)
  }

  /** Giving out the lowest available chunk keeps the memory in order exactly when some available chunk does not wrap. */
  lemma GiveLowestKeeps(m: Memory, length: nat, a: nat)
    requires MemoryOk(m) && IsLowest(m, length, a)
    ensures MemoryOk(Give(m, Chunk(a, length))) <==> SomeFitting(m, length)
    ensures length + m.maxFree <= WORD ==> SomeFitting(m, length)
  {
    GiveKeeps(m, Chunk(a, length));
  }

  /** A page that is not available is below all that are, and so is the next. */
  lemma NextPage(m: Memory, length: nat, a: nat)
    requires MemoryOk(m) && SearchEnds(m, length) && a % PAGE_SIZE == 0 && a < m.maxFree
    requires !CanAllocate(m, Chunk(a, length)) && forall x :: Available(m, length, x) ==> a <= x
    ensures a + PAGE_SIZE <= WORD - PAGE_SIZE && forall x :: Available(m, length, x) ==> a + PAGE_SIZE <= x
  {
    assert m.maxFree < WORD;
    hide CanAllocate, MemoryOk;
    forall x | Available(m, length, x) ensures a + PAGE_SIZE <= x { PagesApart(a, x); }
    if m.maxFree <= WORD - PAGE_SIZE { PagesApart(a, WORD - PAGE_SIZE); }
    hide *;
  }

  lemma PagesApart(a: nat, x: nat)
    requires a % PAGE_SIZE == 0 && x % PAGE_SIZE == 0 && a < x
    ensures a + PAGE_SIZE <= x
  {}

  /** What goes wrong: with one megabyte registered, a request for all but a page of memory gets the lowest page. */
  lemma AnyChunkWraps()
    ensures var m, length := Memory([Chunk(0x1000, 0xf_f000)], [], 0x10_0000), WORD - 0x1000;
            MemoryOk(m) && SearchEnds(m, length) && IsLowest(m, length, 0x1000) && !MemoryOk(Give(m, Chunk(0x1000, length)))
  {
    var m, c := Memory([Chunk(0x1000, 0xf_f000)], [], 0x10_0000), Chunk(0x1000, WORD - 0x1000);
    assert m.free[0] in m.free && Within(c, m.free[0]);
    GiveKeeps(m, c);
    assert Available(m, WORD - 0x1000, 0x1000);
    assert !Available(m, WORD - 0x1000, 0);
  }

  /** Any place that passes the tests with a length that cannot wrap lies below maxFree, unless it is empty. */
  lemma BelowMaxFree(m: Memory, a: nat, length: nat)
    requires MemoryOk(m) && CanAllocate(m, Chunk(a, length)) && a + length < WORD && length > 0
    ensures a < m.maxFree
  {}

  class ChunkAllocator {
    var m: Memory

    constructor ()
      ensures m == Memory([], [], 0) && MemoryOk(m)
    {
      m := Memory([], [], 0);
    }

    /** chunk_can_allocate */
    method CanGive(start: nat, length: nat) returns (r: bool)
      ensures r <==> CanAllocate(m, Chunk(start, length))
    {
      var contained := ChunkContains(start, length, m.free);
      if !contained { return false; }
      var overlaps := ChunkOverlaps(start, length, m.used);
      return !overlaps;
    }

    /** chunk_register_free */
    method RegisterFree(start: nat, length: nat)
      requires MemoryOk(m) && start < WORD && length < WORD
      modifies this
      ensures m == Register(old(m), Chunk(start, length))
      ensures m.used == old(m).used && multiset(m.free) == multiset(old(m).free) + multiset{Chunk(start, length)}
      ensures var end := (start + length) % 0x1_0000_0000; m.maxFree == if end > old(m).maxFree then end else old(m).maxFree
      ensures start + length < WORD ==> MemoryOk(m)
    {
      if start + length < WORD { RegisterKeeps(m, Chunk(start, length)); }
      ghost var m0 := m;
      m := m.(free := [Chunk(start, length)] + m.free);
      if (start + length) % WORD > m.maxFree {
        m := m.(maxFree := (start + length) % WORD);
      }
      assert m == Register(m0, Chunk(start, length));
    }

    /** chunk_get_any_chunk, when the search ends: the lowest available page address, or 0. */
    method GetAnyChunk(length: nat) returns (a: nat)
      requires MemoryOk(m) && length < WORD && SearchEnds(m, length)
      modifies this
      ensures if SomeAvailable(old(m), length) then IsLowest(old(m), length, a) && m == Give(old(m), Chunk(a, length))
              else a == 0 && m == old(m)
      ensures m.free == old(m).free && m.maxFree == old(m).maxFree
      ensures SomeAvailable(old(m), length) ==> multiset(m.used) == multiset(old(m).used) + multiset{Chunk(a, length)}
      ensures MemoryOk(m) <==> (SomeAvailable(old(m), length) ==> SomeFitting(old(m), length))
      ensures length + old(m).maxFree <= WORD ==> MemoryOk(m)
    {
      hide MemoryOk, CanAllocate, SearchEnds, SomeFitting;
      ghost var m0 := m;
      var testAddress := 0;
      while testAddress < m.maxFree
        invariant m == m0 && testAddress % PAGE_SIZE == 0 && testAddress <= WORD - PAGE_SIZE
        invariant forall x :: Available(m, length, x) ==> testAddress <= x
        decreases WORD - testAddress
      {
        var ok := CanGive(testAddress, length);
        if ok {
          assert Available(m, length, testAddress);
          GiveLowestKeeps(m, length, testAddress);
          m := m.(used := [Chunk(testAddress, length)] + m.used);
          return testAddress;
        }
        NextPage(m, length, testAddress);
        testAddress := (testAddress + PAGE_SIZE) % WORD;
      }
      return 0;
    }

    /** chunk_get_chunk */
    method GetChunk(start: nat, length: nat) returns (a: nat)
      requires MemoryOk(m) && start < WORD && length < WORD
      modifies this
      ensures if CanAllocate(old(m), Chunk(start, length))
              then a == start && m == Give(old(m), Chunk(start, length)) else a == 0 && m == old(m)
      ensures m.free == old(m).free && m.maxFree == old(m).maxFree
      ensures CanAllocate(old(m), Chunk(start, length)) ==>
                multiset(m.used) == multiset(old(m).used) + multiset{Chunk(start, length)}
      ensures m == old(m) || (MemoryOk(m) <==> start + length < WORD)
    {
      var ok := CanGive(start, length);
      if ok {
        GiveKeeps(m, Chunk(start, length));
        m := m.(used := [Chunk(start, length)] + m.used);
        return start;
      }
      return 0;
    }
  }

  /** The address the search is at after k steps. */
  function AddressAfter(k: nat): nat
  {
    if k == 0 then 0 else (AddressAfter(k - 1) + PAGE_SIZE) % WORD
  }

  /** With a region that ends above the last page boundary every address tried is a page boundary below maxFree. */
  lemma {:induction false} AddressesTried(m: Memory, k: nat)
    requires m.maxFree > WORD - PAGE_SIZE
    ensures AddressAfter(k) % PAGE_SIZE == 0 && AddressAfter(k) < m.maxFree
  {
    if k > 0 { AddressesTried(m, k - 1); }
  }

  /** Otherwise than GetAnyChunk requires, the search never ends: after any number of steps it goes on and is refused again. */
  lemma SearchNeverEnds(m: Memory, length: nat, k: nat)
    requires !SearchEnds(m, length)
    ensures AddressAfter(k) < m.maxFree && !CanAllocate(m, Chunk(AddressAfter(k), length))
  {
    AddressesTried(m, k);
    assert !Available(m, length, AddressAfter(k));
  }

  /** A page of a region that is given out is refused, as is one before it. */
  lemma PageRefused(m: Memory, c: Chunk, a: nat)
    requires c == Chunk(0xffff_0000, 0xffff) && m.free == [c] && m.used == [c] && a % PAGE_SIZE == 0 && a < 0xffff_ffff
    ensures !CanAllocate(m, Chunk(a, 0x800))
  {
    PagesApart(a, WORD);
    assert c in m.used;
    assert a >= c.start ==> Overlap(Chunk(a, 0x800), c);
  }

  /** What goes wrong: with the last 64 kilobytes but one byte registered and given out, no search for 0x800 bytes ends. */
  lemma LastPageSearched()
    ensures var c, m0 := Chunk(0xffff_0000, 0xffff), Memory([], [], 0);
            var m := Give(Register(m0, c), c);
            CanStep(m0, Registered(c)) && CanStep(Register(m0, c), Given(c)) && MemoryOk(m) && !SearchEnds(m, 0x800)
  {
    var c, m0 := Chunk(0xffff_0000, 0xffff), Memory([], [], 0);
    var m1 := Register(m0, c);
    RegisterKeeps(m0, c);
    assert c in m1.free && Within(c, c);
    GiveKeeps(m1, c);
    var m := Give(m1, c);
    assert m.free == [c] && m.used == [c] && m.maxFree == 0xffff_ffff;
    hide CanAllocate, MemoryOk;
    forall a: nat ensures !Available(m, 0x800, a) {
      if a % PAGE_SIZE == 0 && a < m.maxFree { PageRefused(m, c, a); }
    }
  }

  /** When page 0 is in no region, 0 means that no page is available. */
  lemma ZeroMeansNone(m: Memory, length: nat)
    requires MemoryOk(m) && forall d :: d in m.free ==> d.start >= PAGE_SIZE
    ensures !Available(m, length, 0)
  {}

  // ----- whole runs

  datatype Step = Registered(c: Chunk) | Given(c: Chunk)

  /** One call that does something: a region that does not wrap, or a chunk that passes the tests and does not wrap. */
  ghost predicate CanStep(m: Memory, s: Step)
  {
    match s
    case Registered(c) => Fits(c)
    case Given(c) => Fits(c) && CanAllocate(m, c)
  }

  function After(m: Memory, s: Step): Memory
  {
    match s
    case Registered(c) => Register(m, c)
    case Given(c) => Give(m, c)
  }

  ghost predicate IsRun(ms: seq<Memory>, steps: seq<Step>)
  {
    |ms| == |steps| + 1 && ms[0] == Memory([], [], 0) &&
    forall i :: 0 <= i < |steps| ==> CanStep(ms[i], steps[i]) && ms[i + 1] == After(ms[i], steps[i])
  }

  /** In every state of every run the chunks given out do not overlap and lie in registered regions. */
  lemma {:induction false} RunsAreSafe(ms: seq<Memory>, steps: seq<Step>, i: nat)
    requires IsRun(ms, steps) && i < |ms|
    ensures MemoryOk(ms[i])
  {
    if i > 0 {
      RunsAreSafe(ms, steps, i - 1);
      assert CanStep(ms[i - 1], steps[i - 1]) && ms[i] == After(ms[i - 1], steps[i - 1]);
      match steps[i - 1]
      case Registered(c) => RegisterKeeps(ms[i - 1], c);
      case Given(c) => GiveKeeps(ms[i - 1], c);
    }
  }

  /** For a chunk that does not wrap the tests are exact: it lies in one region and has no byte of a chunk given out. */
  lemma TestsAreExact(m: Memory, c: Chunk)
    requires MemoryOk(m) && c.start + c.length < 0x1_0000_0000
    ensures CanAllocate(m, c) <==>
            (exists d :: d in m.free && d.start <= c.start && c.start + c.length <= d.start + d.length) &&
            (forall d :: d in m.used ==> c.start + c.length <= d.start || d.start + d.length <= c.start)
  {
    forall d | d in m.free
      ensures Within(c, d) <==> d.start <= c.start && c.start + c.length <= d.start + d.length
    {
      assert Fits(d);
    }
    forall d | d in m.used
      ensures !Overlap(c, d) <==> c.start + c.length <= d.start || d.start + d.length <= c.start
    {
      assert Fits(d);
    }
  }

  // ----- runs of calls and their answers

  datatype Call = Region(start: nat, length: nat) | AnyChunk(length: nat) | ChunkAt(start: nat, length: nat)

  /** Regions end at or below the limit, which leaves a page, and no sum of a request wraps. */
  predicate CallOk(limit: nat, c: Call)
  {
    match c
    case Region(start, length) => start + length <= limit <= 0xffff_f000
    case AnyChunk(length) => length + limit <= 0x1_0000_0000 && length < 0x1_0000_0000
    case ChunkAt(start, length) => start + length < 0x1_0000_0000
  }

  /** Call i asked for memory and got some; answer 0 stands for none. */
  predicate Granted(calls: seq<Call>, answers: seq<nat>, i: nat)
  {
    i < |calls| && i < |answers| && !calls[i].Region? && answers[i] != 0
  }

  /** The two stretches that calls i and j got have no byte in common. */
  predicate AnswersApart(calls: seq<Call>, answers: seq<nat>, i: nat, j: nat)
  {
    i < j && Granted(calls, answers, i) && Granted(calls, answers, j) ==>
      answers[i] + calls[i].length <= answers[j] || answers[j] + calls[j].length <= answers[i]
  }

  /** The stretch that call j got lies in a region registered before. */
  ghost predicate AnswerInRegion(calls: seq<Call>, answers: seq<nat>, j: nat)
  {
    Granted(calls, answers, j) ==>
      exists i: nat :: i < j && calls[i].Region? && calls[i].start <= answers[j] &&
        answers[j] + calls[j].length <= calls[i].start + calls[i].length
  }

  /** What was got is in the list of chunks given out, and every region in its list was registered by a call. */
  ghost predicate Recorded(calls: seq<Call>, answers: seq<nat>, m: Memory)
  {
    |answers| <= |calls| &&
    (forall i: nat {:trigger Granted(calls, answers, i)} ::
       Granted(calls, answers, i) ==> Chunk(answers[i], calls[i].length) in m.used) &&
    forall d :: d in m.free ==> exists i: nat :: i < |answers| && calls[i] == Region(d.start, d.length)
  }

  /** What one call does to the lists; a is the answer, 0 for a region. */
  ghost predicate Answered(m: Memory, m': Memory, c: Call, a: nat)
  {
    (forall u :: u in m.used ==> u in m'.used) &&
    (forall d :: d in m'.free ==> d in m.free || (c.Region? && d == Chunk(c.start, c.length))) &&
    (!c.Region? && a != 0 ==> CanAllocate(m, Chunk(a, c.length)) && Chunk(a, c.length) in m'.used)
  }

  lemma RecordedOn(calls: seq<Call>, answers: seq<nat>, a: nat, m: Memory, m': Memory)
    requires |answers| < |calls| && Recorded(calls, answers, m) && Answered(m, m', calls[|answers|], a)
    ensures Recorded(calls, answers + [a], m')
  {
    var k, answers' := |answers|, answers + [a];
    forall i: nat | Granted(calls, answers', i) ensures Chunk(answers'[i], calls[i].length) in m'.used {
      assert i < k ==> Granted(calls, answers, i);
    }
    forall d | d in m'.free ensures exists i: nat :: i <= k && calls[i] == Region(d.start, d.length) {
      if d in m.free {
        var i: nat :| i < k && calls[i] == Region(d.start, d.length);
      } else {
        assert calls[k] == Region(d.start, d.length);
      }
    }
  }

  /** A new answer is apart from the ones before it, since those are in the list that it was compared with. */
  lemma AnswerIsApart(calls: seq<Call>, answers: seq<nat>, a: nat, m: Memory, i: nat)
    requires |answers| < |calls| && Recorded(calls, answers, m) && MemoryOk(m)
    requires var c := calls[|answers|];
             !c.Region? && a != 0 ==> CanAllocate(m, Chunk(a, c.length)) && a + c.length < WORD
    ensures AnswersApart(calls, answers + [a], i, |answers|)
  {
    var k, answers' := |answers|, answers + [a];
    if i < k && Granted(calls, answers', i) && Granted(calls, answers', k) {
      assert Granted(calls, answers, i);
      assert !Overlap(Chunk(a, calls[k].length), Chunk(answers[i], calls[i].length));
    }
  }

  lemma AnswerIsInRegion(calls: seq<Call>, answers: seq<nat>, a: nat, m: Memory)
    requires |answers| < |calls| && Recorded(calls, answers, m) && MemoryOk(m)
    requires var c := calls[|answers|];
             !c.Region? && a != 0 ==> CanAllocate(m, Chunk(a, c.length)) && a + c.length < WORD
    ensures AnswerInRegion(calls, answers + [a], |answers|)
  {
    var k := |answers|;
    if Granted(calls, answers + [a], k) {
      var d :| d in m.free && Within(Chunk(a, calls[k].length), d);
      var i: nat :| i < k && calls[i] == Region(d.start, d.length);
    }
  }

  lemma AnswersOn(calls: seq<Call>, answers: seq<nat>, a: nat, m: Memory, m': Memory)
    requires |answers| < |calls| && Recorded(calls, answers, m) && MemoryOk(m)
    requires Answered(m, m', calls[|answers|], a)
    requires a != 0 && !calls[|answers|].Region? ==> a + calls[|answers|].length < WORD
    requires forall i: nat, j: nat :: AnswersApart(calls, answers, i, j)
    requires forall j: nat :: AnswerInRegion(calls, answers, j)
    ensures forall i: nat, j: nat :: AnswersApart(calls, answers + [a], i, j)
    ensures forall j: nat :: AnswerInRegion(calls, answers + [a], j)
  {
    var k := |answers|;
    forall i: nat, j: nat ensures AnswersApart(calls, answers + [a], i, j) {
      if j == k { AnswerIsApart(calls, answers, a, m, i); } else { assert AnswersApart(calls, answers, i, j); }
    }
    forall j: nat ensures AnswerInRegion(calls, answers + [a], j) {
      if j == k { AnswerIsInRegion(calls, answers, a, m); } else { assert AnswerInRegion(calls, answers, j); }
    }
  }

  /** One answer: address 0 for a region, or what the call returns. */
  method Answer(chunks: ChunkAllocator, limit: nat, c: Call) returns (a: nat)
    requires MemoryOk(chunks.m) && chunks.m.maxFree <= limit <= 0xffff_f000 && CallOk(limit, c)
    modifies chunks
    ensures MemoryOk(chunks.m) && chunks.m.maxFree <= limit && Answered(old(chunks.m), chunks.m, c, a)
    ensures !c.Region? ==> a + c.length < WORD
  {
    hide MemoryOk, CanAllocate;
    a := 0;
    match c
    case Region(start, length) => chunks.RegisterFree(start, length);
    case AnyChunk(length) => a := chunks.GetAnyChunk(length);
    case ChunkAt(start, length) => a := chunks.GetChunk(start, length);
  }

  /** Calls one after the other: no two that got memory got a byte in common, and all got it from regions. */
  method AnswerAll(calls: seq<Call>, limit: nat) returns (answers: seq<nat>)
    requires limit <= 0xffff_f000 && forall i :: 0 <= i < |calls| ==> CallOk(limit, calls[i])
    ensures |answers| == |calls|
    ensures forall i: nat, j: nat :: AnswersApart(calls, answers, i, j)
    ensures forall j: nat :: AnswerInRegion(calls, answers, j)
  {
    hide MemoryOk, CallOk, Answered, AnswerInRegion, AnswersApart;
    var chunks := new ChunkAllocator();
    answers := [];
    NoAnswers(calls);
    for k := 0 to |calls|
      invariant |answers| == k && MemoryOk(chunks.m) && chunks.m.maxFree <= limit && Recorded(calls, answers, chunks.m)
      invariant forall i: nat, j: nat :: AnswersApart(calls, answers, i, j)
      invariant forall j: nat :: AnswerInRegion(calls, answers, j)
    {
      ghost var m := chunks.m;
      var a := Answer(chunks, limit, calls[k]);
      RecordedOn(calls, answers, a, m, chunks.m);
      AnswersOn(calls, answers, a, m, chunks.m);
      answers := answers + [a];
    }
  }

  lemma NoAnswers(calls: seq<Call>)
    ensures forall i: nat, j: nat :: AnswersApart(calls, [], i, j)
    ensures forall j: nat :: AnswerInRegion(calls, [], j)
  {}
}
