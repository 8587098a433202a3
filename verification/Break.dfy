/** The two sources of memory in heap.c: the break that grows upwards, and the buffers above it. */
module Breaks {
  import opened TreeIndex

  const PAGE: nat := 4096
  const MAX_BUF: nat := 0x100000

  /** (void*)-1, what sbrk returns when it fails. */
  const CMFAIL: nat := WORD - 1

  /** MAX_BRK for an image that starts at start. */
  function MaxBrk(start: nat): nat
  {
    start - 0x8000 + 0xf0000
  }

  function PageUp(n: nat): (r: nat)
    ensures n <= r < n + PAGE && r % PAGE == 0
  {
    if n % PAGE == 0 then n else n - n % PAGE + PAGE
  }

  function SectorUp(n: nat): (r: nat)
    ensures n <= r < n + 512 && r % 512 == 0
  {
    if n % 512 == 0 then n else n - n % 512 + 512
  }

  /** The image as the linker scripts place it: _start on a sector boundary low in memory, _end above it. */
  predicate ImageOk(start: nat, end: nat)
  {
    0x8000 <= start <= 0x10000 && start % 512 == 0 && start < end < 0x7000_0000
  }

  // ----- buffers

  /** A buffer handed out by alloc_buf. */
  datatype Buffer = Buffer(at: nat, size: nat)

  /** cur_buf, and the buffers handed out so far. */
  datatype Buffers = Buffers(cur: nat, given: seq<Buffer>)

  predicate BufferOk(b: Buffers, start: nat, i: nat)
  {
    i < |b.given| && b.given[i].at % 512 == 0 && MaxBrk(start) <= b.given[i].at &&
    b.given[i].at + b.given[i].size <= b.cur
  }

  predicate BuffersApart(b: Buffers, i: nat, j: nat)
  {
    i < j < |b.given| ==> b.given[i].at + b.given[i].size <= b.given[j].at
  }

  /** Every buffer is aligned and between MAX_BRK and cur_buf, and no two overlap. */
  ghost predicate BuffersOk(b: Buffers, start: nat)
  {
    MaxBrk(start) <= b.cur <= MAX_BUF && b.cur % 512 == 0 &&
    (forall i: nat {:trigger BufferOk(b, start, i)} :: i < |b.given| ==> BufferOk(b, start, i)) &&
    (forall i: nat, j: nat {:trigger BuffersApart(b, i, j)} :: BuffersApart(b, i, j))
  }

  /** alloc_buf: the sum is taken in 32 bits before it is compared with MAX_BUF. */
  function AllocBuf(b: Buffers, size: nat): (nat, Buffers)
  {
    var next := (b.cur + size) % WORD;
    if next > MAX_BUF then (0, b)
    else (b.cur, Buffers(SectorUp(next), b.given + [Buffer(b.cur, size)]))
  }

  /** The buffers stay in order exactly when the sum of cur_buf and the size does not wrap. */
  lemma AllocBufKeeps(b: Buffers, start: nat, size: nat)
    requires BuffersOk(b, start) && size < WORD
    ensures BuffersOk(AllocBuf(b, size).1, start) <==> b.cur + size < WORD
    ensures b.cur + size < WORD ==>
              (AllocBuf(b, size).0 == 0 <==> b.cur + size > MAX_BUF) && AllocBuf(b, size).0 in {0, b.cur}
  {
    var b' := AllocBuf(b, size).1;
    var k := |b.given|;
    if b.cur + size < WORD && b.cur + size <= MAX_BUF {
      assert b'.given[k] == Buffer(b.cur, size);
      forall i: nat | i < |b'.given| ensures BufferOk(b', start, i) {
        assert i < k ==> BufferOk(b, start, i) && b'.given[i] == b.given[i];
      }
      forall i: nat, j: nat ensures BuffersApart(b', i, j) {
        assert BuffersApart(b, i, j);
        if i < j == k { assert BufferOk(b, start, i); }
      }
    } else if b.cur + size >= WORD {
      assert b'.given[k] == Buffer(b.cur, size);
      assert !BufferOk(b', start, k);
    }
  }

  /** What goes wrong: a first request of 2^32 - 0xf0000 bytes gets a buffer, and cur_buf falls to 0. */
  lemma AllocBufWraps()
    ensures var b := Buffers(MaxBrk(0x8000), []);
            BuffersOk(b, 0x8000) && AllocBuf(b, WORD - 0xf0000).0 == 0xf0000 && AllocBuf(b, WORD - 0xf0000).1.cur == 0 &&
            !BuffersOk(AllocBuf(b, WORD - 0xf0000).1, 0x8000)
  {
    AllocBufKeeps(Buffers(MaxBrk(0x8000), []), 0x8000, WORD - 0xf0000);
  }

  function AllocBufs(b: Buffers, sizes: seq<nat>): Buffers
    decreases |sizes|
  {
    if sizes == [] then b else AllocBufs(AllocBuf(b, sizes[0]).1, sizes[1..])
  }

  /** Over any run of requests of less than 2^32 - MAX_BUF bytes the buffers stay apart, aligned and above MAX_BRK. */
  lemma {:induction false} AllocBufsKeep(b: Buffers, start: nat, sizes: seq<nat>)
    requires BuffersOk(b, start) && forall i :: 0 <= i < |sizes| ==> sizes[i] < WORD - MAX_BUF
    ensures BuffersOk(AllocBufs(b, sizes), start)
    decreases |sizes|
  {
    if sizes != [] {
      AllocBufKeeps(b, start, sizes[0]);
      AllocBufsKeep(AllocBuf(b, sizes[0]).1, start, sizes[1..]);
    }
  }

  /** What the requests of a run are answered, 0 for none. */
  function Answers(b: Buffers, sizes: seq<nat>): (r: seq<nat>)
    ensures |r| == |sizes|
    decreases |sizes|
  {
    if sizes == [] then [] else [AllocBuf(b, sizes[0]).0] + Answers(AllocBuf(b, sizes[0]).1, sizes[1..])
  }

  /** A buffer starts where cur_buf was, on a sector at or above MAX_BRK, and cur_buf is behind it from then on. */
  lemma AllocBufAnswers(b: Buffers, start: nat, size: nat)
    requires BuffersOk(b, start) && size < 0xfff0_0000
    ensures var (a, b') := AllocBuf(b, size);
            BuffersOk(b', start) && b.cur <= b'.cur <= 0x10_0000 &&
            (a != 0 ==> a == b.cur && a + size <= b'.cur && a % 512 == 0 && start - 0x8000 + 0xf0000 <= a)
  {
    AllocBufKeeps(b, start, size);
  }

  /** Every buffer of a run starts on a sector, no lower than cur_buf was, and ends below the megabyte. */
  lemma {:induction false} AnswersAbove(b: Buffers, start: nat, sizes: seq<nat>, j: nat)
    requires BuffersOk(b, start) && (forall i :: 0 <= i < |sizes| ==> sizes[i] < 0xfff0_0000) && j < |sizes|
    ensures var a := Answers(b, sizes)[j];
            a != 0 ==> b.cur <= a && a + sizes[j] <= 0x10_0000 && a % 512 == 0 && start - 0x8000 + 0xf0000 <= a
    decreases |sizes|
  {
    AllocBufAnswers(b, start, sizes[0]);
    hide BuffersOk, AllocBuf;
    if j > 0 { AnswersAbove(AllocBuf(b, sizes[0]).1, start, sizes[1..], j - 1); }
  }

  /** No two buffers of a run have a byte in common. */
  lemma {:induction false} AnswersApart(b: Buffers, start: nat, sizes: seq<nat>, i: nat, j: nat)
    requires BuffersOk(b, start) && (forall i :: 0 <= i < |sizes| ==> sizes[i] < 0xfff0_0000) && i < j < |sizes|
    ensures var r := Answers(b, sizes); r[i] != 0 && r[j] != 0 ==> r[i] + sizes[i] <= r[j]
    decreases |sizes|
  {
    AllocBufAnswers(b, start, sizes[0]);
    hide BuffersOk, AllocBuf;
    var b' := AllocBuf(b, sizes[0]).1;
    if i > 0 { AnswersApart(b', start, sizes[1..], i - 1, j - 1); } else { AnswersAbove(b', start, sizes[1..], j - 1); }
  }

  // ----- the break

  class Break {
    const start: nat
    const imageEnd: nat
    var curBrk: nat
    var buffers: Buffers

    ghost predicate Valid()
      reads this
    {
      ImageOk(start, imageEnd) && BuffersOk(buffers, start) &&
      (curBrk == PageUp(imageEnd) || curBrk < MaxBrk(start))
    }

    constructor (start: nat, imageEnd: nat)
      requires ImageOk(start, imageEnd)
      ensures Valid() && curBrk == 0 && this.start == start && this.imageEnd == imageEnd
    {
      this.start, this.imageEnd := start, imageEnd;
      curBrk := 0;
      buffers := Buffers(MaxBrk(start), []);
    }

    /** alloc_buf */
    method AllocBuffer(size: nat) returns (at: nat)
      requires Valid() && size < WORD
      modifies this`buffers
      ensures (at, buffers) == AllocBuf(old(buffers), size)
      ensures if (old(buffers).cur + size) % 0x1_0000_0000 > 0x10_0000 then at == 0 && buffers == old(buffers)
              else at == old(buffers).cur && buffers.given == old(buffers).given + [Buffer(at, size)]
      ensures Valid() <==> old(buffers).cur + size < WORD
    {
      AllocBufKeeps(buffers, start, size);
      ghost var given := buffers.given;
      var oldBuf := buffers.cur;
      buffers := buffers.(cur := (buffers.cur + size) % WORD);
      if buffers.cur > MAX_BUF {
        buffers := buffers.(cur := oldBuf);
        return 0;
      }
      if buffers.cur % 512 != 0 {
        buffers := buffers.(cur := buffers.cur - buffers.cur % 512);
        buffers := buffers.(cur := buffers.cur + 512);
      }
      buffers := buffers.(given := buffers.given + [Buffer(oldBuf, size)]);
      return oldBuf;
    }

    /** Where the break is, or will be once sbrk has been called. */
    function Current(): nat
      reads this
    {
      if curBrk == 0 then PageUp(imageEnd) else curBrk
    }

    /** sbrk: the old break, or CMFAIL and no change when the new one, taken in 32 bits, would not be below MAX_BRK. */
    method Sbrk(increment: nat) returns (r: nat)
      requires Valid() && increment < WORD
      modifies this`curBrk
      ensures Valid()
      ensures var next := (old(Current()) + increment) % 0x1_0000_0000;
              if next < start - 0x8000 + 0xf0000 then r == old(Current()) && curBrk == next
              else r == 0xffff_ffff && curBrk == old(Current())
    {
      if curBrk == 0 {
        curBrk := imageEnd;
        if curBrk % PAGE != 0 {
          curBrk := curBrk - curBrk % PAGE;
          curBrk := curBrk + PAGE;
        }
      }
      var oldBrk := curBrk;
      curBrk := (curBrk + increment) % WORD;
      if curBrk >= MaxBrk(start) {
        curBrk := oldBrk;
        return CMFAIL;
      }
      return oldBrk;
    }
  }
}
