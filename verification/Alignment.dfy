/** Alignments: powers of two, the loop that rounds up to one, and the spot internal_memalign picks. */
module Alignment {
  import opened TreeIndex
  import opened Offsets

  predicate PowerOfTwo(n: nat)
    decreases n
  {
    n == 1 || (n > 1 && n % 2 == 0 && PowerOfTwo(n / 2))
  }

  /** a is the least power of two that is at least n and at least 16. */
  ghost predicate RoundedUp(n: nat, a: nat)
  {
    PowerOfTwo(a) && a >= 16 && a >= n && forall b: nat :: PowerOfTwo(b) && b >= 16 && b >= n ==> a <= b
  }

  lemma {:induction false} NextPower(a: nat, b: nat)
    requires PowerOfTwo(a) && PowerOfTwo(b) && a < b
    ensures 2 * a <= b
    decreases b
  {
    if a > 1 { NextPower(a / 2, b / 2); }
  }

  lemma DoublePower(a: nat)
    requires PowerOfTwo(a)
    ensures PowerOfTwo(2 * a)
  {
    assert 2 * a / 2 == a;
  }

  lemma PowerTimes16(a: nat)
    requires PowerOfTwo(a)
    ensures PowerOfTwo(16 * a)
  {
    DoublePower(a);
    DoublePower(2 * a);
    DoublePower(4 * a);
    DoublePower(8 * a);
  }

  lemma PowerTop()
    ensures PowerOfTwo(16) && PowerOfTwo(0x8000_0000)
  {
    assert PowerOfTwo(1);
    hide PowerOfTwo;
    PowerTimes16(1);
    PowerTimes16(0x10);
    PowerTimes16(0x100);
    PowerTimes16(0x1000);
    PowerTimes16(0x1_0000);
    PowerTimes16(0x10_0000);
    PowerTimes16(0x100_0000);
    DoublePower(0x1000_0000);
    DoublePower(0x2000_0000);
    DoublePower(0x4000_0000);
  }

  lemma DoubleFits(a: nat)
    requires PowerOfTwo(a) && a < 0x8000_0000
    ensures a * 2 % WORD == 2 * a <= 0x8000_0000 && PowerOfTwo(2 * a)
  {
    PowerTop();
    NextPower(a, 0x8000_0000);
    DoublePower(a);
    hide PowerOfTwo;
  }

  lemma PowerBelowWord(a: nat)
    requires PowerOfTwo(a) && a < WORD
    ensures a <= 0x8000_0000
  {
    PowerTop();
    if a > 0x8000_0000 { NextPower(0x8000_0000, a); }
  }

  lemma {:induction false} BigPower(a: nat)
    requires PowerOfTwo(a) && a >= 16
    ensures a % 16 == 0
    decreases a
  {
    PowerTop();
    hide PowerOfTwo;
    if a > 16 { NextPower(16, a); HalfPower(a); BigPower(a / 2); }
  }

  lemma HalfPower(a: nat)
    requires PowerOfTwo(a) && a > 1
    ensures a % 2 == 0 && PowerOfTwo(a / 2)
  {}

  lemma LeastPower(asked: nat, a: nat)
    requires PowerOfTwo(a) && a >= 16 && a >= asked && (a == 16 || a / 2 < asked)
    ensures RoundedUp(asked, a)
  {
    forall b: nat | PowerOfTwo(b) && b >= 16 && b >= asked ensures a <= b { if b < a { NextPower(b, a); } }
  }

  /** The first part of internal_memalign: the alignment that is really used. */
  method RoundAlignment(asked: nat) returns (alignment: nat)
    requires asked <= 0x8000_0000
    ensures RoundedUp(asked, alignment) && PowerOfTwo(alignment) && alignment <= 0x8000_0000 && alignment % 16 == 0
  {
    PowerTop();
    alignment := if asked < 16 then 16 else asked;
    if !PowerOfTwo(alignment) {
      var a := 16;
      hide PowerOfTwo;
      while a < alignment
        invariant PowerOfTwo(a) && 16 <= a <= 0x8000_0000 && (a == 16 || a / 2 < alignment)
        decreases 0x8000_0000 - a
      {
        DoubleFits(a);
        a := a * 2 % WORD;
      }
      alignment := a;
    }
    LeastPower(asked, alignment);
    BigPower(alignment);
    hide PowerOfTwo;
  }

  /** 16 doubled k times in 32 bits. */
  function Doubled(k: nat): nat
  {
    if k == 0 then 16 else Doubled(k - 1) * 2 % WORD
  }

  /** The loop that doubles does not end for an alignment above 2^31: the doubled value never reaches it. */
  lemma DoublingNeverEnds(asked: nat, k: nat)
    requires 0x8000_0000 < asked < WORD
    ensures Doubled(k) < asked && !PowerOfTwo(asked)
  {
    if PowerOfTwo(asked) { PowerBelowWord(asked); }
    DoubledPowers(k);
  }

  lemma {:induction false} DoubledPowers(k: nat)
    ensures Doubled(k) == 0 || (PowerOfTwo(Doubled(k)) && Doubled(k) <= 0x8000_0000)
  {
    PowerTop();
    hide PowerOfTwo;
    if k > 0 {
      DoubledPowers(k - 1);
      var a := Doubled(k - 1);
      if a > 0 { DoublePower(a); }
      if 0 < a < 0x8000_0000 { NextPower(a, 0x8000_0000); }
    }
  }

  // ----- masks

  /** x & (a - 1) for a power of two a, bit by bit. */
  function LowPart(x: nat, a: nat): (r: nat)
    requires PowerOfTwo(a)
    ensures r < a && r <= x
    decreases a
  {
    if a == 1 then 0 else x % 2 + 2 * LowPart(x / 2, a / 2)
  }

  /** x & -a */
  function HighPart(x: nat, a: nat): nat
    requires PowerOfTwo(a)
  {
    x - LowPart(x, a)
  }

  ghost predicate MultipleOf(x: nat, a: nat) { exists k: nat {:trigger k * a} :: x == k * a }

  /** A multiple leaves no remainder. */
  lemma MultipleMeans(x: nat, a: nat)
    requires MultipleOf(x, a) && a > 0
    ensures x % a == 0
  {
    var k: nat :| x == k * a;
    OffsetIsProduct(k, a);
    DividedUnique(k, 0, a);
  }

  lemma {:induction false} SomePower(n: nat) returns (k: nat)
    requires PowerOfTwo(n)
    ensures n == Pow2(k)
    decreases n
  {
    if n == 1 { return 0; }
    var j := SomePower(n / 2);
    return j + 1;
  }

  lemma {:induction false} PowerGiven(k: nat)
    ensures PowerOfTwo(Pow2(k))
  {
    if k > 0 {
      PowerGiven(k - 1);
      DoublePower(Pow2(k - 1));
    }
  }

  /** In numbers: the alignment is a power of two, at least 16 and the one asked for, and not twice that. */
  lemma RoundedMeans(asked: nat, a: nat)
    ensures RoundedUp(asked, a) <==>
            (exists k: nat :: a == Pow2(k)) && a >= 16 && a >= asked && (a == 16 || a < 2 * asked)
  {
    PowerTop();
    if RoundedUp(asked, a) {
      var k := SomePower(a);
      if a > 16 {
        HalfPower(a);
        NextPower(16, a);
        assert a / 2 >= 16 && PowerOfTwo(a / 2);
      }
    }
    if (exists k: nat :: a == Pow2(k)) && a >= 16 && a >= asked && (a == 16 || a < 2 * asked) {
      var k: nat :| a == Pow2(k);
      PowerGiven(k);
      LeastPower(asked, a);
    }
  }

  lemma {:induction false} LowAdd(x: nat, a: nat)
    requires PowerOfTwo(a)
    ensures LowPart(x + a, a) == LowPart(x, a)
    decreases a
  {
    if a > 1 {
      LowAdd(x / 2, a / 2);
      assert (x + a) / 2 == x / 2 + a / 2;
    }
  }

  lemma {:induction false} LowPrev(x: nat, a: nat)
    requires PowerOfTwo(a) && LowPart(x, a) > 0
    ensures LowPart(x - 1, a) == LowPart(x, a) - 1
    decreases a
  {
    if x % 2 == 0 { LowPrev(x / 2, a / 2); }
  }

  lemma {:induction false} LowIsMultiple(x: nat, a: nat) returns (k: nat)
    requires PowerOfTwo(a)
    ensures HighPart(x, a) == k * a
    decreases a
  {
    if a == 1 { k := x; } else {
      k := LowIsMultiple(x / 2, a / 2);
      assert k * a == 2 * (k * (a / 2));
    }
  }

  lemma LowOfEven(h: nat, a: nat)
    requires PowerOfTwo(a) && a > 1
    ensures PowerOfTwo(a / 2) && a % 2 == 0 && LowPart(2 * h, a) == 2 * LowPart(h, a / 2)
  {
    assert 2 * h / 2 == h;
  }

  lemma LowOf8(h: nat, a: nat)
    requires PowerOfTwo(a) && a >= 8
    ensures LowPart(8 * h, a) % 8 == 0
  {
    hide LowPart, PowerOfTwo;
    LowOfEven(4 * h, a);
    LowOfEven(2 * h, a / 2);
    LowOfEven(h, a / 2 / 2);
  }

  lemma LowAligned(x: nat, a: nat)
    requires PowerOfTwo(a) && a >= 8 && x % 8 == 0
    ensures LowPart(x, a) % 8 == 0
  {
    LowOf8(x / 8, a);
    assert 8 * (x / 8) == x;
  }

  // ----- the aligned spot

  /** How far behind a misaligned block internal_memalign goes: to the next aligned spot that leaves room for a chunk. */
  function Leader(mem: nat, alignment: nat): int
    requires PowerOfTwo(alignment)
  {
    var p := mem - 8;
    var br := HighPart(mem + alignment - 1, alignment) - 8;
    var pos := if br - p >= 16 then br else br + alignment;
    pos - p
  }

  lemma LeaderIs(mem: nat, alignment: nat)
    requires PowerOfTwo(alignment) && LowPart(mem, alignment) != 0
    ensures var up, low := HighPart(mem + alignment - 1, alignment), LowPart(mem, alignment);
            up == mem + alignment - low &&
            (mem + Leader(mem, alignment) == up || mem + Leader(mem, alignment) == up + alignment) &&
            Leader(mem, alignment) == if alignment - low >= 16 then alignment - low else 2 * alignment - low
  {
    hide PowerOfTwo, LowPart;
    LowPrev(mem, alignment);
    LowAdd(mem - 1, alignment);
  }

  /** It lands on a multiple of the alignment. */
  lemma LeaderAligns(mem: nat, alignment: nat)
    requires PowerOfTwo(alignment) && LowPart(mem, alignment) != 0
    ensures mem + Leader(mem, alignment) >= 0 && MultipleOf(mem + Leader(mem, alignment), alignment)
  {
    LeaderIs(mem, alignment);
    HighMultiples(mem + alignment - 1, alignment);
    hide *;
  }

  /** It leaves a legal chunk in front and takes little more than the alignment. */
  lemma LeaderFits(mem: nat, alignment: nat)
    requires PowerOfTwo(alignment) && alignment % 16 == 0 && alignment >= 16 && mem % 8 == 0 &&
             LowPart(mem, alignment) != 0
    ensures 16 <= Leader(mem, alignment) <= alignment + 8 && Leader(mem, alignment) % 8 == 0
  {
    LeaderIs(mem, alignment);
    LowAligned(mem, alignment);
    LeaderSizes(alignment, LowPart(mem, alignment));
    hide *;
  }

  lemma LeaderSizes(a: nat, low: nat)
    requires a % 16 == 0 && a >= 16 && low % 8 == 0 && 0 < low < a
    ensures var l := if a - low >= 16 then a - low else 2 * a - low; 16 <= l <= a + 8 && l % 8 == 0
  {
    LeaderUnits(a / 16, low / 8);
  }

  lemma LeaderUnits(c: nat, d: nat)
    requires 0 < 8 * d < 16 * c
    ensures var l := if 16 * c - 8 * d >= 16 then 16 * c - 8 * d else 32 * c - 8 * d;
            16 <= l <= 16 * c + 8 && l % 8 == 0
  {
    assert 16 * c - 8 * d == 8 * (2 * c - d) && 32 * c - 8 * d == 8 * (4 * c - d);
  }

  lemma HighMultiples(x: nat, a: nat)
    requires PowerOfTwo(a)
    ensures MultipleOf(HighPart(x, a), a) && MultipleOf(HighPart(x, a) + a, a)
  {
    var k := LowIsMultiple(x, a);
    SomeMultiples(HighPart(x, a), a, k);
  }

  lemma SomeMultiples(x: nat, a: nat, k: nat)
    requires x == k * a
    ensures MultipleOf(x, a) && MultipleOf(x + a, a)
  {
    assert x + a == (k + 1) * a;
  }

  lemma AlignedAlready(mem: nat, alignment: nat)
    requires PowerOfTwo(alignment) && LowPart(mem, alignment) == 0
    ensures MultipleOf(mem, alignment)
  {
    var k := LowIsMultiple(mem, alignment);
  }
}
