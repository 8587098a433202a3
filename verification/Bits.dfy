/**
  Bin maps of malloc.c: 32-bit words whose i-th bit says whether bin i is occupied, and the
  portable bit tricks that search them.
*/
module Bits {
  type Binmap = bv32

  function Half(m: Binmap): Binmap { m >> 1 }

  predicate Low(m: Binmap) { m & 1 == 1 }

  /** The i-th bit of m: bit 0 of m shifted right i times. */
  predicate Bit(m: Binmap, i: nat)
  {
    if i == 0 then Low(m) else Bit(Half(m), i - 1)
  }

  /** 1 << i. */
  function Idx2Bit(i: nat): Binmap
  {
    if i == 0 then 1 else Double(Idx2Bit(i - 1))
  }

  function Double(m: Binmap): Binmap { m << 1 }

  function Or(m: Binmap, k: Binmap): Binmap { m | k }

  function And(m: Binmap, k: Binmap): Binmap { m & k }

  function Without(m: Binmap, k: Binmap): Binmap { m & !k }

  /** Isolates the least set bit. */
  function LeastBit(m: Binmap): Binmap { m & (0 - m) }

  /** A mask of all bits to the left of the least set bit. */
  function LeftBits(m: Binmap): Binmap { (m << 1) | (0 - (m << 1)) }

  /** The portable binary search for the index of a one-bit word. */
  function Bit2Idx(x: Binmap): Binmap
  {
    var y0 := x - 1;
    var k0 := (y0 >> 12) & 16;
    var y1 := y0 >> k0;
    var k1 := (y1 >> 5) & 8;
    var y2 := y1 >> k1;
    var k2 := (y2 >> 2) & 4;
    var y3 := y2 >> k2;
    var k3 := (y3 >> 1) & 2;
    var y4 := y3 >> k3;
    var k4 := y4 & 1;
    k0 + k1 + k2 + k3 + k4 + (y4 >> k4)
  }

  /** m >> i. */
  function ShiftRight(m: Binmap, i: nat): Binmap
  {
    if i == 0 then m else ShiftRight(Half(m), i - 1)
  }

  /** m << i. */
  function ShiftLeft(m: Binmap, i: nat): Binmap
  {
    if i == 0 then m else Double(ShiftLeft(m, i - 1))
  }

  // ----- one word operation seen bit by bit

  lemma OrStep(m: Binmap, k: Binmap)
    ensures Half(Or(m, k)) == Or(Half(m), Half(k))
    ensures Low(Or(m, k)) <==> Low(m) || Low(k)
  {}

  lemma {:induction false} BitOr(m: Binmap, k: Binmap, j: nat)
    ensures Bit(Or(m, k), j) <==> Bit(m, j) || Bit(k, j)
  {
    OrStep(m, k);
    if j > 0 { BitOr(Half(m), Half(k), j - 1); }
  }

  lemma AndStep(m: Binmap, k: Binmap)
    ensures Half(And(m, k)) == And(Half(m), Half(k))
    ensures Low(And(m, k)) <==> Low(m) && Low(k)
  {}

  lemma {:induction false} BitAnd(m: Binmap, k: Binmap, j: nat)
    ensures Bit(And(m, k), j) <==> Bit(m, j) && Bit(k, j)
  {
    AndStep(m, k);
    if j > 0 { BitAnd(Half(m), Half(k), j - 1); }
  }

  lemma WithoutStep(m: Binmap, k: Binmap)
    ensures Half(Without(m, k)) == Without(Half(m), Half(k))
    ensures Low(Without(m, k)) <==> Low(m) && !Low(k)
  {}

  lemma {:induction false} BitWithout(m: Binmap, k: Binmap, j: nat)
    ensures Bit(Without(m, k), j) <==> Bit(m, j) && !Bit(k, j)
  {
    WithoutStep(m, k);
    if j > 0 { BitWithout(Half(m), Half(k), j - 1); }
  }

  lemma {:induction false} BitZero(j: nat)
    ensures !Bit(0, j)
  {
    if j > 0 { BitZero(j - 1); }
  }

  lemma HalfZero(m: Binmap)
    ensures Half(m) == 0 && !Low(m) <==> m == 0
  {}

  /** A word is zero exactly when none of its 32 bits is set. */
  lemma {:induction false} SomeBit(m: Binmap) returns (i: nat)
    requires m != 0
    ensures Bit(m, i)
    decreases m
  {
    if Low(m) {
      i := 0;
    } else {
      HalfZero(m);
      HalfSmaller(m);
      i := SomeBit(Half(m));
      i := i + 1;
    }
  }

  lemma HalfSmaller(m: Binmap)
    requires m != 0
    ensures Half(m) < m
  {}

  // ----- one-bit words

  predicate OneBit(x: Binmap) { x != 0 && x & (x - 1) == 0 }

  lemma DoubleOneBit(x: Binmap)
    requires OneBit(x)
    ensures x < 0x80000000 ==> OneBit(Double(x)) && Half(Double(x)) == x && !Low(Double(x))
    ensures x >= 0x80000000 ==> Double(x) == 0
  {}

  lemma {:induction false} ZeroStays(i: nat, j: nat)
    requires i <= j && Idx2Bit(i) == 0
    ensures Idx2Bit(j) == 0
    decreases j
  {
    if i < j { ZeroStays(i, j - 1); }
  }

  lemma {:induction false} Idx2BitOneBit(i: nat)
    requires i < 32
    ensures OneBit(Idx2Bit(i))
    ensures i < 31 ==> Idx2Bit(i) < 0x80000000
    ensures i > 0 ==> Half(Idx2Bit(i)) == Idx2Bit(i - 1) && !Low(Idx2Bit(i))
  {
    assert Idx2Bit(31) != 0 by {
      assert Idx2Bit(8) == 0x100;
      assert Idx2Bit(16) == 0x10000;
      assert Idx2Bit(24) == 0x1000000;
    }
    if i > 0 {
      Idx2BitOneBit(i - 1);
      DoubleOneBit(Idx2Bit(i - 1));
    }
    if i < 31 && Idx2Bit(i) >= 0x80000000 {
      DoubleOneBit(Idx2Bit(i));
      ZeroStays(i + 1, 31);
    }
  }

  lemma {:induction false} BitIdx2Bit(i: nat, j: nat)
    requires i < 32
    ensures Bit(Idx2Bit(i), j) <==> i == j
  {
    Idx2BitOneBit(i);
    if j > 0 {
      if i == 0 { BitZero(j - 1); } else { BitIdx2Bit(i - 1, j - 1); }
    }
  }

  /** Marking bin i in a map changes that bit only. */
  lemma MarkBin(m: Binmap, i: nat, j: nat)
    requires i < 32
    ensures Bit(Or(m, Idx2Bit(i)), j) <==> i == j || Bit(m, j)
  {
    BitOr(m, Idx2Bit(i), j);
    BitIdx2Bit(i, j);
  }

  /** So does clearing it. */
  lemma ClearBin(m: Binmap, i: nat, j: nat)
    requires i < 32
    ensures Bit(Without(m, Idx2Bit(i)), j) <==> i != j && Bit(m, j)
  {
    BitWithout(m, Idx2Bit(i), j);
    BitIdx2Bit(i, j);
  }

  /** The test `map & idx2bit(i)` reads exactly bit i. */
  lemma TestBin(m: Binmap, i: nat)
    requires i < 32
    ensures And(m, Idx2Bit(i)) != 0 <==> Bit(m, i)
  {
    BitAnd(m, Idx2Bit(i), i);
    BitIdx2Bit(i, i);
    if And(m, Idx2Bit(i)) == 0 {
      BitZero(i);
    } else {
      var j := SomeBit(And(m, Idx2Bit(i)));
      BitAnd(m, Idx2Bit(i), j);
      BitIdx2Bit(i, j);
    }
  }

  // ----- the searches

  lemma LeastBitStep(m: Binmap)
    ensures Low(m) ==> LeastBit(m) == 1
    ensures !Low(m) ==> LeastBit(m) == Double(LeastBit(Half(m)))
  {}

  /** least_bit isolates the lowest set bit. */
  lemma {:induction false} LeastBitIsLowest(m: Binmap) returns (i: nat)
    requires m != 0
    ensures Bit(m, i) && LeastBit(m) == Idx2Bit(i)
    ensures forall j: nat :: j < i ==> !Bit(m, j)
    decreases m
  {
    LeastBitStep(m);
    if Low(m) {
      i := 0;
    } else {
      HalfZero(m);
      HalfSmaller(m);
      i := LeastBitIsLowest(Half(m));
      i := i + 1;
    }
  }

  /** The word of w ones. */
  function Ones(w: nat): Binmap
    decreases 32 - w
  {
    if w >= 32 then 0xFFFFFFFF else Half(Ones(w + 1))
  }

  lemma OnesOfNothing()
    ensures Ones(0) == 0
  {
    assert Ones(24) == 0xFFFFFF;
    assert Ones(16) == 0xFFFF;
    assert Ones(8) == 0xFF;
  }

  lemma {:induction false} OnesBit(w: nat, i: nat)
    requires w <= 32 && Bit(Ones(w), i)
    ensures i < w
  {
    if w == 0 {
      OnesOfNothing();
      BitZero(i);
    } else if i > 0 {
      OnesBit(w - 1, i - 1);
    }
  }

  lemma AndOnes(m: Binmap)
    ensures And(m, 0xFFFFFFFF) == m
  {}

  lemma BitBelow32(m: Binmap, i: nat)
    ensures Bit(m, i) ==> i < 32
  {
    AndOnes(m);
    BitAnd(m, 0xFFFFFFFF, i);
    if Bit(m, i) {
      assert Ones(32) == 0xFFFFFFFF;
      OnesBit(32, i);
    }
  }

  lemma HalfDouble(m: Binmap)
    ensures Half(Double(m)) == Without(m, 0x80000000)
    ensures !Low(Double(m))
  {}

  lemma Idx2Bit31()
    ensures Idx2Bit(31) == 0x80000000
  {
    assert Idx2Bit(8) == 0x100;
    assert Idx2Bit(16) == 0x10000;
    assert Idx2Bit(24) == 0x1000000;
  }

  lemma BitDouble(m: Binmap, j: nat)
    requires j < 32
    ensures Bit(Double(m), j) <==> j > 0 && Bit(m, j - 1)
  {
    HalfDouble(m);
    if j > 0 {
      Idx2Bit31();
      ClearBin(m, 31, j - 1);
    }
  }

  lemma LeftBitsDouble(x: Binmap)
    ensures LeftBits(Double(x)) == Double(LeftBits(x))
  {}

  lemma LeftBitsOfOne(j: nat)
    requires j < 32
    ensures Bit(LeftBits(1), j) <==> j > 0
  {
    assert LeftBits(1) == Without(0xFFFFFFFF, 1);
    assert Idx2Bit(0) == 1;
    ClearBin(0xFFFFFFFF, 0, j);
    AllBits(j);
  }

  lemma AllBits(j: nat)
    requires j < 32
    ensures Bit(0xFFFFFFFF, j)
  {
    BitIdx2Bit(j, j);
    AndOnes(Idx2Bit(j));
    BitAnd(Idx2Bit(j), 0xFFFFFFFF, j);
  }

  /** left_bits(idx2bit(i)) has exactly the bits above i. */
  lemma {:induction false} BitLeftBits(i: nat, j: nat)
    requires i < 32 && j < 32
    ensures Bit(LeftBits(Idx2Bit(i)), j) <==> j > i
  {
    if i == 0 {
      LeftBitsOfOne(j);
    } else {
      LeftBitsDouble(Idx2Bit(i - 1));
      BitDouble(LeftBits(Idx2Bit(i - 1)), j);
      if j > 0 { BitLeftBits(i - 1, j - 1); }
    }
  }

  lemma Bit2IdxDouble(x: Binmap)
    requires OneBit(x) && x < 0x80000000
    ensures Bit2Idx(Double(x)) == Bit2Idx(x) + 1
    ensures Bit2Idx(x) < 31
  {}

  lemma Increment(b: Binmap)
    requires b < 31
    ensures (b + 1) as int == b as int + 1
  {}

  /** compute_bit2idx inverts idx2bit on every bin index. */
  lemma {:induction false} Bit2IdxInverts(i: nat)
    requires i < 32
    ensures Bit2Idx(Idx2Bit(i)) as int == i
  {
    if i > 0 {
      Idx2BitOneBit(i - 1);
      Bit2IdxDouble(Idx2Bit(i - 1));
      Increment(Bit2Idx(Idx2Bit(i - 1)));
      Bit2IdxInverts(i - 1);
    }
  }

  /** The code's search for the next occupied bin above idx: compute_bit2idx of least_bit of the masked map. */
  lemma NextBin(m: Binmap, idx: nat)
    requires idx < 32
    ensures var left := And(LeftBits(Idx2Bit(idx)), m);
            (left == 0 ==> forall j :: idx < j < 32 ==> !Bit(m, j)) &&
            (left != 0 ==>
              var i := Bit2Idx(LeastBit(left)) as int;
              idx < i < 32 && Bit(m, i) && forall j :: idx < j < i ==> !Bit(m, j))
  {
    var left := And(LeftBits(Idx2Bit(idx)), m);
    forall j: nat | j < 32
      ensures Bit(left, j) <==> j > idx && Bit(m, j)
    {
      BitAnd(LeftBits(Idx2Bit(idx)), m, j);
      BitLeftBits(idx, j);
    }
    if left == 0 {
      forall j | idx < j < 32 ensures !Bit(m, j) { BitZero(j); }
    } else {
      var i := LeastBitIsLowest(left);
      BitBelow32(left, i);
      Bit2IdxInverts(i);
    }
  }

  /** Without a mask, the same search finds the lowest occupied bin. */
  lemma FirstBin(m: Binmap)
    requires m != 0
    ensures var i := Bit2Idx(LeastBit(m)) as int;
            0 <= i < 32 && Bit(m, i) && forall j :: 0 <= j < i ==> !Bit(m, j)
  {
    var i := LeastBitIsLowest(m);
    BitBelow32(m, i);
    Bit2IdxInverts(i);
  }

  lemma {:induction false} BitShiftRight(m: Binmap, i: nat, j: nat)
    ensures Bit(ShiftRight(m, i), j) <==> Bit(m, i + j)
  {
    if i > 0 { BitShiftRight(Half(m), i - 1, j); }
  }

  lemma {:induction false} BitShiftLeft(m: Binmap, i: nat, j: nat)
    requires j < 32
    ensures Bit(ShiftLeft(m, i), j) <==> j >= i && Bit(m, j - i)
  {
    if i > 0 {
      BitDouble(ShiftLeft(m, i - 1), j);
      if j > 0 { BitShiftLeft(m, i - 1, j - 1); }
    }
  }

  lemma LowTwo(m: Binmap)
    ensures m & 3 != 0 <==> Low(m) || Low(Half(m))
  {}
}
