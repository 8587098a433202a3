/**
  How malloc.c files large chunk sizes: the tree bin of a size, and the bits of a size that steer
  a path through its bin's trie.
*/
module TreeIndex {
  const WORD: int := 0x1_0000_0000

  // ----- sizes seen through their leading bits

  /** s >> l. */
  function Prefix(s: nat, l: nat): nat
  {
    if l == 0 then s else Prefix(s, l - 1) / 2
  }

  lemma PrefixStep(s: nat, l: nat)
    ensures Prefix(s, l + 1) == Prefix(s, l) / 2 && Prefix(s, l) == 2 * Prefix(s, l + 1) + Prefix(s, l) % 2
  {}

  lemma {:induction false} PrefixMonotone(s: nat, t: nat, l: nat)
    requires s <= t
    ensures Prefix(s, l) <= Prefix(t, l)
  {
    if l > 0 { PrefixMonotone(s, t, l - 1); }
  }

  /** A smaller prefix means a smaller size. */
  lemma PrefixOrders(s: nat, t: nat, l: nat)
    requires Prefix(s, l) < Prefix(t, l)
    ensures s < t
  {
    if t <= s { PrefixMonotone(t, s, l); }
  }

  /** Sizes that agree down to bit l agree down to every higher bit. */
  lemma {:induction false} PrefixUp(s: nat, t: nat, l: nat, m: nat)
    requires Prefix(s, l) == Prefix(t, l) && l <= m
    ensures Prefix(s, m) == Prefix(t, m)
    decreases m
  {
    if l < m { PrefixUp(s, t, l, m - 1); }
  }

  /** Multiples of 8 that agree down to bit 3 are equal. */
  lemma PrefixOfAligned(s: nat, t: nat)
    requires s % 8 == 0 && t % 8 == 0 && Prefix(s, 3) == Prefix(t, 3)
    ensures s == t
  {
    PrefixThree(s);
    PrefixThree(t);
  }

  lemma PrefixThree(s: nat)
    ensures Prefix(s, 3) == s / 8
  {
    assert Prefix(s, 1) == s / 2;
    assert Prefix(s, 2) == s / 2 / 2;
  }

  lemma {:induction false} PrefixHalf(s: nat, l: nat)
    ensures Prefix(s, l + 1) == Prefix(s / 2, l)
  {
    if l > 0 { PrefixHalf(s, l - 1); }
  }

  function Pow2(n: nat): nat
  {
    if n == 0 then 1 else 2 * Pow2(n - 1)
  }

  /** Sizes from c << l up to (c + 1) << l have prefix c. */
  lemma {:induction false} PrefixOfRange(s: nat, l: nat, c: nat)
    requires c * Pow2(l) <= s < (c + 1) * Pow2(l)
    ensures Prefix(s, l) == c
    decreases l
  {
    if l > 0 {
      var m := Pow2(l - 1);
      assert c * Pow2(l) == 2 * (c * m) && (c + 1) * Pow2(l) == 2 * ((c + 1) * m);
      PrefixHalf(s, l - 1);
      PrefixOfRange(s / 2, l - 1, c);
    }
  }

  // ----- the path word K: S << leftshift_for_tree_index(I), shifted left once per level

  /** x << n on a 32-bit word. */
  function ShiftLeft32(x: nat, n: nat): (y: nat)
    requires x < WORD
    ensures y < WORD
  {
    if n == 0 then x else ShiftLeft32(x, n - 1) * 2 % WORD
  }

  /** (x >> 31) & 1. */
  function TopBit(x: nat): nat
    requires x < WORD
  {
    x / 0x8000_0000
  }

  /** The path word when the next bit to be looked at is bit l - 1 of the size. */
  function PathWord(s: nat, l: nat): nat
    requires s < WORD && l <= 32
  {
    ShiftLeft32(s, 32 - l)
  }

  lemma {:induction false} PrefixDouble(x: nat, j: nat)
    ensures Prefix(2 * x, j + 1) == Prefix(x, j)
  {
    PrefixHalf(2 * x, j);
  }

  lemma {:induction false} PrefixSubtract(x: nat, m: nat, k: nat)
    requires k <= m && x >= Pow2(m)
    ensures Prefix(x, k) >= Pow2(m - k) && Prefix(x - Pow2(m), k) == Prefix(x, k) - Pow2(m - k)
    decreases k
  {
    if k > 0 {
      PrefixSubtract(x, m, k - 1);
      assert Pow2(m - (k - 1)) == 2 * Pow2(m - k);
    }
  }

  lemma Pow2Values()
    ensures Pow2(31) == 0x8000_0000 && Pow2(32) == WORD
  {
    assert Pow2(10) == 0x400;
    assert Pow2(20) == 0x10_0000;
  }

  /** Dropping the carry out of a 32-bit word does not change the bits below it. */
  lemma DroppedCarry(y: nat, j: nat)
    requires WORD <= y < 2 * WORD && j < 32
    ensures Prefix(y % WORD, j) % 2 == Prefix(y, j) % 2
  {
    Pow2Values();
    PrefixSubtract(y, 32, j);
    assert Pow2(32 - j) == 2 * Pow2(31 - j);
    hide Pow2, Prefix;
    OneCarry(y);
    EvenKept(Prefix(y, j), Pow2(31 - j));
  }

  lemma OneCarry(y: nat)
    requires WORD <= y < 2 * WORD
    ensures y % WORD == y - WORD
  {}

  lemma EvenKept(x: nat, h: nat)
    requires x >= 2 * h
    ensures (x - 2 * h) % 2 == x % 2
  {}

  lemma {:induction false} ShiftedBit(x: nat, n: nat, j: nat)
    requires x < WORD && n <= j < 32
    ensures Prefix(ShiftLeft32(x, n), j) % 2 == Prefix(x, j - n) % 2
    decreases n
  {
    if n > 0 {
      var y := ShiftLeft32(x, n - 1);
      ShiftedBit(x, n - 1, j - 1);
      PrefixDouble(y, j - 1);
      if 2 * y >= WORD { DroppedCarry(2 * y, j); }
    }
  }

  lemma {:induction false} PrefixBelow(x: nat, l: nat, m: nat)
    requires x < Pow2(l + m)
    ensures Prefix(x, l) < Pow2(m)
    decreases l
  {
    if l > 0 { PrefixBelow(x, l - 1, m + 1); }
  }

  /** The code's test of the path word reads the bit of the size that picks the child. */
  lemma PathBit(s: nat, l: nat)
    requires s < WORD && 1 <= l <= 32
    ensures TopBit(PathWord(s, l)) == Prefix(s, l - 1) % 2
    ensures PathWord(s, l - 1) == PathWord(s, l) * 2 % WORD
  {
    var k := PathWord(s, l);
    ShiftedBit(s, 32 - l, 31);
    Pow2Values();
    PrefixBelow(k, 31, 1);
    TopBitIsPrefix(k);
  }

  lemma TopBitIsPrefix(k: nat)
    requires k < WORD
    ensures Prefix(k, 31) == TopBit(k)
  {
    Pow2Values();
    PrefixOfRange(k, 31, TopBit(k));
  }

  // ----- the portable index computation

  /** x << n for the shifts the macro makes. */
  function Shift(x: nat, n: nat): nat
    requires n in {0, 2, 4, 8}
  {
    if n == 0 then x else if n == 2 then x * 4 else if n == 4 then x * 16 else x * 256
  }

  /** ((y - m) >> 16) & bit on unsigned 32-bit words. */
  function Borrow(y: nat, m: nat, bit: nat): (k: nat)
    requires bit in {2, 4, 8} && y < WORD && m < WORD
    ensures k in {0, bit}
  {
    if ((y - m) % WORD) / 0x1_0000 / bit % 2 == 1 then bit else 0
  }

  /** The most significant bit of x, found without a count-leading-zeros instruction. */
  function HighestBit(x: nat): (k: int)
    requires 0 < x <= 0xFFFF
  {
    var n := Borrow(x, 0x100, 8);
    var y := Shift(x, n);
    var k1 := Borrow(y, 0x1000, 4);
    var y1 := Shift(y, k1);
    var k2 := Borrow(y1, 0x4000, 2);
    var y2 := Shift(y1, k2);
    14 - (n + k1 + k2) + y2 / 0x8000
  }

  lemma BorrowTests(y: nat, m: nat, bit: nat)
    requires bit in {2, 4, 8} && y < 0x1_0000 && m < 0x1_0000
    ensures Borrow(y, m, bit) == if y < m then bit else 0
  {
    var d := (y - m) % WORD;
    if y < m {
      assert d == y - m + WORD;
      assert d / 0x1_0000 == 0xFFFF;
    } else {
      assert d == y - m;
      assert d / 0x1_0000 == 0;
    }
  }

  lemma SmallPowers()
    ensures Pow2(0) == 1 && Pow2(1) == 2 && Pow2(2) == 4 && Pow2(3) == 8 && Pow2(4) == 0x10 && Pow2(5) == 0x20
    ensures Pow2(6) == 0x40 && Pow2(7) == 0x80 && Pow2(8) == 0x100 && Pow2(9) == 0x200 && Pow2(10) == 0x400
    ensures Pow2(11) == 0x800 && Pow2(12) == 0x1000 && Pow2(13) == 0x2000 && Pow2(14) == 0x4000
    ensures Pow2(15) == 0x8000 && Pow2(16) == 0x1_0000
  {
    assert Pow2(8) == 0x100;
  }

  /** The binary search really finds the logarithm. */
  lemma HighestBitIsLog(x: nat)
    requires 0 < x <= 0xFFFF
    ensures 0 <= HighestBit(x) < 16 && Pow2(HighestBit(x)) <= x < Pow2(HighestBit(x) + 1)
  {
    hide Borrow, Pow2;
    SmallPowers();
    BorrowTests(x, 0x100, 8);
    var n := if x < 0x100 then 8 else 0;
    var y := Shift(x, n);
    BorrowTests(y, 0x1000, 4);
    var k1 := if y < 0x1000 then 4 else 0;
    var y1 := Shift(y, k1);
    BorrowTests(y1, 0x4000, 2);
  }

  const NTREEBINS: nat := 32
  const MIN_LARGE_SIZE: nat := 256

  /** compute_tree_index. */
  function ComputeTreeIndex(s: nat): (i: nat)
    requires s < WORD
    ensures i < NTREEBINS
  {
    var x := s / 0x100;
    if x == 0 then 0
    else if x > 0xFFFF then NTREEBINS - 1
    else
      HighestBitIsLog(x);
      var k := HighestBit(x);
      2 * k + Prefix(s, k + 7) % 2
  }

  /** minsize_for_tree_index. */
  function MinSize(i: nat): nat
  {
    Pow2(i / 2 + 8) + (i % 2) * Pow2(i / 2 + 7)
  }

  /** One more than bit_for_tree_index: the sizes of bin i differ only in the bits below this one. */
  function RootLevel(i: nat): nat
  {
    if i == NTREEBINS - 1 then 32 else i / 2 + 7
  }

  /** leftshift_for_tree_index. */
  function LeftShift(i: nat): nat
    requires i < NTREEBINS
  {
    if i == NTREEBINS - 1 then 0 else 31 - (i / 2 + 8 - 2)
  }

  lemma Twice(c: nat, m: nat)
    ensures c * (2 * m) == 2 * (c * m)
  {}

  lemma {:induction false} RangeOfPrefix(s: nat, l: nat)
    ensures Prefix(s, l) * Pow2(l) <= s < (Prefix(s, l) + 1) * Pow2(l)
    decreases l
  {
    if l > 0 {
      hide Prefix;
      var c := Prefix(s, l);
      PrefixHalf(s, l - 1);
      RangeOfPrefix(s / 2, l - 1);
      Twice(c, Pow2(l - 1));
      Twice(c + 1, Pow2(l - 1));
    }
  }

  lemma Pow2Times256(k: nat)
    ensures Pow2(k + 8) == 0x100 * Pow2(k)
  {
    assert Pow2(k + 4) == 0x10 * Pow2(k) by { assert Pow2(k + 2) == 4 * Pow2(k); }
    assert Pow2(k + 6) == 4 * Pow2(k + 4);
  }

  /** A size whose highest bit is bit k + 8 lies in bin 2k or 2k + 1 by its next bit. */
  lemma MiddleBin(s: nat)
    requires 0x100 <= s < 0x100_0000
    ensures var i := ComputeTreeIndex(s);
            Prefix(s, i / 2 + 7) == 2 + i % 2 && MinSize(i) == (2 + i % 2) * Pow2(i / 2 + 7)
  {
    var x := s / 0x100;
    HighestBitIsLog(x);
    var k := HighestBit(x);
    Pow2Times256(k);
    Pow2Times256(k + 1);
    PrefixOfRange(s, k + 8, 1);
    var i := ComputeTreeIndex(s);
    assert i / 2 == k && i % 2 == Prefix(s, k + 7) % 2;
    assert Prefix(s, k + 8) == Prefix(s, k + 7) / 2;
    MinSizeOf(i);
    hide *;
  }

  lemma MinSizeOf(i: nat)
    ensures MinSize(i) == (2 + i % 2) * Pow2(i / 2 + 7)
  {
    var m := Pow2(i / 2 + 7);
    assert Pow2(i / 2 + 8) == 2 * m;
    assert (2 + i % 2) * m == 2 * m + (i % 2) * m;
  }

  /** Each bin holds exactly the sizes from its minimum up to the next bin's; the last bin has no upper end. */
  lemma TreeIndexIsBin(s: nat)
    requires MIN_LARGE_SIZE <= s < WORD
    ensures var i := ComputeTreeIndex(s);
            MinSize(i) <= s && (i < NTREEBINS - 1 ==> s < MinSize(i + 1))
  {
    var i := ComputeTreeIndex(s);
    if s >= 0x100_0000 {
      LastBins();
    } else {
      MiddleBin(s);
      RangeOfPrefix(s, i / 2 + 7);
      NextMinSize(i);
      hide Pow2, Prefix, MinSize, ComputeTreeIndex;
    }
  }

  lemma LastBins()
    ensures MinSize(31) == 0xC0_0000
  {
    assert Pow2(22) == 0x40_0000 by { assert Pow2(11) == 0x800; }
  }

  lemma NextMinSize(i: nat)
    ensures MinSize(i) == (2 + i % 2) * Pow2(i / 2 + 7)
    ensures MinSize(i + 1) == (3 + i % 2) * Pow2(i / 2 + 7)
  {
    var m := Pow2(i / 2 + 7);
    assert Pow2(i / 2 + 8) == 2 * m;
    if i % 2 == 0 {
      assert (i + 1) / 2 == i / 2 && (i + 1) % 2 == 1;
    } else {
      assert (i + 1) / 2 == i / 2 + 1 && (i + 1) % 2 == 0;
      assert Pow2((i + 1) / 2 + 8) == 4 * m;
    }
  }

  lemma {:induction false} MinSizeMonotone(i: nat, j: nat)
    requires i <= j
    ensures MinSize(i) <= MinSize(j)
    decreases j - i
  {
    if i < j {
      NextMinSize(j - 1);
      MinSizeMonotone(i, j - 1);
    }
  }

  /** Bins are ordered as their sizes are. */
  lemma TreeIndexMonotone(s: nat, t: nat)
    requires MIN_LARGE_SIZE <= s < WORD && MIN_LARGE_SIZE <= t < WORD
    requires ComputeTreeIndex(s) < ComputeTreeIndex(t)
    ensures s < t
  {
    TreeIndexIsBin(s);
    TreeIndexIsBin(t);
    MinSizeMonotone(ComputeTreeIndex(s) + 1, ComputeTreeIndex(t));
  }

  /** Within one bin all sizes agree above the root level. */
  lemma SameBinSamePrefix(s: nat, t: nat)
    requires MIN_LARGE_SIZE <= s < WORD && MIN_LARGE_SIZE <= t < WORD
    requires ComputeTreeIndex(s) == ComputeTreeIndex(t)
    ensures var l := RootLevel(ComputeTreeIndex(s)); Prefix(s, l) == Prefix(t, l)
  {
    var i := ComputeTreeIndex(s);
    if i == NTREEBINS - 1 {
      Pow2Values();
      PrefixOfRange(s, 32, 0);
      PrefixOfRange(t, 32, 0);
    } else {
      MiddleBin(s);
      MiddleBin(t);
    }
  }

  /** The path word starts out at the root level. */
  lemma PathWordStart(s: nat)
    requires s < WORD
    ensures var i := ComputeTreeIndex(s);
            RootLevel(i) <= 32 && ShiftLeft32(s, LeftShift(i)) == PathWord(s, RootLevel(i))
  {
  }
}
