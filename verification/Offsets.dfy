/** Multiples of a block size, and positions split into a block number and an offset in it. */
module Offsets {
  /** Where block n starts: n times the size. */
  function Offset(n: nat, size: nat): nat
  {
    if n == 0 then 0 else Offset(n - 1, size) + size
  }

  lemma {:induction false} OffsetIsProduct(n: nat, size: nat)
    ensures Offset(n, size) == n * size
  {
    if n > 0 {
      OffsetIsProduct(n - 1, size);
      assert n * size == (n - 1) * size + size;
    }
  }

  lemma OffsetStep(n: nat, size: nat)
    ensures Offset(n + 1, size) == Offset(n, size) + size && Offset(0, size) == 0
  {}

  lemma {:induction false} OffsetOrder(m: nat, n: nat, size: nat)
    requires m < n
    ensures Offset(m, size) + size <= Offset(n, size)
  {
    if m < n - 1 { OffsetOrder(m, n - 1, size); }
  }

  lemma {:induction false} OffsetSum(m: nat, n: nat, size: nat)
    ensures Offset(m + n, size) == Offset(m, size) + Offset(n, size)
  {
    if n > 0 {
      OffsetSum(m, n - 1, size);
      assert m + n - 1 == m + (n - 1);
    }
  }

  /** Two factors can be multiplied one after the other. */
  lemma {:induction false} OffsetTwice(n: nat, k: nat, size: nat)
    ensures Offset(n, Offset(k, size)) == Offset(Offset(n, k), size)
  {
    if n > 0 {
      OffsetTwice(n - 1, k, size);
      OffsetSum(Offset(n - 1, k), k, size);
    }
  }

  lemma OffsetMonotone(m: nat, n: nat, size: nat)
    requires m <= n
    ensures Offset(m, size) <= Offset(n, size)
  {
    if m < n { OffsetOrder(m, n, size); }
  }

  /** n / size */
  function Quot(n: nat, size: nat): nat
    requires size > 0
  {
    n / size
  }

  /** n % size */
  function Rem(n: nat, size: nat): (r: nat)
    requires size > 0
    ensures r < size
  {
    n % size
  }

  lemma Divided(n: nat, size: nat)
    requires size > 0
    ensures n == Offset(Quot(n, size), size) + Rem(n, size)
  {
    OffsetIsProduct(Quot(n, size), size);
  }

  /** There is only one way to split a position. */
  lemma DividedUnique(q: nat, r: nat, size: nat)
    requires r < size
    ensures Quot(Offset(q, size) + r, size) == q && Rem(Offset(q, size) + r, size) == r
  {
    var n := Offset(q, size) + r;
    Divided(n, size);
    var q' := Quot(n, size);
    hide Quot, Rem, Offset;
    if q' < q { OffsetOrder(q', q, size); }
    if q < q' { OffsetOrder(q, q', size); }
  }

  /** n bytes are whole blocks. */
  predicate Whole(n: nat, size: nat)
    requires size > 0
  {
    Rem(n, size) == 0
  }

  lemma WholeStep(n: nat, size: nat)
    requires size > 0 && Whole(n, size)
    ensures Whole(size, size) && Whole(0, size) && (n > size ==> Whole(n - size, size))
  {
    DividedUnique(1, 0, size);
    DividedUnique(0, 0, size);
    OffsetStep(0, size);
    Divided(n, size);
    var q := Quot(n, size);
    hide Quot, Rem;
    if n > size {
      OffsetStep(q - 1, size);
      DividedUnique(q - 1, 0, size);
    }
  }
}
