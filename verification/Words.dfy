/**
  Combinatorics of words behind strstr.c: periods, maximal suffixes under an alphabetic order and
  its reverse, and the critical factorization theorem.
*/
module Words {
  import opened Bytes

  type Word = seq<Byte>

  // ----- periods

  /** The letters of w at i and p places later, if both exist, are equal. */
  predicate Repeats(w: Word, p: int, i: int)
  {
    0 <= i < |w| && 0 <= i + p < |w| ==> w[i] == w[i + p]
  }

  ghost predicate HasPeriod(w: Word, p: int)
  {
    1 <= p && forall i :: Repeats(w, p, i)
  }

  ghost predicate SmallestPeriod(w: Word, p: int)
  {
    HasPeriod(w, p) && forall r :: 1 <= r < p ==> !HasPeriod(w, r)
  }

  lemma SmallestPeriodExists(w: Word) returns (p: int)
    ensures SmallestPeriod(w, p) && p <= |w| + 1
  {
    p := 1;
    while !HasPeriod(w, p)
      invariant 1 <= p <= |w| + 1
      invariant forall r :: 1 <= r < p ==> !HasPeriod(w, r)
      decreases |w| + 1 - p
    {
      p := p + 1;
    }
  }

  /** Letters a multiple of the period apart are equal. */
  lemma {:induction false} PeriodJump(w: Word, p: int, i: int, j: int)
    requires HasPeriod(w, p) && 0 <= i <= j < |w| && (j - i) % p == 0
    ensures w[i] == w[j]
    decreases j - i
  {
    if i < j {
      StepDown(j - i, p);
      PeriodJump(w, p, i, j - p);
      assert Repeats(w, p, j - p);
    }
  }

  lemma StepDown(d: int, p: int)
    requires p >= 1 && d > 0 && d % p == 0
    ensures d >= p && (d - p) % p == 0
  {
    var q := d / p;
    assert d == q * p;
    ModOfMultiple(q - 1, p);
    assert (q - 1) * p == d - p;
  }

  lemma ModUnique(a: int, p: int, r: int)
    requires p >= 1 && 0 <= r < p
    ensures (a * p + r) % p == r
  {
    var x := a * p + r;
    var k := x / p;
    assert (a - k) * p == x % p - r;
    if a - k >= 1 { AtLeastOnce(a - k, p); }
    if k - a >= 1 { AtLeastOnce(k - a, p); }
  }

  lemma AtLeastOnce(a: int, p: int)
    requires a >= 1 && p >= 0
    ensures a * p >= p && (-a) * p <= -p
  {}

  lemma ModOfMultiple(q: int, p: int)
    requires p >= 1
    ensures (q * p) % p == 0
  {
    ModUnique(q, p, 0);
  }

  // ----- the order on suffixes

  /** Letter x is above letter y: in the alphabetic order, or in the reverse one. */
  predicate Above(reverse: bool, x: Byte, y: Byte)
  {
    if reverse then x < y else x > y
  }

  /** The x-th letters after i and after j exist and are equal. */
  predicate Same(w: Word, i: int, j: int, x: int)
  {
    0 <= i + x < |w| && 0 <= j + x < |w| && w[i + x] == w[j + x]
  }

  /** The words starting at i and at j agree on m letters. */
  predicate Agree(w: Word, i: int, j: int, m: int)
  {
    0 <= i && 0 <= j && 0 <= m && i + m <= |w| && j + m <= |w| &&
    forall x :: 0 <= x < m ==> Same(w, i, j, x)
  }

  /** After m agreeing letters the suffix at i falls below the suffix at j, or has ended. */
  predicate FallsBelow(w: Word, reverse: bool, i: int, j: int, m: int)
  {
    Agree(w, i, j, m) && j + m < |w| && (i + m == |w| || Above(reverse, w[j + m], w[i + m]))
  }

  /** The suffix of w at i is strictly smaller than the suffix at j. */
  ghost predicate Below(w: Word, reverse: bool, i: int, j: int)
  {
    exists m :: FallsBelow(w, reverse, i, j, m)
  }

  lemma BelowTransitive(w: Word, reverse: bool, i: int, j: int, k: int)
    requires Below(w, reverse, i, j) && Below(w, reverse, j, k)
    ensures Below(w, reverse, i, k)
  {
    var a :| FallsBelow(w, reverse, i, j, a);
    var b :| FallsBelow(w, reverse, j, k, b);
    var m := if a < b then a else b;
    assert a < b ==> Same(w, j, k, a);
    assert b < a ==> Same(w, i, j, b);
    forall x | 0 <= x < m ensures Same(w, i, k, x) {
      assert Same(w, i, j, x) && Same(w, j, k, x);
    }
    assert FallsBelow(w, reverse, i, k, m);
  }

  lemma BelowAsymmetric(w: Word, reverse: bool, i: int, j: int)
    requires Below(w, reverse, i, j)
    ensures !Below(w, reverse, j, i)
  {
    var a :| FallsBelow(w, reverse, i, j, a);
    forall b | Agree(w, j, i, b) ensures !FallsBelow(w, reverse, j, i, b) {
      assert b > a ==> Same(w, j, i, a);
      assert b < a ==> Same(w, i, j, b);
    }
  }

  /** The suffix at s is the largest of all suffixes. */
  ghost predicate MaximalSuffix(w: Word, reverse: bool, s: int)
  {
    0 <= s < |w| && forall i :: 0 <= i < |w| && i != s ==> Below(w, reverse, i, s)
  }

  // ----- critical positions

  /** r is a local period at cut c: the r letters before c and the r letters after it match wherever both exist. */
  ghost predicate LocalPeriod(w: Word, c: int, r: int)
  {
    1 <= r && forall i :: c - r <= i < c ==> Repeats(w, r, i)
  }

  /** Cut c lies before the end of the first period q, and no local period at c is shorter than q. */
  ghost predicate Critical(w: Word, c: int, q: int)
  {
    0 <= c < q && c <= |w| && SmallestPeriod(w, q) && forall r :: LocalPeriod(w, c, r) ==> q <= r
  }

  /** At a maximal suffix no local period fits into the left part. */
  lemma NoShortLocalPeriod(w: Word, reverse: bool, s: int, r: int)
    requires MaximalSuffix(w, reverse, s) && LocalPeriod(w, s, r)
    ensures r > s
  {
    if r <= s {
      assert Below(w, reverse, s - r, s);
      var m :| FallsBelow(w, reverse, s - r, s, m);
      assert m < r ==> Repeats(w, r, s - r + m);
      var t := s + r;
      forall x | 0 <= x < m - r ensures Same(w, s, t, x) { assert Same(w, s - r, s, r + x); }
      assert FallsBelow(w, reverse, s, t, m - r);
      BelowAsymmetric(w, reverse, s, t);
    }
  }

  /** If the suffix at i falls below the suffix at j in both orders, it is a prefix of it. */
  lemma BelowBothWays(w: Word, i: int, j: int)
    requires Below(w, false, i, j) && Below(w, true, i, j)
    ensures i <= |w| && Agree(w, i, j, |w| - i)
  {
    var a :| FallsBelow(w, false, i, j, a);
    var b :| FallsBelow(w, true, i, j, b);
    assert a < b ==> Same(w, i, j, a);
    assert b < a ==> Same(w, i, j, b);
  }

  /** Dropping d equal letters from the front keeps the order. */
  lemma BelowDrop(w: Word, reverse: bool, i: int, j: int, d: int)
    requires Below(w, reverse, i, j) && d >= 0 && Agree(w, i, j, d)
    requires i + d < |w|
    ensures Below(w, reverse, i + d, j + d)
  {
    var m :| FallsBelow(w, reverse, i, j, m);
    assert m < d ==> Same(w, i, j, m);
    var i', j' := i + d, j + d;
    forall x | 0 <= x < m - d ensures Same(w, i', j', x) { assert Same(w, i, j, d + x); }
    assert FallsBelow(w, reverse, i', j', m - d);
  }

  /**
    Between the left part and the right part in length, a local period at the shorter maximal suffix
    is a period of the right part: the rest of the right part is below it in both orders.
  */
  lemma LocalPeriodOfRightPart(w: Word, reverse: bool, c: int, b: int, r: int)
    requires MaximalSuffix(w, reverse, c) && MaximalSuffix(w, !reverse, b) && b <= c
    requires LocalPeriod(w, c, r) && c < r < |w| - c
    ensures Agree(w, c + r, c, |w| - c - r)
  {
    assert Below(w, reverse, c + r, c);
    var t := b + r;
    assert Below(w, !reverse, t, b);
    forall x | 0 <= x < c - b ensures Same(w, t, b, x) {
      assert Repeats(w, r, b + x);
    }
    BelowDrop(w, !reverse, t, b, c - b);
    BelowBothWays(w, c + r, c);
  }

  /** A local period at the shorter of the two maximal suffixes is a period of the whole word. */
  lemma LocalPeriodIsPeriod(w: Word, reverse: bool, c: int, b: int, r: int)
    requires MaximalSuffix(w, reverse, c) && MaximalSuffix(w, !reverse, b) && b <= c
    requires LocalPeriod(w, c, r)
    ensures c < r && HasPeriod(w, r)
  {
    NoShortLocalPeriod(w, reverse, c, r);
    if r < |w| - c {
      LocalPeriodOfRightPart(w, reverse, c, b, r);
    }
    forall i ensures Repeats(w, r, i) {
      if 0 <= i < c { assert c - r <= i < c; } else if c <= i && i + r < |w| { assert Same(w, c + r, c, i - c); }
    }
  }

  /** The critical factorization theorem: the shorter of the two maximal suffixes starts at a critical position. */
  lemma CriticalFactorization(w: Word, reverse: bool, c: int, b: int, q: int)
    requires MaximalSuffix(w, reverse, c) && MaximalSuffix(w, !reverse, b) && b <= c
    requires SmallestPeriod(w, q)
    ensures Critical(w, c, q)
  {
    assert LocalPeriod(w, c, q);
    LocalPeriodIsPeriod(w, reverse, c, b, q);
    forall r | LocalPeriod(w, c, r) ensures q <= r {
      LocalPeriodIsPeriod(w, reverse, c, b, r);
    }
  }

  /**
    What the comparison of the left part with the word one right-part period later decides.
    p is the smallest period of the right part. Either p is the smallest period of the whole word,
    or the smallest period is longer than both parts.
  */
  lemma PeriodicOrLong(w: Word, c: int, p: int, q: int)
    requires Critical(w, c, q) && c < |w| && SmallestPeriod(w[c..], p) && p <= |w| - c
    ensures HasPeriod(w, p) ==> p == q
    ensures !HasPeriod(w, p) ==> q > c && q > |w| - c
  {
    var v := w[c..];
    assert HasPeriod(v, q) by {
      forall i ensures Repeats(v, q, i) { assert Repeats(w, q, c + i); }
    }
    assert p <= q;
    if HasPeriod(w, p) {
      assert q <= p;
    } else if q <= |w| - c {
      var r := if q % p == 0 then p else q % p;
      assert 1 <= r <= p && (q - r) % p == 0 by { ModDifference(q, p); }
      assert LocalPeriod(w, c, r) by {
        forall i | c - r <= i < c ensures Repeats(w, r, i) {
          assert Repeats(w, q, i);
          PeriodJump(v, p, i + r - c, i + q - c);
        }
      }
    }
  }

  lemma ModDifference(q: int, p: int)
    requires p >= 1 && q >= p
    ensures (q - q % p) % p == 0
    ensures (q - p) % p == q % p
  {
    ModOfMultiple(q / p, p);
    assert q - q % p == (q / p) * p;
    assert q - p == (q / p - 1) * p + q % p;
    ModUnique(q / p - 1, p, q % p);
  }

  /** At a critical cut, a local period no longer than the right part is a multiple of the period. */
  lemma LocalPeriodIsMultiple(w: Word, c: int, q: int, d: int)
    requires Critical(w, c, q) && LocalPeriod(w, c, d) && c + d <= |w|
    ensures d % q == 0
  {
    var r := d % q;
    if r > 0 {
      assert (d - r) % q == 0 by { ModDifference(d, q); }
      assert LocalPeriod(w, c, r) by {
        forall i | c - r <= i < c ensures Repeats(w, r, i) {
          assert Repeats(w, d, i);
          if 0 <= i { PeriodJump(w, q, i + r, i + d); }
        }
      }
    }
  }
}
