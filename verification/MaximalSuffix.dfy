/**
  The two maximal-suffix loops of twoway_strstr. They are the same loop with the comparison turned
  round, so one method stands for both.
*/
module MaximalSuffixes {
  import opened Bytes
  import opened Words

  /** After j agreeing letters the word at d falls below the word at 0, all inside the first p letters. */
  predicate Loses(x: Word, reverse: bool, p: int, d: int, j: int)
  {
    p <= |x| && d + j < p && Agree(x, d, 0, j) && Above(reverse, x[j], x[d + j])
  }

  ghost predicate Beaten(x: Word, reverse: bool, p: int, d: int)
  {
    exists j :: Loses(x, reverse, p, d, j)
  }

  /** The first p letters of x are strictly above each of their own proper suffixes, visibly so. */
  ghost predicate Dominant(x: Word, reverse: bool, p: int)
  {
    1 <= p <= |x| && forall d :: 0 < d < p ==> Beaten(x, reverse, p, d)
  }

  /**
    What the loop knows when it is about to compare letters s + k - 1 and t + k - 1 of w:
    every suffix before s has lost to the one at s, and the letters from s on repeat a dominant
    word of length p, t being the start of one of its copies.
  */
  ghost predicate Duel(w: Word, reverse: bool, s: int, t: int, k: int, p: int)
  {
    0 <= s && s + p <= t && 1 <= k <= p && t + k - 1 <= |w| &&
    (t - s) % p == 0 &&
    (forall i :: 0 <= i < s ==> Below(w, reverse, i, s)) &&
    HasPeriod(w[s..t + k - 1], p) &&
    Dominant(w[s..t + k - 1], reverse, p)
  }

  lemma DuelStarts(w: Word, reverse: bool)
    requires |w| >= 1
    ensures Duel(w, reverse, 0, 1, 1, 1)
  {}

  lemma ExpectedLetter(w: Word, reverse: bool, s: int, t: int, k: int, p: int)
    requires Duel(w, reverse, s, t, k, p)
    ensures w[t + k - 1 - p] == w[s + k - 1]
  {
    var x := w[s..t + k - 1];
    ModDifference(t - s, p);
    PeriodJump(x, p, k - 1, |x| - p);
  }

  lemma DominantExtends(x: Word, y: Word, reverse: bool, p: int)
    requires Dominant(x, reverse, p) && x <= y
    ensures Dominant(y, reverse, p)
  {
    forall d | 0 < d < p ensures Beaten(y, reverse, p, d) {
      assert Beaten(x, reverse, p, d);
      var j :| Loses(x, reverse, p, d, j);
      forall m | 0 <= m < j ensures Same(y, d, 0, m) { assert Same(x, d, 0, m); }
      assert Loses(y, reverse, p, d, j);
    }
  }

  /** Branch "equal": one more letter follows the period. */
  lemma EqualStep(w: Word, reverse: bool, s: int, t: int, k: int, p: int)
    requires Duel(w, reverse, s, t, k, p) && t + k - 1 < |w|
    requires w[s + k - 1] == w[t + k - 1]
    ensures k == p ==> Duel(w, reverse, s, t + p, 1, p)
    ensures k < p ==> Duel(w, reverse, s, t, k + 1, p)
  {
    ExpectedLetter(w, reverse, s, t, k, p);
    var x, y := w[s..t + k - 1], w[s..t + k];
    assert y == x + [w[t + k - 1]];
    DominantExtends(x, y, reverse, p);
    assert HasPeriod(y, p) by {
      forall i ensures Repeats(y, p, i) { assert Repeats(x, p, i); }
    }
    if k == p {
      ModShift(t - s, p);
      assert w[s..t + p + 1 - 1] == y;
    } else {
      assert w[s..t + (k + 1) - 1] == y;
    }
  }

  lemma ModShift(d: int, p: int)
    requires p >= 1 && d >= 0
    ensures (d + p) % p == d % p
  {
    ModDifference(d + p, p);
  }

  /** The remainder of d by p, and how it sits below d. */
  lemma Remainder(d: int, p: int)
    requires p >= 1 && d >= 0
    ensures 0 <= d % p <= d && (d - d % p) % p == 0
    ensures d >= p ==> d - d % p >= p && (d - d % p - p) % p == 0
    ensures d < p ==> d % p == d
  {
    if d < p {
      ModUnique(0, p, d);
      ModUnique(0, p, 0);
    } else {
      ModDifference(d, p);
      StepDown(d - d % p, p);
    }
  }

  /**
    A word x with dominant period p, followed by a letter c below the one that continues the period.
    First case: the suffix at a whole number of periods loses at that letter.
  */
  lemma CopyLoses(x: Word, reverse: bool, p: int, c: Byte, d: int)
    requires 1 <= p <= |x| && HasPeriod(x, p) && Above(reverse, x[|x| - p], c)
    requires 0 < d <= |x| && d % p == 0
    ensures Beaten(x + [c], reverse, |x| + 1, d)
  {
    var y, last := x + [c], |x| - d;
    StepDown(d, p);
    forall m | 0 <= m < last ensures Same(y, d, 0, m) { PeriodJump(x, p, m, d + m); }
    PeriodJump(x, p, last, |x| - p);
    assert Loses(y, reverse, |x| + 1, d, last);
  }

  /** Second case: the suffix inside a copy loses where it loses inside the first copy, or earlier at c. */
  lemma InnerLoses(x: Word, reverse: bool, p: int, c: Byte, d: int)
    requires HasPeriod(x, p) && Dominant(x, reverse, p) && Above(reverse, x[|x| - p], c)
    requires 0 < d <= |x| && d % p > 0
    ensures Beaten(x + [c], reverse, |x| + 1, d)
  {
    var y, last, b := x + [c], |x| - d, d % p;
    Remainder(d, p);
    assert Beaten(x, reverse, p, b);
    var j :| Loses(x, reverse, p, b, j);
    var e := if j < last then j else last;
    forall m | 0 <= m < e ensures Same(y, d, 0, m) {
      PeriodJump(x, p, b + m, d + m);
      assert Same(x, b, 0, m);
    }
    if j < last {
      PeriodJump(x, p, b + j, d + j);
    } else {
      assert last < j ==> Same(x, b, 0, last);
      PeriodJump(x, p, b + last, |x| - p);
    }
    assert Loses(y, reverse, |x| + 1, d, e);
  }

  /** Branch "the new letter is below the expected one": the whole compared part becomes one dominant period. */
  lemma DescendStep(w: Word, reverse: bool, s: int, t: int, k: int, p: int)
    requires Duel(w, reverse, s, t, k, p) && t + k - 1 < |w|
    requires Above(reverse, w[s + k - 1], w[t + k - 1])
    ensures Duel(w, reverse, s, t + k, 1, t + k - s)
  {
    ExpectedLetter(w, reverse, s, t, k, p);
    var x, c, q := w[s..t + k - 1], w[t + k - 1], t + k - s;
    assert w[s..t + k + 1 - 1] == x + [c];
    forall d | 0 < d < q ensures Beaten(x + [c], reverse, q, d) {
      if d % p == 0 { CopyLoses(x, reverse, p, c, d); } else { InnerLoses(x, reverse, p, c, d); }
    }
    ModUnique(1, q, 0);
  }

  /** A letter of an earlier copy, and of the copy at t, as the letter of the first copy it repeats. */
  lemma AscendLetters(w: Word, reverse: bool, s: int, t: int, k: int, p: int, i: int, m: int)
    requires Duel(w, reverse, s, t, k, p) && s <= i < t
    requires 0 <= m && (i - s) % p + m < p
    ensures i + m < t && w[i + m] == w[s + (i - s) % p + m]
    ensures m < k - 1 ==> w[t + m] == w[s + m]
  {
    var x, d := w[s..t + k - 1], i - s;
    Remainder(d, p);
    RoomBeforeCopy(d, t - s, p);
    AscendLetter(x, p, d, d % p, t - s, m);
  }

  /** The suffix at an earlier copy has lost to the suffix at t. */
  lemma AscendBeatsCopy(w: Word, reverse: bool, s: int, t: int, k: int, p: int, i: int)
    requires Duel(w, reverse, s, t, k, p) && t + k - 1 < |w|
    requires Above(reverse, w[t + k - 1], w[s + k - 1])
    requires s <= i < t && (i - s) % p == 0
    ensures Below(w, reverse, i, t)
  {
    forall m | 0 <= m < k - 1 ensures Same(w, i, t, m) { AscendLetters(w, reverse, s, t, k, p, i, m); }
    AscendLetters(w, reverse, s, t, k, p, i, k - 1);
    assert FallsBelow(w, reverse, i, t, k - 1);
  }

  /** So has every suffix starting inside an earlier copy. */
  lemma AscendBeatsInner(w: Word, reverse: bool, s: int, t: int, k: int, p: int, i: int)
    requires Duel(w, reverse, s, t, k, p) && t + k - 1 < |w|
    requires Above(reverse, w[t + k - 1], w[s + k - 1])
    requires s <= i < t && (i - s) % p > 0
    ensures Below(w, reverse, i, t)
  {
    var x, b := w[s..t + k - 1], (i - s) % p;
    assert Beaten(x, reverse, p, b);
    var j :| Loses(x, reverse, p, b, j);
    var e := if j < k - 1 then j else k - 1;
    forall m | 0 <= m < e ensures Same(w, i, t, m) {
      AscendLetters(w, reverse, s, t, k, p, i, m);
      assert Same(x, b, 0, m);
    }
    AscendLetters(w, reverse, s, t, k, p, i, e);
    assert k - 1 < j ==> Same(x, b, 0, k - 1);
    assert FallsBelow(w, reverse, i, t, e);
  }

  /** A whole copy of the period fits between the start of d's copy and a later copy. */
  lemma RoomBeforeCopy(d: int, t: int, p: int)
    requires p >= 1 && 0 <= d < t && t % p == 0
    ensures d - d % p + p <= t
  {
    Remainder(d, p);
    var a, b := (d - d % p) / p, t / p;
    assert (b - a) * p == t - (d - d % p);
    ModOfMultiple(b - a, p);
    StepDown(t - (d - d % p), p);
  }

  lemma AscendLetter(x: Word, p: int, d: int, b: int, t: int, m: int)
    requires HasPeriod(x, p) && 0 <= b <= d && (d - b) % p == 0 && d - b + p <= t <= |x| && t % p == 0
    requires 0 <= m && b + m < p
    ensures x[d + m] == x[b + m]
    ensures t + m < |x| ==> x[t + m] == x[m]
  {
    PeriodJump(x, p, b + m, d + m);
    if t + m < |x| { PeriodJump(x, p, m, t + m); }
  }

  /** Branch "the new letter is above the expected one": the last copy beats everything before it. */
  lemma AscendStep(w: Word, reverse: bool, s: int, t: int, k: int, p: int)
    requires Duel(w, reverse, s, t, k, p) && t + k - 1 < |w|
    requires Above(reverse, w[t + k - 1], w[s + k - 1])
    ensures Duel(w, reverse, t, t + 1, 1, 1)
  {
    ModUnique(0, p, 0);
    AscendBeatsCopy(w, reverse, s, t, k, p, s);
    forall i | 0 <= i < t ensures Below(w, reverse, i, t) {
      if i < s {
        BelowTransitive(w, reverse, i, s, t);
      } else if (i - s) % p == 0 {
        AscendBeatsCopy(w, reverse, s, t, k, p, i);
      } else {
        AscendBeatsInner(w, reverse, s, t, k, p, i);
      }
    }
  }

  /** When the letters run out, s is the maximal suffix and p its smallest period. */
  lemma DuelEnds(w: Word, reverse: bool, s: int, t: int, k: int, p: int)
    requires Duel(w, reverse, s, t, k, p) && t + k - 1 == |w|
    ensures MaximalSuffix(w, reverse, s) && SmallestPeriod(w[s..], p) && p <= |w| - s
  {
    var x := w[s..];
    assert x == w[s..t + k - 1];
    forall i | 0 <= i < |w| && i != s ensures Below(w, reverse, i, s) {
      if i > s { SuffixEnds(w, reverse, s, p, i); }
    }
    forall r | 1 <= r < p ensures !HasPeriod(x, r) {
      assert Beaten(x, reverse, p, r);
      var j :| Loses(x, reverse, p, r, j);
      assert !Repeats(x, r, j);
    }
  }

  lemma SuffixEnds(w: Word, reverse: bool, s: int, p: int, i: int)
    requires 0 <= s < i < |w| && HasPeriod(w[s..], p) && Dominant(w[s..], reverse, p)
    ensures Below(w, reverse, i, s)
  {
    var x, d := w[s..], i - s;
    var b, rest := d % p, |x| - d;
    Remainder(d, p);
    var j := rest;
    if b > 0 {
      assert Beaten(x, reverse, p, b);
      j :| Loses(x, reverse, p, b, j);
    }
    var e := if j < rest then j else rest;
    forall m | 0 <= m < e ensures Same(w, i, s, m) {
      PeriodJump(x, p, b + m, d + m);
      assert b > 0 ==> Same(x, b, 0, m);
    }
    if j < rest { PeriodJump(x, p, b + j, d + j); }
    assert FallsBelow(w, reverse, i, s, e);
  }
}
