/** ksprintn of printf.c, which prints a number backwards into a small buffer, and strtol as its inverse. */
module KSprintN {
  import opened TreeIndex
  import opened StrToL

  /** A 32-bit number in base 2, plus the NUL. */
  const MAXNBUF: nat := 33

  const HEX2ASCII: seq<char> := "0123456789abcdefghijklmnopqrstuvwxyz"

  function ToUpper(c: char): char { if 'a' <= c <= 'z' then (c as int - 0x20) as char else c }

  function DigitChar(d: nat, upper: bool): char
    requires d < 36
  {
    if upper then ToUpper(HEX2ASCII[d]) else HEX2ASCII[d]
  }

  function Quotient(num: nat, base: nat): (q: nat)
    requires base >= 2
    ensures (q < num || num == 0) && (q == 0 <==> num < base) && q <= num / 2
  {
    HalfIsMore(num, base);
    num / base
  }

  function LastDigit(num: nat, base: nat): (r: nat)
    requires base >= 2
    ensures r < base && (num < base ==> r == num)
  {
    num % base
  }

  lemma HalfIsMore(num: nat, base: nat)
    requires base >= 2
    ensures num / base <= num / 2
  {
    var q := num / base;
    assert q * base <= num;
    assert q * 2 <= q * base;
  }

  lemma QuotientAndRest(num: nat, base: nat)
    requires base >= 2
    ensures num == Quotient(num, base) * base + LastDigit(num, base)
  {}

  /** The digits of num, the most significant first. */
  function Digits(num: nat, base: nat, upper: bool): (s: seq<char>)
    requires 2 <= base <= 36
    ensures |s| > 0
    decreases num
  {
    (if Quotient(num, base) == 0 then [] else Digits(Quotient(num, base), base, upper)) +
    [DigitChar(LastDigit(num, base), upper)]
  }

  /** What a reader sees that starts at a[p] and goes down to the NUL at a[0]. */
  function Printed(a: seq<char>, p: nat): (s: seq<char>)
    requires p < |a|
    ensures |s| == p && forall k :: 0 <= k < p ==> s[k] == a[p - k]
  {
    if p == 0 then [] else [a[p]] + Printed(a, p - 1)
  }

  /** A number of k bits has at most k digits in any base, and at least one. */
  lemma {:induction false} DigitsShort(num: nat, base: nat, upper: bool, k: nat)
    requires 2 <= base <= 36 && num < Pow2(k)
    ensures |Digits(num, base, upper)| <= if k == 0 then 1 else k
    decreases k
  {
    hide Quotient, LastDigit, DigitChar;
    if Quotient(num, base) > 0 { DigitsShort(Quotient(num, base), base, upper, k - 1); }
  }

  /** One round of the loop moves the last digit of n into the buffer. */
  lemma DigitWritten(num: nat, n: nat, base: nat, upper: bool, was: seq<char>, now: seq<char>, p: nat)
    requires 2 <= base <= 36 && 0 < p < |was| && now == was[p := DigitChar(LastDigit(n, base), upper)]
    requires Digits(num, base, upper) == Digits(n, base, upper) + Printed(was, p - 1)
    ensures var q := Quotient(n, base);
            Digits(num, base, upper) == (if q == 0 then [] else Digits(q, base, upper)) + Printed(now, p)
  {
    hide Quotient, LastDigit, DigitChar;
    PrintedMore(was, now, p);
    var q := Quotient(n, base);
    var rest := if q == 0 then [] else Digits(q, base, upper);
    var c := DigitChar(LastDigit(n, base), upper);
    assert Digits(n, base, upper) == rest + [c];
    assert rest + [c] + Printed(was, p - 1) == rest + ([c] + Printed(was, p - 1));
  }

  /** ksprintn: the number is in nbuf backwards, and the result is the position of its first digit and its length. */
  method KSprintN(nbuf: array<char>, num: nat, base: nat, upper: bool) returns (p: nat)
    requires nbuf.Length >= MAXNBUF && num < WORD && 2 <= base <= 36
    modifies nbuf
    ensures 0 < p < MAXNBUF && nbuf[0] == '\0' && Printed(nbuf[..], p) == Digits(num, base, upper)
    ensures forall k :: p < k < nbuf.Length ==> nbuf[k] == old(nbuf[k])
  {
    Pow2Values();
    DigitsShort(num, base, upper, 32);
    hide Pow2, DigitChar, Quotient, LastDigit, Digits, Printed;
    p := 0;
    nbuf[0] := '\0';
    var n: nat := num;
    while true
      invariant 0 <= p < MAXNBUF && nbuf[0] == '\0'
      invariant Digits(num, base, upper) == Digits(n, base, upper) + Printed(nbuf[..], p)
      invariant forall k :: p < k < nbuf.Length ==> nbuf[k] == old(nbuf[k])
      decreases n
    {
      ghost var was := nbuf[..];
      var c := DigitChar(LastDigit(n, base), upper);
      p := p + 1;
      nbuf[p] := c;
      assert nbuf[..] == was[p := c];
      DigitWritten(num, n, base, upper, was, nbuf[..], p);
      n := Quotient(n, base);
      if n == 0 { break; }
    }
  }

  lemma {:induction false} PrintedSame(a: seq<char>, b: seq<char>, p: nat)
    requires p < |a| == |b| && forall k :: 0 <= k <= p ==> a[k] == b[k]
    ensures Printed(a, p) == Printed(b, p)
  {
    if p > 0 { PrintedSame(a, b, p - 1); }
  }

  lemma PrintedMore(a: seq<char>, b: seq<char>, p: nat)
    requires 0 < p < |a| == |b| && b == a[p := b[p]]
    ensures Printed(b, p) == [b[p]] + Printed(a, p - 1)
  {
    PrintedSame(a, b, p - 1);
  }

  // ----- strtol reads it back

  lemma HexDigit(d: nat)
    requires d < 36
    ensures HEX2ASCII[d] as int == if d < 10 then d + 48 else d + 87
  {}

  lemma DigitBack(d: nat, upper: bool)
    requires d < 36
    ensures DigitOf(DigitChar(d, upper)) == d && !IsSpace(DigitChar(d, upper)) &&
            DigitChar(d, upper) !in {'-', '+', '\0'}
    ensures DigitChar(d, upper) == '0' <==> d == 0
  {
    HexDigit(d);
    hide HEX2ASCII;
  }

  lemma ValueOfMore(s: seq<char>, c: char, base: nat)
    ensures Value(s + [c], base) == Value(s, base) * base + DigitOf(c)
  {
    assert (s + [c])[..|s|] == s;
  }

  /** s is how num is written: it reads back as num, and it does not look like white space, a sign or a prefix. */
  predicate Writes(s: seq<char>, num: nat, base: nat)
  {
    |s| > 0 && Value(s, base) == num && (forall k :: 0 <= k < |s| ==> IsDigit(s[k], base)) &&
    !IsSpace(s[0]) && s[0] !in {'-', '+'} && (s[0] == '0' ==> num == 0 && |s| == 1)
  }

  lemma OneMoreDigit(rest: seq<char>, q: nat, r: nat, base: nat, upper: bool)
    requires 2 <= base <= 36 && r < base && (if q == 0 then rest == [] else Writes(rest, q, base))
    ensures Writes(rest + [DigitChar(r, upper)], q * base + r, base)
  {
    DigitBack(r, upper);
    ValueOfMore(rest, DigitChar(r, upper), base);
    assert Value([], base) == 0;
    assert q > 0 ==> q * base > 0;
    hide Value, DigitChar, DigitOf, IsSpace;
  }

  lemma {:induction false} DigitsBack(num: nat, base: nat, upper: bool)
    requires 2 <= base <= 36
    ensures Writes(Digits(num, base, upper), num, base)
    decreases num
  {
    var q, r := Quotient(num, base), LastDigit(num, base);
    QuotientAndRest(num, base);
    hide Writes, Quotient, LastDigit, DigitChar;
    if q > 0 { DigitsBack(q, base, upper); }
    OneMoreDigit(if q == 0 then [] else Digits(q, base, upper), q, r, base, upper);
  }

  // ----- what the digits are

  /** num divided i times by the base. */
  function Divided(num: nat, base: nat, i: nat): nat
    requires base >= 2
    decreases i
  {
    if i == 0 then num else Divided(num / base, base, i - 1)
  }

  lemma {:induction false} DigitsAre(num: nat, base: nat, upper: bool, i: nat)
    requires 2 <= base <= 36
    ensures var s := Digits(num, base, upper);
            (i < |s| ==> s[|s| - 1 - i] == DigitChar(Divided(num, base, i) % base, upper)) &&
            (0 < i < |s| ==> Divided(num, base, i) > 0) && (i == |s| ==> Divided(num, base, i) == 0)
    decreases num
  {
    var q := num / base;
    assert q == Quotient(num, base) && LastDigit(num, base) == num % base;
    hide DigitChar, Quotient, LastDigit;
    if i > 0 && q > 0 {
      DigitsAre(q, base, upper, i - 1);
      var t := Digits(q, base, upper);
      assert Digits(num, base, upper) == t + [DigitChar(num % base, upper)];
    }
  }

  /** Digit i from the right is the remainder of i divisions, spelled by the table, and no digit is superfluous. */
  lemma DigitsSpelled(num: nat, base: nat, upper: bool, i: nat)
    requires 2 <= base <= 36
    ensures var s, d := Digits(num, base, upper), Divided(num, base, i);
            (i < |s| ==>
               s[|s| - 1 - i] == (if upper then "0123456789ABCDEFGHIJKLMNOPQRSTUVWXYZ"
                                  else "0123456789abcdefghijklmnopqrstuvwxyz")[d % base]) &&
            (0 < i < |s| ==> d > 0) && (i == |s| ==> d == 0)
  {
    DigitsAre(num, base, upper, i);
    TableChar(Divided(num, base, i) % base, upper);
    hide *;
  }

  lemma TableChar(d: nat, upper: bool)
    requires d < 36
    ensures DigitChar(d, upper) ==
            (if upper then "0123456789ABCDEFGHIJKLMNOPQRSTUVWXYZ" else "0123456789abcdefghijklmnopqrstuvwxyz")[d]
  {
    HexDigit(d);
    if upper {
      var table := "0123456789ABCDEFGHIJKLMNOPQRSTUVWXYZ";
      assert table[d] as int == if d < 10 then d + 48 else d + 55;
    }
  }

  // ----- strings with a number in them

  predicate White(s: seq<char>)
  {
    forall k :: 0 <= k < |s| ==> s[k] in {' ', '\t', '\n', '\r', '\U{0b}', '\U{0c}'}
  }

  predicate IsSign(s: seq<char>) { s == "" || s == "+" || s == "-" }

  /** The base asked for is that of the digits, or 0 or 16 with the prefix that selects it. */
  predicate Selects(asked: int, prefix: seq<char>, base: nat, num: nat)
  {
    (asked == base && prefix == "") || (asked in {0, 16} && base == 16 && prefix in {"0x", "0X"}) ||
    (asked == 0 && base == 10 && prefix == "" && num > 0) || (asked == 0 && base == 8 && prefix == "0")
  }

  lemma {:induction false} SpacesSkipped(s: seq<char>, i: nat, n: nat)
    requires Terminated(s) && i <= n < |s| && White(s[..n]) && !IsSpace(s[n])
    ensures SpacesEnd(s, i) == n
    decreases n - i
  {
    if i < n {
      assert s[..n][i] == s[i];
      SpacesSkipped(s, i + 1, n);
    }
  }

  lemma {:induction false} DigitsPassed(s: seq<char>, i: nat, n: nat, base: int)
    requires Terminated(s) && i <= n < |s| && (forall k :: i <= k < n ==> IsDigit(s[k], base)) && !IsDigit(s[n], base)
    ensures RunEnd(s, i, base) == n
    decreases n - i
  {
    if i < n { DigitsPassed(s, i + 1, n, base); }
  }

  lemma {:induction false} LeadingZero(s: seq<char>, base: nat)
    ensures Value(['0'] + s, base) == Value(s, base)
    decreases |s|
  {
    if s == [] {
      assert (['0'] + s)[..0] == [] && Value([], base) == 0;
    } else {
      LeadingZero(s[..|s| - 1], base);
      assert (['0'] + s)[..|s|] == ['0'] + s[..|s| - 1];
    }
  }

  /** The front of a string, when the white space ends at w and the sign, if any, at j. */
  lemma SubjectAt(s: seq<char>, w: nat, j: nat, neg: bool, asked: int)
    requires Terminated(s) && w <= j < |s| && White(s[..w]) && !IsSpace(s[w])
    requires if s[w] in {'-', '+'} then j == w + 1 && neg == (s[w] == '-') else j == w && !neg
    ensures SubjectOf(s, asked) ==
            if (asked == 0 || asked == 16) && HexPrefix(s, j) then Subject(neg, j + 2, 16)
            else Subject(neg, j, if asked == 0 then if s[j] == '0' then 8 else 10 else asked)
  {
    SpacesSkipped(s, 0, w);
    hide HexPrefix, White;
  }

  /** The prefix selects the base. */
  lemma PrefixRead(s: seq<char>, j: nat, prefix: seq<char>, digits: seq<char>, rest: seq<char>, asked: int, base: nat,
                   num: nat)
    requires j <= |s| && s[j..] == prefix + digits + rest && Selects(asked, prefix, base, num)
    requires 2 <= base <= 36 && Writes(digits, num, base) && rest != [] && rest[0] !in {'x', 'X'}
    ensures j < |s| && !IsSpace(s[j]) && s[j] !in {'-', '+'}
    ensures (asked == 0 || asked == 16) && HexPrefix(s, j) <==> |prefix| == 2
    ensures |prefix| == 2 ==> base == 16
    ensures |prefix| != 2 ==> base == if asked == 0 then if s[j] == '0' then 8 else 10 else asked
  {
    hide Value;
    var t := prefix + digits + rest;
    assert IsDigit(digits[0], base);
    assert s[j] == t[0] && (|t| > 1 ==> j + 1 < |s| && s[j + 1] == t[1]);
    assert |t| > 2 ==> j + 2 < |s| && s[j + 2] == t[2];
    if prefix == "" {
      assert t == digits + rest;
    } else if prefix == "0" {
      assert t[1] == digits[0];
    } else {
      assert t[2] == digits[0];
    }
  }

  /** The front is read for what it is. */
  lemma FrontRead(white: seq<char>, sign: seq<char>, prefix: seq<char>, digits: seq<char>, rest: seq<char>, asked: int,
                  base: nat, num: nat)
    requires White(white) && IsSign(sign) && Selects(asked, prefix, base, num) && 2 <= base <= 36
    requires Writes(digits, num, base) && Terminated(rest) && rest[0] !in {'x', 'X'}
    ensures |prefix| <= 2 && (|prefix| == 1 ==> prefix == "0" && base == 8)
    ensures var s, j := white + sign + prefix + digits + rest, |white| + |sign|;
            Terminated(s) && SubjectOf(s, asked) == Subject(sign == "-", j + (if |prefix| == 2 then 2 else 0), base)
  {
    Regrouped(white + sign, prefix, digits, rest);
    var t := prefix + digits + rest;
    var s, w, j := white + sign + t, |white|, |white| + |sign|;
    assert t[|t| - 1] == rest[|rest| - 1] && s[|s| - 1] == t[|t| - 1];
    assert s[..w] == white && s[j..] == t && s[w] == (sign + t)[0];
    PrefixRead(s, j, prefix, digits, rest, asked, base, num);
    hide Selects, HexPrefix, Writes, White;
    SubjectAt(s, w, j, sign == "-", asked);
    hide SubjectOf;
  }

  /** The digits are read up to what comes behind. */
  lemma DigitsRead(front: seq<char>, digits: seq<char>, rest: seq<char>, base: nat, num: nat)
    requires Value(digits, base) == num && forall k :: 0 <= k < |digits| ==> IsDigit(digits[k], base)
    requires Terminated(rest) && !IsDigit(rest[0], base)
    ensures var s := front + digits + rest;
            Terminated(s) && RunEnd(s, |front|, base) == |front| + |digits| &&
            s[|front|..|front| + |digits|] == digits && Value(digits, base) == num
  {
    var s := front + digits + rest;
    hide Value, IsDigit;
    assert s[|s| - 1] == rest[|rest| - 1] && s[|front| + |digits|] == rest[0];
    forall k | |front| <= k < |front| + |digits| ensures IsDigit(s[k], base) { assert s[k] == digits[k - |front|]; }
    DigitsPassed(s, |front|, |front| + |digits|, base);
  }

  lemma DigitsBehind(front: seq<char>, prefix: seq<char>, digits: seq<char>, rest: seq<char>, base: nat, num: nat)
    requires Writes(digits, num, base) && Terminated(rest) && !IsDigit(rest[0], base) && |prefix| <= 2
    requires |prefix| == 1 ==> prefix == "0" && base == 8
    ensures var s, start := front + prefix + digits + rest, |front| + (if |prefix| == 2 then 2 else 0);
            Terminated(s) && RunEnd(s, start, base) == |s| - |rest| > start &&
            Value(s[start..|s| - |rest|], base) == num
  {
    hide Value, IsDigit, RunEnd;
    if |prefix| == 1 {
      ZeroBefore(digits, num);
      DigitsRead(front, ['0'] + digits, rest, 8, num);
      assert front + prefix + digits + rest == front + (['0'] + digits) + rest;
    } else {
      DigitsRead(front + prefix, digits, rest, base, num);
    }
  }

  lemma ZeroBefore(digits: seq<char>, num: nat)
    requires Writes(digits, num, 8)
    ensures Value(['0'] + digits, 8) == num && forall k :: 0 <= k <= |digits| ==> IsDigit((['0'] + digits)[k], 8)
  {
    LeadingZero(digits, 8);
    hide Value;
  }

  lemma Regrouped(a: seq<char>, b: seq<char>, c: seq<char>, d: seq<char>)
    ensures a + b + c + d == a + (b + c + d)
  {}

  /** Where the digits start and end, and what they are. */
  ghost predicate Found(s: seq<char>, asked: int, neg: bool, base: nat, start: nat, end: nat, num: nat)
  {
    Terminated(s) && SubjectOf(s, asked) == Subject(neg, start, base) && RunEnd(s, start, base) == end > start &&
    Value(s[start..end], base) == num
  }

  /** strtol gives v, or the end of the range of a long that v is past. */
  ghost predicate ReadAs(s: seq<char>, asked: int, v: int, end: nat)
  {
    Terminated(s) && Converted(s, asked) ==
    if v > 0x7fff_ffff then Conversion(0x7fff_ffff, end, ERANGE)
    else if v < -0x8000_0000 then Conversion(-0x8000_0000, end, ERANGE)
    else Conversion(v, end, Unchanged)
  }

  lemma FoundConverted(s: seq<char>, asked: int, neg: bool, base: nat, start: nat, end: nat, num: nat)
    requires Found(s, asked, neg, base, start, end, num) && 2 <= base <= 36
    ensures ReadAs(s, asked, if neg then -(num as int) else num, end)
  {
    hide SubjectOf, RunEnd, Value;
  }

  lemma AllRead(white: seq<char>, sign: seq<char>, prefix: seq<char>, digits: seq<char>, rest: seq<char>, asked: int,
                 base: nat, num: nat)
    requires White(white) && IsSign(sign) && Selects(asked, prefix, base, num) && 2 <= base <= 36
    requires Writes(digits, num, base) && Terminated(rest) && !IsDigit(rest[0], base) && rest[0] !in {'x', 'X'}
    ensures var s := white + sign + prefix + digits + rest;
            ReadAs(s, asked, if sign == "-" then -(num as int) else num, |s| - |rest|)
  {
    var s, start := white + sign + prefix + digits + rest, |white| + |sign| + (if |prefix| == 2 then 2 else 0);
    hide IsSign, Selects, SubjectOf, RunEnd, Value, Terminated, IsDigit, Writes, White;
    FrontRead(white, sign, prefix, digits, rest, asked, base, num);
    DigitsBehind(white + sign, prefix, digits, rest, base, num);
    hide ReadAs;
    FoundConverted(s, asked, sign == "-", base, start, |s| - |rest|, num);
  }

  /**
    strtol inverts ksprintn for every number, base, sign and case of letters, behind any white space, with the
    prefixes that it knows: what was printed is read, or the end of the range that it is past.
  */
  lemma StrToLongInverts(white: seq<char>, sign: seq<char>, prefix: seq<char>, num: nat, base: nat, upper: bool,
                         rest: seq<char>, asked: int)
    requires 2 <= base <= 36 && White(white) && IsSign(sign) && Selects(asked, prefix, base, num)
    requires Terminated(rest) && !IsDigit(rest[0], base) && rest[0] !in {'x', 'X'}
    ensures var s := white + sign + prefix + Digits(num, base, upper) + rest;
            ReadAs(s, asked, if sign == "-" then -(num as int) else num, |s| - |rest|)
  {
    var digits := Digits(num, base, upper);
    DigitsBack(num, base, upper);
    hide *;
    AllRead(white, sign, prefix, digits, rest, asked, base, num);
  }

  /** Anything else behind the white space is no number. */
  lemma NothingToRead(white: seq<char>, c: char, rest: seq<char>, asked: int)
    requires White(white) && c !in {'+', '-', ' ', '\t', '\n', '\r', '\U{0b}', '\U{0c}'}
    requires !('0' <= c <= '9') && !('A' <= c <= 'Z') && !('a' <= c <= 'z') && (rest != [] ==> Terminated(rest))
    requires rest == [] ==> c == '\0'
    ensures var s := white + [c] + rest; Terminated(s) && Converted(s, asked) == Conversion(0, 0, EINVAL)
  {
    var s := white + [c] + rest;
    assert s[..|white|] == white && s[|white|] == c && (rest != [] ==> s[|s| - 1] == rest[|rest| - 1]);
    assert !IsSpace(c) && DigitOf(c) == NOT_A_DIGIT;
    hide White, IsSpace, DigitOf;
    SubjectAt(s, |white|, |white|, false, asked);
    hide SubjectOf, Value;
  }
}
