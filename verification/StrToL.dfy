/**
  strtol of strtol.c with 32-bit longs, specified by section 7.20.1.4 of ISO C99: the exact value of
  the longest run of digits, brought into the range of a long.
*/
module StrToL {
  import opened TreeIndex
  import opened Offsets

  const LONG_MAX: int := 0x7fff_ffff
  const LONG_MIN: int := -0x8000_0000

  datatype Errno = Unchanged | EINVAL | ERANGE

  /** What strtol returns, where it leaves endptr, and errno. */
  datatype Conversion = Conversion(value: int, end: nat, errno: Errno)

  /** A string in memory up to and with its terminating NUL. */
  predicate Terminated(s: seq<char>) { |s| > 0 && s[|s| - 1] == '\0' }

  predicate IsSpace(c: char) { c == ' ' || c == '\U{0c}' || c == '\n' || c == '\r' || c == '\t' || c == '\U{0b}' }

  const NOT_A_DIGIT: nat := 36

  function DigitOf(c: char): (d: nat)
    ensures d <= NOT_A_DIGIT
  {
    if '0' <= c <= '9' then (c as int) - ('0' as int)
    else if 'A' <= c <= 'Z' then (c as int) - ('A' as int) + 10
    else if 'a' <= c <= 'z' then (c as int) - ('a' as int) + 10
    else NOT_A_DIGIT
  }

  predicate IsDigit(c: char, base: int) { DigitOf(c) < NOT_A_DIGIT && DigitOf(c) < base }

  /** The first position from i on that holds no white space. */
  function SpacesEnd(s: seq<char>, i: nat): (j: nat)
    requires Terminated(s) && i < |s|
    ensures i <= j < |s| && !IsSpace(s[j])
    decreases |s| - i
  {
    if IsSpace(s[i]) then SpacesEnd(s, i + 1) else i
  }

  /** The first position from i on that holds no digit of the base. */
  function RunEnd(s: seq<char>, i: nat, base: int): (j: nat)
    requires Terminated(s) && i < |s|
    ensures i <= j < |s| && !IsDigit(s[j], base) && forall k :: i <= k < j ==> IsDigit(s[k], base)
    decreases |s| - i
  {
    if IsDigit(s[i], base) then RunEnd(s, i + 1, base) else i
  }

  /** The sign, where the digits start, and the base to read them in. */
  datatype Subject = Subject(neg: bool, start: nat, base: int)

  predicate HexPrefix(s: seq<char>, i: nat)
  {
    i + 2 < |s| && s[i] == '0' && (s[i + 1] == 'x' || s[i + 1] == 'X') && IsDigit(s[i + 2], 16)
  }

  function SubjectOf(s: seq<char>, base: int): (r: Subject)
    requires Terminated(s)
    ensures r.start < |s|
  {
    var i := SpacesEnd(s, 0);
    var neg := s[i] == '-';
    var j := if s[i] == '-' || s[i] == '+' then i + 1 else i;
    if (base == 0 || base == 16) && HexPrefix(s, j) then Subject(neg, j + 2, 16)
    else Subject(neg, j, if base == 0 then if s[j] == '0' then 8 else 10 else base)
  }

  /** The number that a sequence of digits stands for. */
  function Value(digits: seq<char>, base: nat): nat
  {
    if digits == [] then 0 else Value(digits[..|digits| - 1], base) * base + DigitOf(digits[|digits| - 1])
  }

  function Clamp(v: int): int { if v < LONG_MIN then LONG_MIN else if v > LONG_MAX then LONG_MAX else v }

  /** The value of the digits with its sign, kept in range; ERANGE when it is not in range, EINVAL when there are no digits. */
  function Converted(s: seq<char>, base: int): Conversion
    requires Terminated(s)
  {
    var subj := SubjectOf(s, base);
    if subj.base < 2 || subj.base > 36 then Conversion(0, 0, EINVAL)
    else
      var end := RunEnd(s, subj.start, subj.base);
      if end == subj.start then Conversion(0, 0, EINVAL)
      else
        var v := Value(s[subj.start..end], subj.base);
        var signed: int := if subj.neg then -(v as int) else v;
        Conversion(Clamp(signed), end, if signed == Clamp(signed) then Unchanged else ERANGE)
  }

  // ----- the cutoff

  /** The comparison with the cutoff decides whether one more digit goes past the limit. */
  lemma CutoffDecides(acc: nat, d: nat, base: nat, limit: nat)
    requires 0 < base && d < base
    ensures acc > Quot(limit, base) || (acc == Quot(limit, base) && d > Rem(limit, base)) <==> acc * base + d > limit
  {
    var q, r := Quot(limit, base), Rem(limit, base);
    Divided(limit, base);
    OffsetIsProduct(q, base);
    hide Quot, Rem, Offset;
    if acc > q { assert acc * base >= (q + 1) * base; }
    if acc < q { assert (acc + 1) * base <= q * base; }
  }

  lemma PastStaysPast(v: nat, d: nat, base: nat, limit: nat)
    requires v > limit && base >= 1
    ensures v * base + d > limit
  {
    assert v * base >= v;
  }

  lemma ValueStep(s: seq<char>, i: nat, j: nat, base: nat)
    requires i <= j < |s|
    ensures Value(s[i..j + 1], base) == Value(s[i..j], base) * base + DigitOf(s[j])
  {
    assert s[i..j + 1][..j - i] == s[i..j];
  }

  // ----- the function

  /** The front of strtol_l: white space, the sign, the prefix and the base. */
  method ReadFront(s: seq<char>, base: int) returns (subj: Subject)
    requires Terminated(s)
    ensures subj == SubjectOf(s, base)
  {
    var i := 0;
    while IsSpace(s[i])
      invariant 0 <= i < |s| && SpacesEnd(s, i) == SpacesEnd(s, 0)
      decreases |s| - i
    {
      i := i + 1;
    }
    var neg := false;
    var b := base;
    if s[i] == '-' {
      neg := true;
      i := i + 1;
    } else if s[i] == '+' {
      i := i + 1;
    }
    if (b == 0 || b == 16) && s[i] == '0' && (s[i + 1] == 'x' || s[i + 1] == 'X') &&
       (('0' <= s[i + 2] <= '9') || ('A' <= s[i + 2] <= 'F') || ('a' <= s[i + 2] <= 'f')) {
      i := i + 2;
      b := 16;
    }
    if b == 0 { b := if s[i] == '0' then 8 else 10; }
    return Subject(neg, i, b);
  }

  /** What the accumulator holds after some digits: their value, or that it went past the limit. */
  predicate Accumulated(digits: seq<char>, base: nat, limit: nat, any: int, acc: nat)
  {
    (any == 0 <==> digits == []) && if any < 0 then Value(digits, base) > limit else acc == Value(digits, base) <= limit
  }

  /** acc *= base, acc += c, in 32 bits */
  function Accumulate(acc: nat, base: nat, c: nat): nat { (acc * base % WORD + c) % WORD }

  lemma NoWrap(acc: nat, base: nat, c: nat)
    requires acc * base + c < WORD
    ensures Accumulate(acc, base, c) == acc * base + c
  {}

  lemma NothingAccumulated(base: nat, limit: nat)
    ensures Accumulated([], base, limit, 0, 0)
  {}

  /** One more digit; taking it never wraps. */
  lemma DigitTaken(s: seq<char>, start: nat, i: nat, base: nat, limit: nat, any: int, acc: nat)
    requires start <= i < |s| && IsDigit(s[i], base) && base > 0 && limit < WORD &&
             Accumulated(s[start..i], base, limit, any, acc)
    ensures var c := DigitOf(s[i]);
            if any < 0 || acc > Quot(limit, base) || (acc == Quot(limit, base) && c > Rem(limit, base))
            then Accumulated(s[start..i + 1], base, limit, -1, acc)
            else Accumulate(acc, base, c) == acc * base + c && Accumulated(s[start..i + 1], base, limit, 1, acc * base + c)
  {
    var c := DigitOf(s[i]);
    hide Value, DigitOf, Quot, Rem, Accumulate;
    ValueStep(s, start, i, base);
    if any < 0 {
      PastStaysPast(Value(s[start..i], base), c, base, limit);
    } else {
      CutoffDecides(acc, c, base, limit);
      if acc * base + c <= limit { NoWrap(acc, base, c); }
    }
  }

  lemma RunEndStep(s: seq<char>, i: nat, base: int)
    requires Terminated(s) && i < |s|
    ensures if IsDigit(s[i], base) then i + 1 < |s| && RunEnd(s, i, base) == RunEnd(s, i + 1, base) else RunEnd(s, i, base) == i
  {}

  /** The digit loop of strtol_l. */
  method ReadDigits(s: seq<char>, start: nat, base: nat, limit: nat) returns (any: int, acc: nat, end: nat)
    requires Terminated(s) && start < |s| && 2 <= base <= 36 && limit < WORD
    ensures end == RunEnd(s, start, base) && Accumulated(s[start..end], base, limit, any, acc)
  {
    hide DigitOf, Value, Accumulated, Accumulate, RunEnd, Quot, Rem;
    var cutlim, cutoff := Rem(limit, base), Quot(limit, base);
    any, acc, end := 0, 0, start;
    NothingAccumulated(base, limit);
    assert s[start..start] == [];
    while true
      invariant start <= end < |s| && RunEnd(s, start, base) == RunEnd(s, end, base)
      invariant Accumulated(s[start..end], base, limit, any, acc)
      decreases |s| - end
    {
      var c := DigitOf(s[end]);
      RunEndStep(s, end, base);
      if c == NOT_A_DIGIT { break; }
      if c >= base { break; }
      DigitTaken(s, start, end, base, limit, any, acc);
      if any < 0 || acc > cutoff || (acc == cutoff && c > cutlim) {
        any := -1;
      } else {
        any := 1;
        acc := Accumulate(acc, base, c);
      }
      end := end + 1;
    }
  }

  /** strtol_l: the outcome is the saturated value of the digits. */
  method StrToLong(s: seq<char>, base: int) returns (r: Conversion)
    requires Terminated(s)
    ensures r == Converted(s, base)
  {
    var subj := ReadFront(s, base);
    var neg, b := subj.neg, subj.base;
    if b < 2 || b > 36 { return Conversion(0, 0, EINVAL); }
    var any, acc, end := ReadDigits(s, subj.start, b, if neg then LONG_MAX + 1 else LONG_MAX);
    hide RunEnd, SubjectOf, Value;
    if any < 0 {
      return Conversion(if neg then LONG_MIN else LONG_MAX, end, ERANGE);
    } else if any == 0 {
      return Conversion(0, 0, EINVAL);
    } else if neg {
      acc := (WORD - acc) % WORD;
    }
    return Conversion(AsLong(acc), end, Unchanged);
  }

  /** The conversion of an unsigned long to a long. */
  function AsLong(w: nat): int { if w > LONG_MAX then w - WORD else w }
}
