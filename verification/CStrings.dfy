/** NUL-terminated strings, what it means to find one inside another, and the libc searches strstr.c calls. */
module CStrings {
  import opened Bytes
  import opened Words

  datatype Option<+T> = None | Some(value: T)

  predicate IsCString(s: seq<Byte>)
  {
    |s| > 0 && s[|s| - 1] == 0 && forall i :: 0 <= i < |s| - 1 ==> s[i] != 0
  }

  type CString = s: seq<Byte> | IsCString(s) witness [0]

  function Len(s: CString): nat { |s| - 1 }

  /** The bytes before the terminator. */
  function Body(s: CString): Word { s[..Len(s)] }

  predicate OccursAt(text: Word, needle: Word, i: int)
  {
    0 <= i && i + |needle| <= |text| && text[i..i + |needle|] == needle
  }

  /** r is the first place at or after `from` where the needle occurs, or None when there is no such place. */
  ghost predicate IsFirst(text: Word, needle: Word, from: int, r: Option<nat>)
  {
    match r
    case None => forall i :: from <= i ==> !OccursAt(text, needle, i)
    case Some(at) => from <= at && OccursAt(text, needle, at) && forall i :: from <= i < at ==> !OccursAt(text, needle, i)
  }

  /** The first occurrence of a non-NUL byte, as strchr finds it. */
  method StrChr(s: CString, c: Byte) returns (r: Option<nat>)
    requires c != 0
    ensures IsFirst(Body(s), [c], 0, r)
  {
    var i := 0;
    while s[i] != 0
      invariant i <= Len(s)
      invariant forall j :: 0 <= j < i ==> !OccursAt(Body(s), [c], j)
      decreases Len(s) - i
    {
      OneByteOccurs(Body(s), c, i);
      if s[i] == c { return Some(i); }
      i := i + 1;
    }
    return None;
  }

  lemma OneByteOccurs(text: Word, c: Byte, i: int)
    requires 0 <= i < |text|
    ensures OccursAt(text, [c], i) <==> text[i] == c
  {
    assert text[i..i + 1] == [text[i]];
  }

  /** memchr for the terminator: it is within the next n bytes exactly when the string ends there. */
  method FindEnd(s: CString, from: nat, n: nat) returns (r: Option<nat>)
    requires from <= Len(s)
    ensures r == if Len(s) < from + n then Some(Len(s)) else None
  {
    var i, left := from, n;
    while left > 0
      invariant from <= i <= |s| && i + left == from + n
      invariant left > 0 ==> i <= Len(s)
      invariant i > Len(s) ==> false
      decreases left
    {
      if s[i] == 0 { return Some(i); }
      i := i + 1;
      left := left - 1;
    }
    return None;
  }

  /** memcmp of two stretches of one string's body: zero exactly when they are equal. */
  method MemCmp(s: CString, a: nat, b: nat, n: nat) returns (v: int)
    requires a + n <= Len(s) && b + n <= Len(s)
    ensures v == 0 <==> Body(s)[a..a + n] == Body(s)[b..b + n]
  {
    ghost var w := Body(s);
    var i := 0;
    while i < n
      invariant i <= n && w[a..a + i] == w[b..b + i]
    {
      assert w[a..a + i + 1] == w[a..a + i] + [w[a + i]] && w[b..b + i + 1] == w[b..b + i] + [w[b + i]];
      v := s[a + i] as int - s[b + i] as int;
      if v != 0 {
        assert w[a..a + n][i] != w[b..b + n][i];
        return;
      }
      i := i + 1;
    }
    v := 0;
  }
}
