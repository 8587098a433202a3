/**
  strstr: dispatches on the needle's length to rolling-word searches for two, three and four bytes
  and to the two-way search for anything longer.
*/
module StrStr {
  import opened Bytes
  import opened Words
  import opened CStrings
  import opened TwoWay

  /** The uint16_t or uint32_t that a shift expression is stored in. */
  function Truncate16(x: nat): nat { x % 0x1_0000 }

  function Truncate32(x: nat): nat { x % 0x1_0000_0000 }

  /** Bytes shifted into place and or'ed together, the first one highest. */
  function Pack(s: Word): nat
  {
    if s == [] then 0 else Pack(s[..|s| - 1]) * 0x100 + s[|s| - 1]
  }

  /** The m bytes at index i as one word. */
  function PackAt(s: Word, i: nat, m: nat): nat
    requires i + m <= |s|
  {
    Pack(s[i..i + m])
  }

  lemma {:induction false} PackInjective(s: Word, t: Word)
    requires |s| == |t| && Pack(s) == Pack(t)
    ensures s == t
  {
    if s != [] {
      PackInjective(s[..|s| - 1], t[..|t| - 1]);
      assert s == s[..|s| - 1] + [s[|s| - 1]] && t == t[..|t| - 1] + [t[|t| - 1]];
    }
  }

  lemma PackLast(s: Word, c: Byte)
    ensures Pack(s + [c]) == Pack(s) * 0x100 + c
  {
    assert (s + [c])[..|s|] == s;
  }

  /** The m bytes at index i, m at most 4, by weight. */
  lemma PackBytes(s: Word, i: nat)
    ensures i + 1 <= |s| ==> PackAt(s, i, 1) == s[i]
    ensures i + 2 <= |s| ==> PackAt(s, i, 2) == 0x100 * (s[i] as int) + s[i + 1]
    ensures i + 3 <= |s| ==> PackAt(s, i, 3) == 0x1_0000 * (s[i] as int) + 0x100 * (s[i + 1] as int) + s[i + 2]
    ensures i + 4 <= |s| ==>
              PackAt(s, i, 4) == 0x100_0000 * (s[i] as int) + 0x1_0000 * (s[i + 1] as int) + 0x100 * (s[i + 2] as int) + s[i + 3]
  {
    if i + 1 <= |s| { PackAtLast(s, i, 1); assert s[i..i + 0] == []; }
    if i + 2 <= |s| { PackAtLast(s, i, 2); }
    if i + 3 <= |s| { PackAtLast(s, i, 3); }
    if i + 4 <= |s| { PackAtLast(s, i, 4); }
  }

  lemma PackAtLast(s: Word, i: nat, m: nat)
    requires 1 <= m && i + m <= |s|
    ensures PackAt(s, i, m) == PackAt(s, i, m - 1) * 0x100 + s[i + m - 1]
  {
    assert s[i..i + m] == s[i..i + m - 1] + [s[i + m - 1]];
    PackLast(s[i..i + m - 1], s[i + m - 1]);
  }

  /** hw = hw<<8 | *++h on a uint16_t. */
  lemma Slide2(s: Word, i: nat)
    requires i + 2 < |s|
    ensures Truncate16(PackAt(s, i, 2) * 0x100 + s[i + 2]) == PackAt(s, i + 1, 2)
  {
    PackBytes(s, i);
    PackBytes(s, i + 1);
  }

  /** hw = (hw|*++h)<<8 on a uint32_t whose low byte is empty. */
  lemma Slide3(s: Word, i: nat)
    requires i + 3 < |s|
    ensures Truncate32((PackAt(s, i, 3) * 0x100 + s[i + 3]) * 0x100) == PackAt(s, i + 1, 3) * 0x100
  {
    PackBytes(s, i);
    PackBytes(s, i + 1);
  }

  /** hw = hw<<8 | *++h on a uint32_t. */
  lemma Slide4(s: Word, i: nat)
    requires i + 4 < |s|
    ensures Truncate32(PackAt(s, i, 4) * 0x100 + s[i + 4]) == PackAt(s, i + 1, 4)
  {
    PackBytes(s, i);
    PackBytes(s, i + 1);
  }

  /** The packed window at h equals the packed needle exactly where the needle occurs. */
  lemma Window(hay: CString, n: CString, h: nat)
    requires 1 <= Len(n) && h + Len(n) <= |hay|
    ensures OccursAt(Body(hay), Body(n), h) <==>
            hay[h + Len(n) - 1] != 0 && PackAt(hay, h, Len(n)) == PackAt(n, 0, Len(n))
  {
    if h + Len(n) <= Len(hay) {
      assert Body(hay)[h..h + Len(n)] == hay[h..h + Len(n)];
      if PackAt(hay, h, Len(n)) == PackAt(n, 0, Len(n)) { PackInjective(hay[h..h + Len(n)], n[..Len(n)]); }
    }
  }

  /** None of the windows starting in [from, to) holds the needle's bytes. */
  predicate NoWindow(hay: CString, n: CString, from: nat, to: nat)
    requires to + Len(n) <= |hay|
  {
    forall i :: from <= i < to ==> PackAt(hay, i, Len(n)) != PackAt(n, 0, Len(n))
  }

  /** What the loop knows when it stops at the window at h is what the search has to return. */
  lemma Conclude(hay: CString, n: CString, start: nat, h: nat)
    requires 1 <= Len(n) && start <= h && h + Len(n) <= |hay| && NoWindow(hay, n, start, h)
    ensures hay[h + Len(n) - 1] == 0 ==> IsFirst(Body(hay), Body(n), start, None)
    ensures hay[h + Len(n) - 1] != 0 && PackAt(hay, h, Len(n)) == PackAt(n, 0, Len(n)) ==>
              IsFirst(Body(hay), Body(n), start, Some(h))
  {
    forall i | start <= i < h ensures !OccursAt(Body(hay), Body(n), i) { Window(hay, n, i); }
    Window(hay, n, h);
  }

  method TwoByteStrStr(hay: CString, start: nat, n: CString) returns (r: Option<nat>)
    requires Len(n) == 2 && start + 2 <= Len(hay)
    ensures IsFirst(Body(hay), Body(n), start, r)
  {
    var nw, hw := PackAt(n, 0, 2), PackAt(hay, start, 2);
    var h := start + 1;
    while hay[h] != 0 && hw != nw
      invariant start + 1 <= h <= Len(hay)
      invariant hw == PackAt(hay, h - 1, 2)
      invariant NoWindow(hay, n, start, h - 1)
      decreases Len(hay) - h
    {
      Slide2(hay, h - 1);
      h := h + 1;
      hw := Truncate16(hw * 0x100 + hay[h]);
    }
    Conclude(hay, n, start, h - 1);
    r := if hay[h] != 0 then Some(h - 1) else None;
  }

  method ThreeByteStrStr(hay: CString, start: nat, n: CString) returns (r: Option<nat>)
    requires Len(n) == 3 && start + 3 <= Len(hay)
    ensures IsFirst(Body(hay), Body(n), start, r)
  {
    var nw, hw := PackAt(n, 0, 3) * 0x100, PackAt(hay, start, 3) * 0x100;
    var h := start + 2;
    while hay[h] != 0 && hw != nw
      invariant start + 2 <= h <= Len(hay)
      invariant hw == PackAt(hay, h - 2, 3) * 0x100
      invariant NoWindow(hay, n, start, h - 2)
      decreases Len(hay) - h
    {
      Slide3(hay, h - 2);
      h := h + 1;
      hw := Truncate32((hw + hay[h]) * 0x100);
    }
    Conclude(hay, n, start, h - 2);
    r := if hay[h] != 0 then Some(h - 2) else None;
  }

  method FourByteStrStr(hay: CString, start: nat, n: CString) returns (r: Option<nat>)
    requires Len(n) == 4 && start + 4 <= Len(hay)
    ensures IsFirst(Body(hay), Body(n), start, r)
  {
    var nw, hw := PackAt(n, 0, 4), PackAt(hay, start, 4);
    var h := start + 3;
    while hay[h] != 0 && hw != nw
      invariant start + 3 <= h <= Len(hay)
      invariant hw == PackAt(hay, h - 3, 4)
      invariant NoWindow(hay, n, start, h - 3)
      decreases Len(hay) - h
    {
      Slide4(hay, h - 3);
      h := h + 1;
      hw := Truncate32(hw * 0x100 + hay[h]);
    }
    Conclude(hay, n, start, h - 3);
    r := if hay[h] != 0 then Some(h - 3) else None;
  }

  /** Where the needle's first byte is not, the needle is not either; the rest of the text decides the rest. */
  lemma StartAtFirstByte(text: Word, w: Word, first: Option<nat>)
    requires |w| > 0 && IsFirst(text, [w[0]], 0, first)
    ensures first.None? ==> IsFirst(text, w, 0, None)
    ensures first.Some? ==> NoneIn(text, w, 0, first.value)
  {
    forall i | OccursAt(text, w, i) ensures OccursAt(text, [w[0]], i) {
      OccursLetter(text, w, i, 0);
      OneByteOccurs(text, w[0], i);
    }
  }

  /** strstr returns the first occurrence of the needle, and null exactly when it does not occur. */
  method StrStr(hay: CString, n: CString) returns (r: Option<nat>)
    ensures IsFirst(Body(hay), Body(n), 0, r)
  {
    ghost var text, w := Body(hay), Body(n);
    if n[0] == 0 {
      assert OccursAt(text, w, 0);
      return Some(0);
    }
    var first := StrChr(hay, n[0]);
    StartAtFirstByte(text, w, first);
    if first.None? { return None; }
    if n[1] == 0 {
      assert w == [w[0]];
      return first;
    }
    var h := first.value;
    if hay[h + 1] == 0 { return None; }
    if n[2] == 0 { r := TwoByteStrStr(hay, h, n); return; }
    if hay[h + 2] == 0 { return None; }
    if n[3] == 0 { r := ThreeByteStrStr(hay, h, n); return; }
    if hay[h + 3] == 0 { return None; }
    if n[4] == 0 { r := FourByteStrStr(hay, h, n); return; }
    r := TwoWayStrStr(hay, h, n);
  }
}
