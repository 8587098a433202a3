/**
  twoway_strstr: Crochemore and Perrin's two-way search with a bad-byte shift table and a memory of
  the prefix already matched. Pointers into the haystack and the needle are indices into their strings.
*/
module TwoWay {
  import opened Bits
  import opened Bytes
  import opened Words
  import opened MaximalSuffixes
  import opened CStrings

  // ----- preparing the needle

  /** Byte c is in the bit set. */
  predicate InByteset(byteset: seq<Binmap>, c: Byte)
    requires |byteset| == 8
  {
    Bit(byteset[c / 32], c % 32)
  }

  /** The bit set holds the bytes of w and the shift table one more than the last index of each. */
  ghost predicate Tables(byteset: seq<Binmap>, shift: seq<nat>, w: Word)
    requires |byteset| == 8 && |shift| == 256
  {
    forall c: Byte ::
      (InByteset(byteset, c) <==> c in w) &&
      (c in w ==> LastAt(w, c, shift[c] as int - 1))
  }

  predicate LastAt(w: Word, c: Byte, i: int)
  {
    0 <= i < |w| && w[i] == c && c !in w[i + 1..]
  }

  lemma TablesExtend(byteset: seq<Binmap>, shift: seq<nat>, w: Word, c: Byte)
    requires |byteset| == 8 && |shift| == 256 && Tables(byteset, shift, w)
    ensures Tables(byteset[c / 32 := Or(byteset[c / 32], Idx2Bit(c % 32))], shift[c := |w| + 1], w + [c])
  {
    var byteset' := byteset[c / 32 := Or(byteset[c / 32], Idx2Bit(c % 32))];
    var w' := w + [c];
    forall d: Byte
      ensures InByteset(byteset', d) <==> d in w'
      ensures d in w' && d != c ==> LastAt(w', d, shift[d] as int - 1)
    {
      assert InByteset(byteset, d) <==> d in w;
      if d / 32 == c / 32 { MarkBin(byteset[c / 32], c % 32, d % 32); }
      if d in w && d != c {
        var i := shift[d] as int - 1;
        assert w'[i + 1..] == w[i + 1..] + [c];
      }
    }
  }

  lemma NoTables(byteset: seq<Binmap>, shift: seq<nat>)
    requires |byteset| == 8 && |shift| == 256 && forall k :: 0 <= k < 8 ==> byteset[k] == 0
    ensures Tables(byteset, shift, [])
  {
    forall c: Byte ensures !InByteset(byteset, c) { BitZero(c % 32); }
  }

  /** The counting loop: the needle's length, or None when the haystack ends first. */
  method Prepare(hay: CString, start: nat, n: CString)
    returns (l: Option<nat>, byteset: array<Binmap>, shift: array<nat>)
    requires start <= Len(hay)
    ensures byteset.Length == 8 && shift.Length == 256
    ensures l == if Len(n) <= Len(hay) - start then Some(Len(n)) else None
    ensures l.Some? ==> Tables(byteset[..], shift[..], Body(n))
  {
    hide Tables, Or, Idx2Bit;
    byteset := new Binmap[8](_ => 0);
    shift := new nat[256];
    assert n[..0] == [];
    NoTables(byteset[..], shift[..]);
    var i := 0;
    while n[i] != 0 && hay[start + i] != 0
      invariant i <= Len(n) && start + i <= Len(hay)
      invariant Tables(byteset[..], shift[..], n[..i])
      decreases Len(n) - i
    {
      TablesExtend(byteset[..], shift[..], n[..i], n[i]);
      byteset[n[i] / 32] := Or(byteset[n[i] / 32], Idx2Bit(n[i] % 32));
      shift[n[i]] := i + 1;
      assert n[..i + 1] == n[..i] + [n[i]];
      i := i + 1;
    }
    l := if n[i] != 0 then None else Some(i);
  }

  /**
    One maximal-suffix loop; `reverse` says which way letters are compared. The index before the
    suffix is kept, -1 standing for the all-ones size_t.
  */
  method FindMaximalSuffix(n: CString, l: nat, reverse: bool) returns (ip: int, p: nat)
    requires 1 <= l == Len(n)
    ensures -1 <= ip < l - 1 && 1 <= p <= l - 1 - ip
    ensures MaximalSuffix(Body(n), reverse, ip + 1) && SmallestPeriod(Body(n)[ip + 1..], p)
  {
    hide Duel, MaximalSuffix, SmallestPeriod;
    ghost var w := Body(n);
    ip := -1;
    p := 1;
    var jp, k := 0, 1;
    DuelStarts(w, reverse);
    while jp + k < l
      invariant -1 <= ip && ip + p <= jp && 1 <= k <= p && jp + k <= l
      invariant Duel(w, reverse, ip + 1, jp + 1, k, p)
      decreases 3 * l - (ip + jp + k)
    {
      if n[ip + k] == n[jp + k] {
        EqualStep(w, reverse, ip + 1, jp + 1, k, p);
        if k == p {
          jp := jp + p;
          k := 1;
        } else {
          k := k + 1;
        }
      } else if Above(reverse, n[ip + k], n[jp + k]) {
        DescendStep(w, reverse, ip + 1, jp + 1, k, p);
        jp := jp + k;
        k := 1;
        p := jp - ip;
      } else {
        AscendStep(w, reverse, ip + 1, jp + 1, k, p);
        ip := jp;
        jp := jp + 1;
        k := 1;
        p := 1;
      }
    }
    DuelEnds(w, reverse, ip + 1, jp + 1, k, p);
  }

  /**
    What the search needs to know about the needle: c is a critical cut, p never passes the smallest
    period, and a non-zero memory is what is left of a needle with period p after its first period.
  */
  ghost predicate Plan(w: Word, c: int, p: int, mem0: int)
  {
    0 <= c < |w| && 1 <= p <= |w| && 0 <= mem0 &&
    (exists q :: p <= q && Critical(w, c, q)) &&
    (mem0 > 0 ==> mem0 == |w| - p && HasPeriod(w, p) && c <= p)
  }

  /** Both maximal suffixes, the choice of the shorter one, and the test for a periodic needle. */
  method Factorize(n: CString, l: nat) returns (ms: int, p: nat, mem0: nat)
    requires 1 <= l == Len(n)
    ensures -1 <= ms && Plan(Body(n), ms + 1, p, mem0)
  {
    ghost var w := Body(n);
    hide MaximalSuffix, SmallestPeriod, Plan;
    ms, p := FindMaximalSuffix(n, l, false);
    var ip, p' := FindMaximalSuffix(n, l, true);
    PlanFromSuffixes(w, ms + 1, p, ip + 1, p');
    if ip + 1 > ms + 1 { ms, p := ip, p'; }
    mem0 := 0;
    var v := MemCmp(n, 0, p, ms + 1);
    if v != 0 {
      p := (if ms > l - ms - 1 then ms else l - ms - 1) + 1;
    } else {
      mem0 := l - p;
    }
  }

  /** The later of the two maximal suffixes starts at the critical cut the plan is made for. */
  lemma PlanFromSuffixes(w: Word, a: int, p: int, b: int, p': int)
    requires MaximalSuffix(w, false, a) && SmallestPeriod(w[a..], p) && p <= |w| - a
    requires MaximalSuffix(w, true, b) && SmallestPeriod(w[b..], p') && p' <= |w| - b
    ensures var c, r := if b > a then b else a, if b > a then p' else p;
            (w[0..c] == w[r..r + c] ==> Plan(w, c, r, |w| - r)) &&
            (w[0..c] != w[r..r + c] ==> Plan(w, c, (if c - 1 > |w| - c then c - 1 else |w| - c) + 1, 0))
  {
    var q := SmallestPeriodExists(w);
    if b > a {
      CriticalFactorization(w, true, b, a, q);
      MakePlan(w, b, p', q);
    } else {
      CriticalFactorization(w, false, a, b, q);
      MakePlan(w, a, p, q);
    }
  }

  /** Both outcomes of the memcmp test make a plan the search can follow. */
  lemma MakePlan(w: Word, c: int, p: int, q: int)
    requires Critical(w, c, q) && c < |w| && SmallestPeriod(w[c..], p) && p <= |w| - c
    ensures w[..c] == w[p..p + c] ==> Plan(w, c, p, |w| - p)
    ensures w[..c] != w[p..p + c] ==> Plan(w, c, (if c - 1 > |w| - c then c - 1 else |w| - c) + 1, 0)
  {
    PeriodTest(w, c, p);
    PeriodicOrLong(w, c, p, q);
  }

  /** The memcmp test: the whole word has the right part's period iff the left part repeats one period later. */
  lemma PeriodTest(w: Word, c: int, p: int)
    requires 0 <= c && 1 <= p && p + c <= |w| && HasPeriod(w[c..], p)
    ensures HasPeriod(w, p) <==> w[..c] == w[p..p + c]
  {
    if HasPeriod(w, p) {
      forall i | 0 <= i < c ensures w[..c][i] == w[p..p + c][i] { assert Repeats(w, p, i); }
    }
    if w[..c] == w[p..p + c] {
      forall i ensures Repeats(w, p, i) {
        if 0 <= i < c { assert w[..c][i] == w[p..p + c][i]; }
        assert Repeats(w[c..], p, i - c);
      }
    }
  }

  // ----- why no shift skips an occurrence

  /** The needle agrees with the text at h on the letters from a up to b. */
  predicate Matches(text: Word, w: Word, h: int, a: int, b: int)
  {
    0 <= h && b <= |w| && h + b <= |text| &&
    forall j {:trigger w[j]} :: 0 <= a <= j < b ==> text[h + j] == w[j]
  }

  predicate NoneIn(text: Word, w: Word, from: int, to: int)
  {
    forall i :: from <= i < to ==> !OccursAt(text, w, i)
  }

  lemma OccursLetter(text: Word, w: Word, i: int, j: int)
    requires OccursAt(text, w, i) && 0 <= j < |w|
    ensures text[i + j] == w[j]
  {
    assert text[i..i + |w|][j] == w[j];
  }

  /** The byte under the needle's end does not occur in the needle at all. */
  lemma AbsentByteShift(text: Word, w: Word, h: int)
    requires 1 <= |w| && 0 <= h && h + |w| <= |text| && text[h + |w| - 1] !in w
    ensures NoneIn(text, w, h, h + |w|)
  {
    forall i | h <= i < h + |w| && OccursAt(text, w, i) ensures false {
      OccursLetter(text, w, i, h + |w| - 1 - i);
    }
  }

  /** Its last place in the needle is k before the end. */
  lemma BadByteShift(text: Word, w: Word, h: int, last: int)
    requires 1 <= |w| && 0 <= h && h + |w| <= |text|
    requires LastAt(w, text[h + |w| - 1], last)
    ensures NoneIn(text, w, h, h + |w| - 1 - last)
  {
    forall i | h <= i < h + |w| - 1 - last && OccursAt(text, w, i) ensures false {
      var j := h + |w| - 1 - i;
      OccursLetter(text, w, i, j);
    }
  }

  /**
    With the needle's prefix remembered and a wrong byte under its end, no occurrence starts before
    the remembered prefix is passed: it would make the overlap a second period and put the right byte there.
  */
  lemma RememberedShift(text: Word, w: Word, h: int, p: int)
    requires HasPeriod(w, p) && p < |w| && Matches(text, w, h, 0, |w| - p) && h + |w| <= |text|
    requires text[h + |w| - 1] != w[|w| - 1]
    ensures NoneIn(text, w, h, h + |w| - p)
  {
    forall i | h <= i < h + |w| - p && OccursAt(text, w, i) ensures false {
      var d := i - h;
      var x := |w| - 1 - d - p;
      assert Repeats(w, p, x) && Repeats(w, p, d + x);
      // d + p is a period of w as well
      OccursLetter(text, w, i, x);
      OccursLetter(text, w, i, |w| - 1 - d);
    }
  }

  /** The first mismatch right of the cut is at k: nothing starts before it is passed by the cut. */
  lemma RightMismatchShift(text: Word, w: Word, h: int, c: int, q: int, k: int)
    requires Critical(w, c, q) && Matches(text, w, h, c, k)
    requires c <= k < |w| && h + |w| <= |text| && text[h + k] != w[k]
    ensures NoneIn(text, w, h, h + k - c + 1)
  {
    forall i | h <= i < h + k - c + 1 && OccursAt(text, w, i) ensures false {
      var d := i - h;
      OccursLetter(text, w, i, k - d);
      if d > 0 {
        OverlapIsLocalPeriod(text, w, h, c, k, d);
        LocalPeriodIsMultiple(w, c, q, d);
        PeriodJump(w, q, k - d, k);
      }
    }
  }

  /** An occurrence d places on overlaps the matched right part in a local period d. */
  lemma OverlapIsLocalPeriod(text: Word, w: Word, h: int, c: int, k: int, d: int)
    requires 0 <= c && Matches(text, w, h, c, k) && OccursAt(text, w, h + d)
    requires d >= 1 && (c + d <= k || k == |w|)
    ensures LocalPeriod(w, c, d)
  {
    forall i | c - d <= i < c ensures Repeats(w, d, i) {
      if 0 <= i < |w| && 0 <= i + d < |w| {
        OccursLetter(text, w, h + d, i);
        assert text[h + (i + d)] == w[i + d];
      }
    }
  }

  /** The right part matches and the left part does not: nothing starts within one period. */
  lemma LeftMismatchShift(text: Word, w: Word, h: int, c: int, q: int, p: int)
    requires Critical(w, c, q) && p <= q && Matches(text, w, h, c, |w|) && !OccursAt(text, w, h)
    ensures NoneIn(text, w, h, h + p)
  {
    forall i | h < i < h + p && OccursAt(text, w, i) ensures false {
      OverlapIsLocalPeriod(text, w, h, c, |w|, i - h);
    }
  }

  /** After a shift by the period, all but the last period of the needle is known to match. */
  lemma PrefixRemembered(text: Word, w: Word, h: int, c: int, p: int)
    requires HasPeriod(w, p) && c <= p <= |w| && Matches(text, w, h, c, |w|)
    requires 0 <= c
    ensures Matches(text, w, h + p, 0, |w| - p)
  {
    forall j | 0 <= j < |w| - p ensures text[h + p + j] == w[j] {
      assert Repeats(w, p, j);
      assert text[h + (j + p)] == w[j + p];
    }
  }

  // ----- the search

  /** The remembered prefix matches at h, and a non-empty memory is the one the plan prescribes. */
  predicate Remembers(text: Word, w: Word, h: int, mem: int, mem0: int)
  {
    mem == 0 || (mem == mem0 && Matches(text, w, h, 0, mem))
  }

  /** `l | 63`, the stretch in which the end of the haystack is looked for. */
  function Grow(l: nat): (g: nat)
    ensures g >= l && g < l + 64
  {
    l - l % 64 + 63
  }

  /** Moves z towards the end of the haystack until a whole needle fits before it; None when none does. */
  method AdvanceEnd(hay: CString, h: nat, z: nat, l: nat) returns (z': Option<nat>)
    requires h <= z <= Len(hay)
    ensures z'.None? <==> Len(hay) < h + l
    ensures z'.Some? ==> z <= z'.value <= Len(hay) && h + l <= z'.value
  {
    if z - h < l {
      var z2 := FindEnd(hay, z, Grow(l));
      if z2.Some? {
        return if z2.value - h < l then None else z2;
      }
      return Some(z + Grow(l));
    }
    return Some(z);
  }

  lemma LastByteDiffers(w: Word, c: Byte, last: int)
    requires LastAt(w, c, last) && last < |w| - 1
    ensures w[|w| - 1] != c
  {
    assert w[last + 1..][|w| - 2 - last] == w[|w| - 1];
  }

  /** The last-byte check: how far to shift before comparing anything, 0 when the last byte is right. */
  method LastByteShift(hay: CString, n: CString, h: nat, l: nat, p: nat, mem0: nat, mem: nat,
                       byteset: array<Binmap>, shift: array<nat>)
    returns (k: nat)
    requires 1 <= l == Len(n) && h + l <= Len(hay)
    requires byteset.Length == 8 && shift.Length == 256 && Tables(byteset[..], shift[..], Body(n))
    requires mem0 > 0 ==> mem0 == l - p && HasPeriod(Body(n), p)
    requires Remembers(Body(hay), Body(n), h, mem, mem0)
    ensures k <= l && NoneIn(Body(hay), Body(n), h, h + k)
    ensures k == 0 <==> hay[h + l - 1] == n[l - 1]
  {
    ghost var text, w := Body(hay), Body(n);
    var c := hay[h + l - 1];
    assert InByteset(byteset[..], c) <==> c in w;
    if Bit(byteset[c / 32], c % 32) {
      assert LastAt(w, c, shift[c] as int - 1);
      k := l - shift[c];
      BadByteShift(text, w, h, shift[c] - 1);
      if k != 0 {
        LastByteDiffers(w, c, shift[c] - 1);
        if mem0 != 0 && mem != 0 && k < p {
          RememberedShift(text, w, h, p);
          k := l - p;
        }
      }
    } else {
      AbsentByteShift(text, w, h);
      k := l;
    }
  }

  /** Compares the right part upwards from max(ms + 1, mem); k is the first mismatch or the needle's length. */
  method CompareRight(hay: CString, n: CString, h: nat, ms: int, mem: nat) returns (k: nat)
    requires h + Len(n) <= Len(hay) && 0 <= ms + 1 <= Len(n) && mem <= Len(n)
    requires Matches(Body(hay), Body(n), h, 0, mem)
    ensures ms + 1 <= k <= Len(n) && Matches(Body(hay), Body(n), h, ms + 1, k)
    ensures k < Len(n) ==> hay[h + k] != n[k]
  {
    k := if ms + 1 > mem then ms + 1 else mem;
    while n[k] != 0 && n[k] == hay[h + k]
      invariant ms + 1 <= k <= Len(n) && Matches(Body(hay), Body(n), h, ms + 1, k)
      decreases Len(n) - k
    {
      k := k + 1;
    }
  }

  /** Compares the left part downwards to the remembered prefix. */
  method CompareLeft(hay: CString, n: CString, h: nat, ms: int, mem: nat) returns (k: nat)
    requires h + Len(n) <= Len(hay) && 0 <= ms + 1 <= Len(n) && mem <= Len(n)
    requires Matches(Body(hay), Body(n), h, 0, mem) && Matches(Body(hay), Body(n), h, ms + 1, Len(n))
    ensures k <= mem <==> OccursAt(Body(hay), Body(n), h)
  {
    ghost var text, w := Body(hay), Body(n);
    k := ms + 1;
    while k > mem && n[k - 1] == hay[h + k - 1]
      invariant 0 <= k <= ms + 1 && Matches(text, w, h, k, Len(n))
      decreases k
    {
      k := k - 1;
    }
    if k <= mem {
      forall j | 0 <= j < |w| ensures text[h..h + |w|][j] == w[j] {}
      assert text[h..h + |w|] == w;
    } else if OccursAt(text, w, h) {
      OccursLetter(text, w, h, k - 1);
      assert false;
    }
  }

  /** twoway_strstr finds the first occurrence at or after `start`, or that there is none. */
  method TwoWayStrStr(hay: CString, start: nat, n: CString) returns (r: Option<nat>)
    requires start <= Len(hay) && 1 <= Len(n)
    ensures IsFirst(Body(hay), Body(n), start, r)
  {
    ghost var text, w := Body(hay), Body(n);
    var ol, byteset, shift := Prepare(hay, start, n);
    if ol.None? { return None; }
    var l := ol.value;
    var ms, p, mem0 := Factorize(n, l);
    r := Search(hay, start, n, l, ms, p, mem0, byteset, shift);
  }

  method Search(hay: CString, start: nat, n: CString, l: nat, ms: int, p: nat, mem0: nat,
                byteset: array<Binmap>, shift: array<nat>)
    returns (r: Option<nat>)
    requires start <= Len(hay) && 1 <= l == Len(n)
    requires byteset.Length == 8 && shift.Length == 256 && Tables(byteset[..], shift[..], Body(n))
    requires Plan(Body(n), ms + 1, p, mem0)
    ensures IsFirst(Body(hay), Body(n), start, r)
  {
    ghost var text, w := Body(hay), Body(n);
    ghost var q :| p <= q && Critical(w, ms + 1, q);
    var h, z, mem := start, start, 0;
    while true
      invariant start <= h <= z <= Len(hay)
      invariant NoneIn(text, w, start, h)
      invariant Remembers(text, w, h, mem, mem0)
      decreases Len(hay) - h
    {
      var z' := AdvanceEnd(hay, h, z, l);
      if z'.None? { return None; }
      z := z'.value;
      var k := LastByteShift(hay, n, h, l, p, mem0, mem, byteset, shift);
      if k != 0 {
        h := h + k;
        mem := 0;
        continue;
      }
      k := CompareRight(hay, n, h, ms, mem);
      if n[k] != 0 {
        RightMismatchShift(text, w, h, ms + 1, q, k);
        h := h + k - ms;
        mem := 0;
        continue;
      }
      k := CompareLeft(hay, n, h, ms, mem);
      if k <= mem { return Some(h); }
      LeftMismatchShift(text, w, h, ms + 1, q, p);
      if mem0 > 0 { PrefixRemembered(text, w, h, ms + 1, p); }
      h := h + p;
      mem := mem0;
    }
  }
}
