module Bytes {
  type Byte = b: int | 0 <= b < 256
}

/** Stretches of bytes put into longer ones, and the copying of them. */
module Buffers {
  import opened Bytes

  /** s with the bytes x in place from o on. */
  function Splice(s: seq<Byte>, o: nat, x: seq<Byte>): (r: seq<Byte>)
    requires o + |x| <= |s|
    ensures |r| == |s|
  {
    s[..o] + x + s[o + |x|..]
  }

  /** n bytes of s from o on. */
  function Cut(s: seq<Byte>, o: nat, n: nat): (r: seq<Byte>)
    requires o + n <= |s|
    ensures |r| == n
  {
    s[o..o + n]
  }

  lemma CutOfSplice(s: seq<Byte>, o: nat, x: seq<Byte>)
    requires o + |x| <= |s|
    ensures Cut(Splice(s, o, x), o, |x|) == x
  {}

  lemma CutBesideSplice(s: seq<Byte>, o: nat, x: seq<Byte>, p: nat, n: nat)
    requires o + |x| <= |s| && p + n <= |s| && (p + n <= o || o + |x| <= p)
    ensures Cut(Splice(s, o, x), p, n) == Cut(s, p, n)
  {}

  lemma SpliceTwice(s: seq<Byte>, o: nat, x: seq<Byte>, y: seq<Byte>)
    requires o + |x| + |y| <= |s|
    ensures Splice(Splice(s, o, x), o + |x|, y) == Splice(s, o, x + y)
  {}

  lemma CutsJoin(s: seq<Byte>, o: nat, m: nat, n: nat)
    requires o + m + n <= |s|
    ensures Cut(s, o, m) + Cut(s, o + m, n) == Cut(s, o, m + n)
  {}

  lemma CutOfCut(s: seq<Byte>, o: nat, n: nat, p: nat, m: nat)
    requires o + n <= |s| && p + m <= n
    ensures Cut(Cut(s, o, n), p, m) == Cut(s, o + p, m)
  {
    forall k | 0 <= k < m ensures Cut(Cut(s, o, n), p, m)[k] == Cut(s, o + p, m)[k] {
      assert s[o..o + n][p + k] == s[o + p + k];
    }
  }

  lemma CutOfSum(a: seq<Byte>, b: seq<Byte>, o: nat, m: nat)
    ensures o + m <= |a| ==> Cut(a + b, o, m) == Cut(a, o, m)
    ensures o >= |a| && o + m <= |a| + |b| ==> Cut(a + b, o, m) == Cut(b, o - |a|, m)
  {}

  /** Editing a block and putting it back is putting in the edited part. */
  lemma SpliceInBlock(s: seq<Byte>, o: nat, n: nat, p: nat, x: seq<Byte>)
    requires o + n <= |s| && p + |x| <= n
    ensures Splice(s, o, Splice(Cut(s, o, n), p, x)) == Splice(s, o + p, x)
    ensures Cut(Splice(s, o + p, x), o, n) == Splice(Cut(s, o, n), p, x)
  {}

  lemma SpliceOfSum(a: seq<Byte>, b: seq<Byte>, o: nat, x: seq<Byte>)
    ensures o + |x| <= |a| ==> Splice(a + b, o, x) == Splice(a, o, x) + b
    ensures o >= |a| && o + |x| <= |a| + |b| ==> Splice(a + b, o, x) == a + Splice(b, o - |a|, x)
  {}

  lemma CutAll(s: seq<Byte>)
    ensures Cut(s, 0, |s|) == s
  {}

  lemma SpliceAll(s: seq<Byte>, x: seq<Byte>)
    requires |x| == |s|
    ensures Splice(s, 0, x) == x
  {}

  /** memcpy of n bytes into an array. */
  method CopyInto(dst: array<Byte>, d: nat, src: seq<Byte>)
    requires d + |src| <= dst.Length
    modifies dst
    ensures dst[..] == Splice(old(dst[..]), d, src)
  {
    var i := 0;
    while i < |src|
      invariant 0 <= i <= |src|
      invariant forall k :: 0 <= k < dst.Length ==> dst[k] == if d <= k < d + i then src[k - d] else old(dst[k])
    {
      dst[d + i] := src[i];
      i := i + 1;
    }
  }
}
