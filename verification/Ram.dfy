/** The bytes of the blocks handed out, and memcpy. */
module Ram {
  import opened Bytes
  import opened Stores

  /** The byte at a; memory nobody wrote reads as zero. */
  function At(m: map<int, Byte>, a: int): Byte
  {
    if a in m then m[a] else 0
  }

  /** The n bytes from a on. */
  function Slice(m: map<int, Byte>, a: int, n: nat): (s: seq<Byte>)
    ensures |s| == n && forall i :: 0 <= i < n ==> s[i] == At(m, a + i)
  {
    if n == 0 then [] else Slice(m, a, n - 1) + [At(m, a + n - 1)]
  }

  predicate SameAt(m: map<int, Byte>, m': map<int, Byte>, a: int, a': int, i: int)
  {
    At(m', a' + i) == At(m, a + i)
  }

  lemma {:induction false} SliceAgrees(m: map<int, Byte>, m': map<int, Byte>, a: int, a': int, n: nat)
    requires forall i {:trigger SameAt(m, m', a, a', i)} :: 0 <= i < n ==> SameAt(m, m', a, a', i)
    ensures Slice(m', a', n) == Slice(m, a, n)
  {
    if n > 0 {
      SliceAgrees(m, m', a, a', n - 1);
      assert SameAt(m, m', a, a', n - 1);
    }
  }

  /** What a loop that copies one byte after the other leaves. */
  function Copied(m: map<int, Byte>, dst: int, src: int, n: nat): map<int, Byte>
  {
    if n == 0 then m
    else var m1 := Copied(m, dst, src, n - 1); m1[dst + n - 1 := At(m1, src + n - 1)]
  }

  lemma {:induction false} CopiedAt(m: map<int, Byte>, dst: int, src: int, n: nat, a: int)
    requires dst + n <= src || src + n <= dst
    ensures At(Copied(m, dst, src, n), a) == At(m, if dst <= a < dst + n then src + (a - dst) else a)
  {
    if n > 0 {
      CopiedAt(m, dst, src, n - 1, a);
      CopiedAt(m, dst, src, n - 1, src + n - 1);
    }
  }

  /** What is in memory when the words that differ are stored over it. */
  function StoredOver(m: map<int, Byte>, stored: map<int, Byte>, s: Words, s': Words): map<int, Byte>
  {
    map a | a in m.Keys + stored.Keys && (a in m || Stored(s, s', a)) :: if Stored(s, s', a) then At(stored, a) else At(m, a)
  }

  lemma NoneStored(s: Words)
    ensures forall a :: !Stored(s, s, a)
  {}

  class Ram {
    var bytes: map<int, Byte>

    constructor ()
    {
      bytes := map[];
    }

    /** The stores of the allocator, when its words have changed from s to s': their bytes may now be any others. */
    method Change(s: Words, s': Words)
      modifies this
      ensures forall a :: !Stored(s, s', a) ==> At(bytes, a) == At(old(bytes), a)
      ensures s' == s ==> bytes == old(bytes)
    {
      if s' == s { NoneStored(s); }
      hide Stored;
      var stored: map<int, Byte> := *;
      bytes := StoredOver(bytes, stored, s, s');
    }

    /** A caller writes x at dst. */
    method Write(dst: int, x: seq<Byte>)
      modifies this
      ensures Slice(bytes, dst, |x|) == x
      ensures forall a :: !(dst <= a < dst + |x|) ==> At(bytes, a) == At(old(bytes), a)
    {
      var i := 0;
      while i < |x|
        invariant 0 <= i <= |x|
        invariant forall k {:trigger x[k]} :: 0 <= k < i ==> At(bytes, dst + k) == x[k]
        invariant forall a :: !(dst <= a < dst + i) ==> At(bytes, a) == At(old(bytes), a)
      {
        bytes := bytes[dst + i := x[i]];
        i := i + 1;
      }
    }

    /** memcpy between stretches that do not overlap */
    method MemCpy(dst: int, src: int, n: nat)
      requires dst + n <= src || src + n <= dst
      modifies this
      ensures Slice(bytes, dst, n) == Slice(old(bytes), src, n)
      ensures forall a :: !(dst <= a < dst + n) ==> At(bytes, a) == At(old(bytes), a)
    {
      var i := 0;
      while i < n
        invariant 0 <= i <= n
        invariant bytes == Copied(old(bytes), dst, src, i)
      {
        bytes := bytes[dst + i := At(bytes, src + i)];
        i := i + 1;
      }
      forall a ensures At(bytes, a) == At(old(bytes), if dst <= a < dst + n then src + (a - dst) else a) {
        CopiedAt(old(bytes), dst, src, n, a);
      }
    }
  }
}
