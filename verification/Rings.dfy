/** Circular doubly linked lists threaded through the fd and bk fields of chunks. */
module Rings {
  predicate Distinct(ring: seq<int>)
  {
    forall i, j :: 0 <= i < j < |ring| ==> ring[i] != ring[j]
  }

  function Next(ring: seq<int>, i: int): (j: int)
    requires 0 <= i < |ring|
    ensures 0 <= j < |ring|
  {
    if i + 1 == |ring| then 0 else i + 1
  }

  /** The links out of the i-th element: fd to the next one, whose bk leads back. */
  predicate Linked(fd: map<int, int>, bk: map<int, int>, ring: seq<int>, i: int)
    requires 0 <= i < |ring|
  {
    var x, y := ring[i], ring[Next(ring, i)];
    x in fd && x in bk && y in bk && fd[x] == y && bk[y] == x
  }

  predicate RingOk(fd: map<int, int>, bk: map<int, int>, ring: seq<int>)
  {
    |ring| >= 1 && Distinct(ring) &&
    forall i {:trigger Linked(fd, bk, ring, i)} :: 0 <= i < |ring| ==> Linked(fd, bk, ring, i)
  }

  /** p is linked in right after t. */
  function FdAfter(fd: map<int, int>, t: int, f: int, p: int): map<int, int> { fd[t := p][p := f] }

  function BkAfter(bk: map<int, int>, t: int, f: int, p: int): map<int, int> { bk[f := p][p := t] }

  lemma LoneRing(fd: map<int, int>, bk: map<int, int>, p: int)
    ensures RingOk(fd[p := p], bk[p := p], [p])
  {}

  /** An empty small bin's head is linked to its first chunk and back. */
  lemma PairRing(fd: map<int, int>, bk: map<int, int>, t: int, p: int)
    requires t != p
    ensures RingOk(FdAfter(fd, t, t, p), BkAfter(bk, t, t, p), [t, p])
  {}

  lemma InsertAfterHead(fd: map<int, int>, bk: map<int, int>, ring: seq<int>, p: int)
    requires RingOk(fd, bk, ring) && p !in ring
    ensures Linked(fd, bk, ring, 0)
    ensures RingOk(FdAfter(fd, ring[0], fd[ring[0]], p), BkAfter(bk, ring[0], fd[ring[0]], p), [ring[0], p] + ring[1..])
  {
    var t := ring[0];
    assert Linked(fd, bk, ring, 0);
    var f := fd[t];
    var ring' := [t, p] + ring[1..];
    forall i | 0 <= i < |ring'| ensures Linked(FdAfter(fd, t, f, p), BkAfter(bk, t, f, p), ring', i) {
      if i >= 2 { assert Linked(fd, bk, ring, i - 1); }
    }
  }

  /** F->bk = B and B->fd = F. */
  lemma RemoveAt(fd: map<int, int>, bk: map<int, int>, ring: seq<int>, k: int)
    requires RingOk(fd, bk, ring) && 0 <= k < |ring| && |ring| >= 2
    ensures Neighbours(fd, bk, ring, k)
    ensures RingOk(fd[bk[ring[k]] := fd[ring[k]]], bk[fd[ring[k]] := bk[ring[k]]], ring[..k] + ring[k + 1..])
  {
    NeighboursOf(fd, bk, ring, k);
    var x := ring[k];
    var fd', bk', ring' := fd[bk[x] := fd[x]], bk[fd[x] := bk[x]], ring[..k] + ring[k + 1..];
    forall i | 0 <= i < |ring'| ensures Linked(fd', bk', ring', i) {
      var j := if i < k then i else i + 1;
      assert Linked(fd, bk, ring, j);
      if Next(ring, j) == k { assert Linked(fd, bk, ring, k); }
    }
  }

  predicate Neighbours(fd: map<int, int>, bk: map<int, int>, ring: seq<int>, k: int)
    requires 0 <= k < |ring|
  {
    var x := ring[k];
    x in fd && x in bk && fd[x] in fd && fd[x] in bk && bk[x] in fd && bk[x] in bk &&
    fd[x] == ring[Next(ring, k)] && bk[x] == ring[if k == 0 then |ring| - 1 else k - 1] &&
    bk[fd[x]] == x && fd[bk[x]] == x
  }

  lemma NeighboursOf(fd: map<int, int>, bk: map<int, int>, ring: seq<int>, k: int)
    requires RingOk(fd, bk, ring) && 0 <= k < |ring|
    ensures Neighbours(fd, bk, ring, k)
  {
    assert Linked(fd, bk, ring, k);
    var j := if k == 0 then |ring| - 1 else k - 1;
    assert Linked(fd, bk, ring, j);
    assert Linked(fd, bk, ring, Next(ring, k));
  }

  /** A ring read from its last element on is the same ring. */
  lemma Rotate(fd: map<int, int>, bk: map<int, int>, ring: seq<int>)
    requires RingOk(fd, bk, ring)
    ensures RingOk(fd, bk, [ring[|ring| - 1]] + ring[..|ring| - 1])
  {
    var n := |ring|;
    var ring' := [ring[n - 1]] + ring[..n - 1];
    forall i | 0 <= i < n ensures Linked(fd, bk, ring', i) {
      assert Linked(fd, bk, ring, if i == 0 then n - 1 else i - 1);
    }
  }

  /** A ring none of whose elements had a link changed is still a ring. */
  lemma RingFrame(fd: map<int, int>, bk: map<int, int>, fd': map<int, int>, bk': map<int, int>, ring: seq<int>)
    requires RingOk(fd, bk, ring)
    requires forall x :: x in ring ==>
               (x in fd ==> x in fd' && fd'[x] == fd[x]) && (x in bk ==> x in bk' && bk'[x] == bk[x])
    ensures RingOk(fd', bk', ring)
  {
    forall i | 0 <= i < |ring| ensures Linked(fd', bk', ring, i) { assert Linked(fd, bk, ring, i); }
  }

  /** Taking the head out leaves a ring that may be read from its last element on. */
  lemma RestRotated(ring: seq<int>)
    requires |ring| >= 2
    ensures ring[..0] + ring[0 + 1..] == ring[1..]
    ensures var n, rest := |ring|, ring[1..]; [rest[n - 2]] + rest[..n - 2] == [ring[n - 1]] + ring[1..n - 1]
  {}

  lemma RemoveFirst(fd: map<int, int>, bk: map<int, int>, ring: seq<int>)
    requires RingOk(fd, bk, ring) && |ring| >= 2
    ensures Neighbours(fd, bk, ring, 0)
    ensures RingOk(fd[bk[ring[0]] := fd[ring[0]]], bk[fd[ring[0]] := bk[ring[0]]],
                   [ring[|ring| - 1]] + ring[1..|ring| - 1])
  {
    hide RingOk;
    var x := ring[0];
    RestRotated(ring);
    NeighboursOf(fd, bk, ring, 0);
    hide Neighbours;
    RemoveAt(fd, bk, ring, 0);
    Rotate(fd[bk[x] := fd[x]], bk[fd[x] := bk[x]], ring[1..]);
  }
}
