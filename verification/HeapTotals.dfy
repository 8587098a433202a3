/** Adding up the heap: the walk of traverse_and_check, and where all bytes of the segment are. */
module HeapTotals {
  import opened Chunks
  import opened Heap

  // ----- the walk over the heads

  /** The sum of the chunk sizes met when going from head to head until top. */
  function Traverse(head: map<int, Head>, q: int, top: int): nat
    decreases top - q
  {
    if q < top && q in head && head[q].size > 0 then head[q].size + Traverse(head, q + head[q].size, top) else 0
  }

  /** The walk passes every chunk and arrives at top: with top and the end mark it adds up to the whole segment. */
  lemma {:induction false} TraverseArrives(v: View, q: int)
    requires HeapOk(v) && q in v.t
    ensures q <= v.w.top && Traverse(v.w.head, q, v.w.top) == v.w.top - q
    decreases v.end - q
  {
    ChunkHere(v, q);
    ChunkHere(v, v.w.top);
    if q != v.w.top {
      NextHere(v, q);
      TraverseArrives(v, q + v.t[q].size);
    }
  }

  lemma TraverseTotal(v: View)
    requires HeapOk(v)
    ensures Traverse(v.w.head, v.base, v.w.top) + v.w.topsize + TOP_FOOT_SIZE == v.end + TOP_FOOT_SIZE - v.base
  {
    TraverseArrives(v, v.base);
    ChunkHere(v, v.w.top);
  }

  // ----- sums over maps

  ghost function Total(m: map<int, nat>): nat
    decreases |m|
  {
    if exists k :: k in m then var k :| k in m; m[k] + Total(m - {k}) else 0
  }

  lemma {:induction false} TotalWithout(m: map<int, nat>, k: int)
    requires k in m
    ensures Total(m) == m[k] + Total(m - {k})
    decreases |m|
  {
    var j :| j in m && Total(m) == m[j] + Total(m - {j});
    if j != k {
      TotalWithout(m - {j}, k);
      TotalWithout(m - {k}, j);
      assert m - {j} - {k} == m - {k} - {j};
    }
  }

  /** The part of m at q and above. */
  function From(m: map<int, nat>, q: int): map<int, nat> { map p | p in m && p >= q :: m[p] }

  lemma FromStep(m: map<int, nat>, q: int, n: int)
    requires q < n && forall p :: p in m && q <= p < n ==> p == q
    ensures Total(From(m, q)) == Total(From(m, n)) + if q in m then m[q] else 0
  {
    if q in m {
      TotalWithout(From(m, q), q);
      assert From(m, q) - {q} == From(m, n);
    } else {
      assert From(m, q) == From(m, n);
    }
  }

  /** What dv and top account for at q and above. */
  function DvFrom(v: View, q: int): nat { if v.w.dv != 0 && v.w.dv >= q then v.w.dvsize else 0 }

  function TopFrom(v: View, q: int): nat { if v.w.top >= q then v.w.topsize else 0 }

  lemma {:induction false} AccountFrom(v: View, q: int)
    requires HeapOk(v) && (q == v.end || q in v.t)
    ensures Total(From(Used(v.t), q)) + Total(From(v.binned, q)) + DvFrom(v, q) + TopFrom(v, q) == v.end - q
    decreases v.end - q
  {
    ChunkHere(v, v.w.top);
    if q == v.end {
      NothingAtEnd(v);
    } else {
      var n := q + v.t[q].size;
      ChunkHere(v, q);
      AccountFrom(v, n);
      AccountStep(v, q, n);
    }
  }

  lemma NothingAtEnd(v: View)
    requires HeapOk(v)
    ensures From(Used(v.t), v.end) == map[] && From(v.binned, v.end) == map[] && DvFrom(v, v.end) == 0 &&
            TopFrom(v, v.end) == 0
  {
    forall p | p in v.t ensures p < v.end { ChunkHere(v, p); }
  }

  /** The chunk at q is counted once: as a block, in a bin, as dv or as top. */
  lemma AccountStep(v: View, q: int, n: int)
    requires HeapOk(v) && q in v.t && n == q + v.t[q].size
    ensures Total(From(Used(v.t), q)) + Total(From(v.binned, q)) + DvFrom(v, q) + TopFrom(v, q) ==
            Total(From(Used(v.t), n)) + Total(From(v.binned, n)) + DvFrom(v, n) + TopFrom(v, n) + v.t[q].size
  {
    ChunkHere(v, q);
    ChunkHere(v, v.w.top);
    if v.w.dv != 0 { ChunkHere(v, v.w.dv); }
    Alone(v, q);
    hide HeapOk;
    FromStep(Used(v.t), q, n);
    FromStep(v.binned, q, n);
    hide From, Total;
  }

  /** Conservation: blocks handed out, chunks in bins, dv, top and the end mark together are the segment. */
  lemma BytesAccounted(v: View)
    requires HeapOk(v)
    ensures Total(Used(v.t)) + Total(v.binned) + v.w.dvsize + v.w.topsize + TOP_FOOT_SIZE == v.end + TOP_FOOT_SIZE - v.base
  {
    AccountFrom(v, v.base);
    PositiveAddresses(v);
    forall p | p in v.t ensures p >= v.base { ChunkHere(v, p); }
    assert From(Used(v.t), v.base) == Used(v.t);
    assert From(v.binned, v.base) == v.binned;
  }
}
