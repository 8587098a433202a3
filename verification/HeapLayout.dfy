/**
  Where the words of the allocator lie in memory. The other modules keep one map per field; here is why
  that is the same as keeping all of them, and the callers' bytes, in one memory.
*/
module HeapLayout {
  import opened BinState
  import opened Heap

  datatype Field = HeadWord | FdWord | BkWord | Child0Word | Child1Word | ParentWord | IndexWord | FootWord

  /** The word of chunk p that holds the field; the prev_foot of a free chunk lies behind it. */
  function Place(v: View, p: int, f: Field): int
    requires p in v.t || f == HeadWord
  {
    match f
    case HeadWord => p + 4
    case FdWord => p + 8
    case BkWord => p + 12
    case Child0Word => p + 16
    case Child1Word => p + 20
    case ParentWord => p + 24
    case IndexWord => p + 28
    case FootWord => p + v.t[p].size
  }

  /** The allocator uses the field of p: every chunk has a head, as has the end; links are for chunks in bins. */
  predicate HasField(v: View, p: int, f: Field)
  {
    match f
    case HeadWord => p in v.t || p == v.end
    case FdWord => p in v.t && p in v.binned
    case BkWord => p in v.t && p in v.binned
    case FootWord => p in v.t && !v.t[p].used && p != v.w.top
    case _ => p in v.t && p in v.binned && !IsSmall(v.binned[p])
  }

  /** A field of p lies within p, but for the last four bytes which are the next prev_foot, or is that prev_foot. */
  lemma FieldWithin(v: View, p: int, f: Field)
    requires HeapOk(v) && p in v.t && HasField(v, p, f)
    ensures p + 4 <= Place(v, p, f) && (f == FootWord <==> Place(v, p, f) + 4 > p + v.t[p].size) &&
            Place(v, p, f) <= p + v.t[p].size
    ensures v.base <= p && p + v.t[p].size <= v.end
  {
    ChunkHere(v, p);
    hide HeapOk;
  }

  /** No two words of the allocator overlap. */
  lemma FieldsApart(v: View, p: int, f: Field, q: int, g: Field)
    requires HeapOk(v) && HasField(v, p, f) && HasField(v, q, g) && (p != q || f != g)
    ensures Place(v, p, f) + 4 <= Place(v, q, g) || Place(v, q, g) + 4 <= Place(v, p, f)
  {
    if p in v.t { FieldWithin(v, p, f); ChunkHere(v, p); }
    if q in v.t { FieldWithin(v, q, g); ChunkHere(v, q); }
    assert Ordered(v.t, p, q) && Ordered(v.t, q, p);
    hide HeapOk;
  }

  /** No word of the allocator overlaps a byte of a block handed out. */
  lemma FieldsOutsideBlocks(v: View, p: int, f: Field, q: int, a: int)
    requires HeapOk(v) && HasField(v, p, f) && InBlock(Used(v.t), q, a)
    ensures a < Place(v, p, f) || Place(v, p, f) + 4 <= a
    ensures v.base <= a < v.end + TOP_FOOT_SIZE
  {
    if p in v.t { FieldWithin(v, p, f); ChunkHere(v, p); }
    ChunkHere(v, q);
    NextHere(v, q);
    assert Ordered(v.t, p, q) && Ordered(v.t, q, p);
    hide HeapOk;
  }
}
