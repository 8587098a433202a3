/** How dlmalloc finds a small chunk: the shifted small bin map, its two low bits, and the next bin above. */
module SmallSearch {
  import opened Bits
  import opened TreeIndex
  import opened Tries
  import opened BinState
  import opened BestFit

  function Complement(m: Binmap): Binmap { !m }

  /** Some chunk in a bin has size s. */
  ghost predicate HasSize(binned: map<int, nat>, s: nat)
  {
    exists p :: p in binned && binned[p] == s
  }

  /** A small bin is marked exactly when a chunk of its size is in it. */
  lemma SmallBitChunks(b: Bins, i: nat)
    requires BinsOk(b) && i < NSMALLBINS
    ensures Bit(b.smallmap, i) <==> HasSize(b.binned, 8 * i)
  {
    hide Bit, TrieOk;
    assert MapsFit(b, i);
    if 8 * i in b.rings {
      assert RingFits(b, 8 * i);
      assert BinnedAs(b, b.rings[8 * i][1], 8 * i);
    }
    if HasSize(b.binned, 8 * i) {
      var p :| p in b.binned && b.binned[p] == 8 * i;
      assert ChunkFits(b, p);
    }
  }

  lemma LowOfComplement(m: Binmap)
    ensures And(Complement(m), 1) == if Low(m) then 0 else 1
  {}

  /** Bin idx or the one above it is marked, by the two low bits of the shifted map. */
  predicate EitherBin(bits: Binmap) { And(bits, 3) != 0 }

  /** The one of the two to take. */
  function ExactBin(bits: Binmap, idx: nat): int { idx + And(Complement(bits), 1) as int }

  /** The next marked bin above idx. */
  function BinAfter(bits: Binmap, idx: nat): int
  {
    Bit2Idx(LeastBit(And(ShiftLeft(bits, idx), LeftBits(Idx2Bit(idx))))) as int
  }

  /** The two low bits of the shifted map are bins idx and idx + 1. */
  lemma TwoBins(m: Binmap, idx: nat)
    ensures EitherBin(ShiftRight(m, idx)) <==> Bit(m, idx) || Bit(m, idx + 1)
    ensures ExactBin(ShiftRight(m, idx), idx) == if Bit(m, idx) then idx else idx + 1
  {
    var s := ShiftRight(m, idx);
    LowTwo(s);
    LowOfComplement(s);
    BitShiftRight(m, idx, 0);
    BitShiftRight(m, idx, 1);
    hide ShiftRight, And;
    assert Bit(s, 0) <==> Low(s);
    assert Bit(s, 1) <==> Low(Half(s));
  }

  /** With both of those empty, the search above idx finds the lowest marked bin, if any is left. */
  lemma BinAbove(m: Binmap, idx: nat)
    requires idx < 32 && !Bit(m, idx)
    ensures var bits := ShiftRight(m, idx);
            if bits == 0 then forall j :: idx <= j < 32 ==> !Bit(m, j)
            else var i := BinAfter(bits, idx);
                 idx < i < 32 && Bit(m, i) && forall j :: idx <= j < i ==> !Bit(m, j)
  {
    var bits := ShiftRight(m, idx);
    var up := ShiftLeft(bits, idx);
    hide LeftBits, LeastBit, Bit2Idx;
    forall j: nat | idx <= j < 32 ensures (Bit(up, j) <==> Bit(m, j)) && Bit(bits, j - idx) == Bit(m, j) {
      BitShiftLeft(bits, idx, j);
      BitShiftRight(m, idx, j - idx);
    }
    if bits == 0 {
      forall j | idx <= j < 32 ensures !Bit(m, j) { BitZero(j - idx); }
    } else {
      NextBin(up, idx);
      AndOrder(up, LeftBits(Idx2Bit(idx)));
      var k := SomeBit(bits);
      BitShiftRight(m, idx, k);
      BitBelow32(m, idx + k);
      assert Bit(m, idx + k) && k != 0;
    }
  }

  lemma AndOrder(m: Binmap, k: Binmap)
    ensures And(m, k) == And(k, m)
  {}

  /** The tree map is zero exactly when no large chunk is in a bin. */
  lemma TreeMapChunks(b: Bins)
    requires BinsOk(b)
    ensures b.treemap == 0 <==> forall p :: p in b.binned ==> IsSmall(b.binned[p])
  {
    hide Bit, ComputeTreeIndex, Prefix, RootLevel;
    var h := ShapeOf(b);
    RootFits(b.tree, h, 0);
    if b.treemap == 0 {
      forall p | p in b.binned ensures IsSmall(b.binned[p]) {
        if !IsSmall(b.binned[p]) {
          var x := NodeOfSize(b, p);
          RootCovers(b.tree, h, x);
          assert MapsFit(b, BinOf(h, x));
          BitZero(BinOf(h, x));
        }
      }
    } else {
      var i := SomeBit(b.treemap);
      BitBelow32(b.treemap, i);
      assert MapsFit(b, i);
      RootNode(b.tree, h, i);
      assert NodeOk(b.tree, h, b.tree.roots[i]);
    }
  }
}
