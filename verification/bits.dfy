// Vocabulary for 64-bit bitboards: single-bit masks, bit tests, the lowest
// set bit and the population count, defined bit by bit so that the engine's
// word-level tricks can be stated and checked against them.

module Bits {

  /** A bit position of a 64-bit word. */
  type Idx = k: bv8 | k < 64

  /** A bit position survives the trip through int. */
  lemma IdxRoundTrip(k: Idx)
    ensures (k as int) as Idx == k
  {
  }

  const AllOnes: bv64 := 0xffff_ffff_ffff_ffff

  /** The word with only bit k set. */
  function Bit(k: Idx): bv64 {
    (1 as bv64) << k
  }

  /** Bit k of bb is 1. */
  predicate IsSet(bb: bv64, k: Idx) {
    bb & Bit(k) != 0
  }

  /** The word whose bits 0..k-1 are 1 and whose other bits are 0. */
  function LowMask(k: bv8): bv64
    requires k <= 64
  {
    ((1 as bv64) << k) - 1
  }

  /** Bits 0..k-1 of bb are all 0. */
  predicate NoneBelow(bb: bv64, k: Idx) {
    bb & LowMask(k) == 0
  }

  lemma NoneBelowNext(bb: bv64, k: Idx)
    requires bb != 0 && NoneBelow(bb, k) && !IsSet(bb, k)
    ensures k < 63 && NoneBelow(bb, k + 1)
  {
  }

  /** The lowest set bit of bb at or above k, when none of the bits below k is set. */
  function LowestSetBitFrom(bb: bv64, k: Idx): (r: Idx)
    requires bb != 0 && NoneBelow(bb, k)
    ensures k <= r && IsSet(bb, r) && NoneBelow(bb, r)
    decreases 64 - k
  {
    if IsSet(bb, k) then k
    else
      NoneBelowNext(bb, k);
      LowestSetBitFrom(bb, k + 1)
  }

  /** Index of the lowest set bit of a non-zero word: it is set, and no bit below it is. */
  function LowestSetBit(bb: bv64): (r: Idx)
    requires bb != 0
    ensures IsSet(bb, r) && NoneBelow(bb, r)
  {
    LowestSetBitFrom(bb, 0)
  }

  /** Clearing bit k keeps every other bit and clears bit k. */
  lemma ClearBitEffect(bb: bv64, k: Idx, j: Idx)
    ensures IsSet(bb & !Bit(k), j) <==> IsSet(bb, j) && j != k
  {
  }

  /** The bit positions 0..n-1. */
  ghost function Positions(n: bv8): set<Idx>
    requires n <= 64
    decreases n
  {
    if n == 0 then {} else Positions(n - 1) + {n - 1}
  }

  /** Positions(n) holds exactly the positions below n, so it has n elements. */
  lemma {:induction false} PositionsSize(n: bv8)
    requires n <= 64
    ensures |Positions(n)| == n as int
    ensures forall k: Idx :: k in Positions(n) <==> k < n
    decreases n
  {
    if n > 0 {
      PositionsSize(n - 1);
      assert n - 1 !in Positions(n - 1);
      assert |Positions(n)| == |Positions(n - 1)| + 1;
      assert (n - 1) as int == n as int - 1;
    }
  }

  /** The positions of the set bits of bb. */
  ghost function SetBits(bb: bv64): set<Idx> {
    set k | k in Positions(64) && IsSet(bb, k)
  }

  /** Number of set bits of bb. */
  ghost function PopCount(bb: bv64): nat {
    |SetBits(bb)|
  }

  /** Clearing a set bit lowers the count by exactly one. */
  lemma ClearBitCount(bb: bv64, k: Idx)
    requires IsSet(bb, k)
    ensures PopCount(bb & !Bit(k)) == PopCount(bb) - 1
  {
    forall j: Idx
      ensures j in SetBits(bb & !Bit(k)) <==> j in SetBits(bb) - {k}
    {
      ClearBitEffect(bb, k, j);
    }
    assert SetBits(bb & !Bit(k)) == SetBits(bb) - {k};
    PositionsSize(64);
    assert k in SetBits(bb);
  }

  lemma SubsetSize(a: set<Idx>, b: set<Idx>)
    requires a <= b
    ensures |a| <= |b|
  {
    assert b == a + (b - a);
  }

  /** A word has no set bit exactly when it is 0, and never more than 64. */
  lemma PopCountRange(bb: bv64)
    ensures PopCount(bb) <= 64
    ensures PopCount(bb) == 0 <==> bb == 0
  {
    PositionsSize(64);
    SubsetSize(SetBits(bb), Positions(64));
    if bb == 0 {
      assert SetBits(bb) == {};
    } else {
      var r := LowestSetBit(bb);
      assert r in Positions(64) && IsSet(bb, r);
      assert r in SetBits(bb);
    }
  }

  /** For a non-zero word with lowest set bit k, bb - 1 flips exactly bits 0..k:
      bb ^ (bb - 1) is the mask of bits 0..k and bb & (bb - 1) is bb with bit k cleared. */
  lemma LowestBitArithmetic(bb: bv64)
    requires bb != 0
    ensures bb ^ (bb - 1) == LowMask(LowestSetBit(bb) + 1)
    ensures bb & (bb - 1) == bb & !Bit(LowestSetBit(bb))
  {
    IsolateLowest(bb, LowestSetBit(bb));
  }

  lemma IsolateLowest(bb: bv64, k: Idx)
    requires IsSet(bb, k) && NoneBelow(bb, k)
    ensures bb ^ (bb - 1) == LowMask(k + 1)
    ensures bb & (bb - 1) == bb & !Bit(k)
  {
  }

  /** bb & (bb - 1) has exactly one set bit fewer than a non-zero bb. */
  lemma PopCountDropLowest(bb: bv64)
    requires bb != 0
    ensures PopCount(bb & (bb - 1)) == PopCount(bb) - 1
  {
    LowestBitArithmetic(bb);
    ClearBitCount(bb, LowestSetBit(bb));
  }
}
