// Bitboard primitives (bitboard.c): extracting the lowest set bit with a
// folding multiply and a 64-entry lookup table, and counting set bits.

module Bitboard {
  import opened Bits

  /** Lookup table indexed by the top six bits of the folded, multiplied
      lowest-bit mask; entry s is the bit index whose mask lands on slot s. */
  const BitTable: seq<int> :=
    [63, 30,  3, 32, 25, 41, 22, 33] +
    [15, 50, 42, 13, 11, 53, 19, 34] +
    [61, 29,  2, 51, 21, 43, 45, 10] +
    [18, 47,  1, 54,  9, 57,  0, 35] +
    [62, 31, 40,  4, 49,  5, 52, 26] +
    [60,  6, 23, 44, 46, 27, 56, 16] +
    [ 7, 39, 48, 24, 59, 14, 12, 55] +
    [38, 28, 58, 20, 37, 17, 36,  8]

  /** The multiplier of the lookup hash. */
  const Magic: bv32 := 0x783a9b23

  /** Folds a 64-bit word to 32 bits: low half XOR high half. */
  function Fold(bit: bv64): bv32 {
    ((bit & 0xffff_ffff) ^ (bit >> 32)) as bv32
  }

  /** A word made of a high and a low 32-bit half folds to the exclusive-or of
      the two halves. */
  lemma FoldHalves(low: bv32, high: bv32)
    ensures Fold(((high as bv64) << 32) | (low as bv64)) == low ^ high
  {
  }

  /** Table slot of a folded word: times Magic, wrapping at 32 bits, top six bits. */
  function Slot(fold: bv32): (s: int)
    ensures 0 <= s < 64
  {
    ((fold * Magic) >> 26) as int
  }

  /** Table slot of a 64-bit word. */
  function MagicSlot(bit: bv64): (s: int)
    ensures 0 <= s < 64
  {
    Slot(Fold(bit))
  }

  /** Where each bit index sits in BitTable: the inverse of the table, used
      only to reason about it. */
  const SlotOfBit: seq<int> :=
    [30, 26, 18,  2, 35, 37, 41, 48] +
    [63, 28, 23, 12, 54, 11, 53,  8] +
    [47, 61, 24, 14, 59, 20,  6, 42] +
    [51,  4, 39, 45, 57, 17,  1, 33] +
    [ 3,  7, 15, 31, 62, 60, 56, 49] +
    [34,  5, 10, 21, 43, 22, 44, 25] +
    [50, 36,  9, 19, 38, 13, 27, 55] +
    [46, 29, 58, 52, 40, 16, 32,  0]

  /** Every table entry is a bit index. */
  lemma BitTableRange()
    ensures forall s :: 0 <= s < 64 ==> 0 <= BitTable[s] < 64
  {
    InverseRowLeft0();
    InverseRowLeft1();
    InverseRowLeft2();
    InverseRowLeft3();
    InverseRowLeft4();
    InverseRowLeft5();
    InverseRowLeft6();
    InverseRowLeft7();
  }

  // SlotOfBit undoes BitTable and BitTable undoes SlotOfBit, one row of eight at a time.
  // The fact is split into sixteen row lemmas because one lemma over all 64
  // entries runs out of the verifier's resource limit.

  lemma InverseRowLeft0()
    ensures forall s :: 0 <= s < 8 ==> 0 <= BitTable[s] < 64 && SlotOfBit[BitTable[s]] == s
  {
  }

  lemma InverseRowLeft1()
    ensures forall s :: 8 <= s < 16 ==> 0 <= BitTable[s] < 64 && SlotOfBit[BitTable[s]] == s
  {
  }

  lemma InverseRowLeft2()
    ensures forall s :: 16 <= s < 24 ==> 0 <= BitTable[s] < 64 && SlotOfBit[BitTable[s]] == s
  {
  }

  lemma InverseRowLeft3()
    ensures forall s :: 24 <= s < 32 ==> 0 <= BitTable[s] < 64 && SlotOfBit[BitTable[s]] == s
  {
  }

  lemma InverseRowLeft4()
    ensures forall s :: 32 <= s < 40 ==> 0 <= BitTable[s] < 64 && SlotOfBit[BitTable[s]] == s
  {
  }

  lemma InverseRowLeft5()
    ensures forall s :: 40 <= s < 48 ==> 0 <= BitTable[s] < 64 && SlotOfBit[BitTable[s]] == s
  {
  }

  lemma InverseRowLeft6()
    ensures forall s :: 48 <= s < 56 ==> 0 <= BitTable[s] < 64 && SlotOfBit[BitTable[s]] == s
  {
  }

  lemma InverseRowLeft7()
    ensures forall s :: 56 <= s < 64 ==> 0 <= BitTable[s] < 64 && SlotOfBit[BitTable[s]] == s
  {
  }

  lemma InverseRowRight0()
    ensures forall k :: 0 <= k < 8 ==> 0 <= SlotOfBit[k] < 64 && BitTable[SlotOfBit[k]] == k
  {
  }

  lemma InverseRowRight1()
    ensures forall k :: 8 <= k < 16 ==> 0 <= SlotOfBit[k] < 64 && BitTable[SlotOfBit[k]] == k
  {
  }

  lemma InverseRowRight2()
    ensures forall k :: 16 <= k < 24 ==> 0 <= SlotOfBit[k] < 64 && BitTable[SlotOfBit[k]] == k
  {
  }

  lemma InverseRowRight3()
    ensures forall k :: 24 <= k < 32 ==> 0 <= SlotOfBit[k] < 64 && BitTable[SlotOfBit[k]] == k
  {
  }

  lemma InverseRowRight4()
    ensures forall k :: 32 <= k < 40 ==> 0 <= SlotOfBit[k] < 64 && BitTable[SlotOfBit[k]] == k
  {
  }

  lemma InverseRowRight5()
    ensures forall k :: 40 <= k < 48 ==> 0 <= SlotOfBit[k] < 64 && BitTable[SlotOfBit[k]] == k
  {
  }

  lemma InverseRowRight6()
    ensures forall k :: 48 <= k < 56 ==> 0 <= SlotOfBit[k] < 64 && BitTable[SlotOfBit[k]] == k
  {
  }

  lemma InverseRowRight7()
    ensures forall k :: 56 <= k < 64 ==> 0 <= SlotOfBit[k] < 64 && BitTable[SlotOfBit[k]] == k
  {
  }

  /** The table is a permutation of 0..63: every entry in range, no entry
      repeated, every bit index present. */
  lemma BitTablePermutation()
    ensures |BitTable| == 64
    ensures forall s :: 0 <= s < 64 ==> 0 <= BitTable[s] < 64
    ensures forall s, t :: 0 <= s < t < 64 ==> BitTable[s] != BitTable[t]
    ensures forall k :: 0 <= k < 64 ==> k in BitTable
  {
    InverseRowLeft0();
    InverseRowLeft1();
    InverseRowLeft2();
    InverseRowLeft3();
    InverseRowLeft4();
    InverseRowLeft5();
    InverseRowLeft6();
    InverseRowLeft7();
    InverseRowRight0();
    InverseRowRight1();
    InverseRowRight2();
    InverseRowRight3();
    InverseRowRight4();
    InverseRowRight5();
    InverseRowRight6();
    InverseRowRight7();
    forall k | 0 <= k < 64
      ensures k in BitTable
    {
      assert BitTable[SlotOfBit[k]] == k;
    }
  }

  // The lookup, entry by entry: the mask of bits 0..k lands on the slot holding k.
  // Each entry is its own lemma, and the rows of eight below case-split over
  // them, because the solver only evaluates the 32-bit hash on a literal k
  // and one lemma over symbolic k runs out of the verifier's resource limit.

  lemma BitTableEntry0() ensures BitTable[MagicSlot(LowMask(1))] == 0 { }
  lemma BitTableEntry1() ensures BitTable[MagicSlot(LowMask(2))] == 1 { }
  lemma BitTableEntry2() ensures BitTable[MagicSlot(LowMask(3))] == 2 { }
  lemma BitTableEntry3() ensures BitTable[MagicSlot(LowMask(4))] == 3 { }
  lemma BitTableEntry4() ensures BitTable[MagicSlot(LowMask(5))] == 4 { }
  lemma BitTableEntry5() ensures BitTable[MagicSlot(LowMask(6))] == 5 { }
  lemma BitTableEntry6() ensures BitTable[MagicSlot(LowMask(7))] == 6 { }
  lemma BitTableEntry7() ensures BitTable[MagicSlot(LowMask(8))] == 7 { }
  lemma BitTableEntry8() ensures BitTable[MagicSlot(LowMask(9))] == 8 { }
  lemma BitTableEntry9() ensures BitTable[MagicSlot(LowMask(10))] == 9 { }
  lemma BitTableEntry10() ensures BitTable[MagicSlot(LowMask(11))] == 10 { }
  lemma BitTableEntry11() ensures BitTable[MagicSlot(LowMask(12))] == 11 { }
  lemma BitTableEntry12() ensures BitTable[MagicSlot(LowMask(13))] == 12 { }
  lemma BitTableEntry13() ensures BitTable[MagicSlot(LowMask(14))] == 13 { }
  lemma BitTableEntry14() ensures BitTable[MagicSlot(LowMask(15))] == 14 { }
  lemma BitTableEntry15() ensures BitTable[MagicSlot(LowMask(16))] == 15 { }
  lemma BitTableEntry16() ensures BitTable[MagicSlot(LowMask(17))] == 16 { }
  lemma BitTableEntry17() ensures BitTable[MagicSlot(LowMask(18))] == 17 { }
  lemma BitTableEntry18() ensures BitTable[MagicSlot(LowMask(19))] == 18 { }
  lemma BitTableEntry19() ensures BitTable[MagicSlot(LowMask(20))] == 19 { }
  lemma BitTableEntry20() ensures BitTable[MagicSlot(LowMask(21))] == 20 { }
  lemma BitTableEntry21() ensures BitTable[MagicSlot(LowMask(22))] == 21 { }
  lemma BitTableEntry22() ensures BitTable[MagicSlot(LowMask(23))] == 22 { }
  lemma BitTableEntry23() ensures BitTable[MagicSlot(LowMask(24))] == 23 { }
  lemma BitTableEntry24() ensures BitTable[MagicSlot(LowMask(25))] == 24 { }
  lemma BitTableEntry25() ensures BitTable[MagicSlot(LowMask(26))] == 25 { }
  lemma BitTableEntry26() ensures BitTable[MagicSlot(LowMask(27))] == 26 { }
  lemma BitTableEntry27() ensures BitTable[MagicSlot(LowMask(28))] == 27 { }
  lemma BitTableEntry28() ensures BitTable[MagicSlot(LowMask(29))] == 28 { }
  lemma BitTableEntry29() ensures BitTable[MagicSlot(LowMask(30))] == 29 { }
  lemma BitTableEntry30() ensures BitTable[MagicSlot(LowMask(31))] == 30 { }
  lemma BitTableEntry31() ensures BitTable[MagicSlot(LowMask(32))] == 31 { }
  lemma BitTableEntry32() ensures BitTable[MagicSlot(LowMask(33))] == 32 { }
  lemma BitTableEntry33() ensures BitTable[MagicSlot(LowMask(34))] == 33 { }
  lemma BitTableEntry34() ensures BitTable[MagicSlot(LowMask(35))] == 34 { }
  lemma BitTableEntry35() ensures BitTable[MagicSlot(LowMask(36))] == 35 { }
  lemma BitTableEntry36() ensures BitTable[MagicSlot(LowMask(37))] == 36 { }
  lemma BitTableEntry37() ensures BitTable[MagicSlot(LowMask(38))] == 37 { }
  lemma BitTableEntry38() ensures BitTable[MagicSlot(LowMask(39))] == 38 { }
  lemma BitTableEntry39() ensures BitTable[MagicSlot(LowMask(40))] == 39 { }
  lemma BitTableEntry40() ensures BitTable[MagicSlot(LowMask(41))] == 40 { }
  lemma BitTableEntry41() ensures BitTable[MagicSlot(LowMask(42))] == 41 { }
  lemma BitTableEntry42() ensures BitTable[MagicSlot(LowMask(43))] == 42 { }
  lemma BitTableEntry43() ensures BitTable[MagicSlot(LowMask(44))] == 43 { }
  lemma BitTableEntry44() ensures BitTable[MagicSlot(LowMask(45))] == 44 { }
  lemma BitTableEntry45() ensures BitTable[MagicSlot(LowMask(46))] == 45 { }
  lemma BitTableEntry46() ensures BitTable[MagicSlot(LowMask(47))] == 46 { }
  lemma BitTableEntry47() ensures BitTable[MagicSlot(LowMask(48))] == 47 { }
  lemma BitTableEntry48() ensures BitTable[MagicSlot(LowMask(49))] == 48 { }
  lemma BitTableEntry49() ensures BitTable[MagicSlot(LowMask(50))] == 49 { }
  lemma BitTableEntry50() ensures BitTable[MagicSlot(LowMask(51))] == 50 { }
  lemma BitTableEntry51() ensures BitTable[MagicSlot(LowMask(52))] == 51 { }
  lemma BitTableEntry52() ensures BitTable[MagicSlot(LowMask(53))] == 52 { }
  lemma BitTableEntry53() ensures BitTable[MagicSlot(LowMask(54))] == 53 { }
  lemma BitTableEntry54() ensures BitTable[MagicSlot(LowMask(55))] == 54 { }
  lemma BitTableEntry55() ensures BitTable[MagicSlot(LowMask(56))] == 55 { }
  lemma BitTableEntry56() ensures BitTable[MagicSlot(LowMask(57))] == 56 { }
  lemma BitTableEntry57() ensures BitTable[MagicSlot(LowMask(58))] == 57 { }
  lemma BitTableEntry58() ensures BitTable[MagicSlot(LowMask(59))] == 58 { }
  lemma BitTableEntry59() ensures BitTable[MagicSlot(LowMask(60))] == 59 { }
  lemma BitTableEntry60() ensures BitTable[MagicSlot(LowMask(61))] == 60 { }
  lemma BitTableEntry61() ensures BitTable[MagicSlot(LowMask(62))] == 61 { }
  lemma BitTableEntry62() ensures BitTable[MagicSlot(LowMask(63))] == 62 { }
  lemma BitTableEntry63() ensures BitTable[MagicSlot(LowMask(64))] == 63 { }

  lemma BitTableFindsBitRow0(k: Idx)
    requires 0 <= k < 8
    ensures BitTable[MagicSlot(LowMask(k + 1))] == k as int
  {
    if k == 0 {
      BitTableEntry0();
    } else if k == 1 {
      BitTableEntry1();
    } else if k == 2 {
      BitTableEntry2();
    } else if k == 3 {
      BitTableEntry3();
    } else if k == 4 {
      BitTableEntry4();
    } else if k == 5 {
      BitTableEntry5();
    } else if k == 6 {
      BitTableEntry6();
    } else if k == 7 {
      BitTableEntry7();
    }
  }

  lemma BitTableFindsBitRow1(k: Idx)
    requires 8 <= k < 16
    ensures BitTable[MagicSlot(LowMask(k + 1))] == k as int
  {
    if k == 8 {
      BitTableEntry8();
    } else if k == 9 {
      BitTableEntry9();
    } else if k == 10 {
      BitTableEntry10();
    } else if k == 11 {
      BitTableEntry11();
    } else if k == 12 {
      BitTableEntry12();
    } else if k == 13 {
      BitTableEntry13();
    } else if k == 14 {
      BitTableEntry14();
    } else if k == 15 {
      BitTableEntry15();
    }
  }

  lemma BitTableFindsBitRow2(k: Idx)
    requires 16 <= k < 24
    ensures BitTable[MagicSlot(LowMask(k + 1))] == k as int
  {
    if k == 16 {
      BitTableEntry16();
    } else if k == 17 {
      BitTableEntry17();
    } else if k == 18 {
      BitTableEntry18();
    } else if k == 19 {
      BitTableEntry19();
    } else if k == 20 {
      BitTableEntry20();
    } else if k == 21 {
      BitTableEntry21();
    } else if k == 22 {
      BitTableEntry22();
    } else if k == 23 {
      BitTableEntry23();
    }
  }

  lemma BitTableFindsBitRow3(k: Idx)
    requires 24 <= k < 32
    ensures BitTable[MagicSlot(LowMask(k + 1))] == k as int
  {
    if k == 24 {
      BitTableEntry24();
    } else if k == 25 {
      BitTableEntry25();
    } else if k == 26 {
      BitTableEntry26();
    } else if k == 27 {
      BitTableEntry27();
    } else if k == 28 {
      BitTableEntry28();
    } else if k == 29 {
      BitTableEntry29();
    } else if k == 30 {
      BitTableEntry30();
    } else if k == 31 {
      BitTableEntry31();
    }
  }

  lemma BitTableFindsBitRow4(k: Idx)
    requires 32 <= k < 40
    ensures BitTable[MagicSlot(LowMask(k + 1))] == k as int
  {
    if k == 32 {
      BitTableEntry32();
    } else if k == 33 {
      BitTableEntry33();
    } else if k == 34 {
      BitTableEntry34();
    } else if k == 35 {
      BitTableEntry35();
    } else if k == 36 {
      BitTableEntry36();
    } else if k == 37 {
      BitTableEntry37();
    } else if k == 38 {
      BitTableEntry38();
    } else if k == 39 {
      BitTableEntry39();
    }
  }

  lemma BitTableFindsBitRow5(k: Idx)
    requires 40 <= k < 48
    ensures BitTable[MagicSlot(LowMask(k + 1))] == k as int
  {
    if k == 40 {
      BitTableEntry40();
    } else if k == 41 {
      BitTableEntry41();
    } else if k == 42 {
      BitTableEntry42();
    } else if k == 43 {
      BitTableEntry43();
    } else if k == 44 {
      BitTableEntry44();
    } else if k == 45 {
      BitTableEntry45();
    } else if k == 46 {
      BitTableEntry46();
    } else if k == 47 {
      BitTableEntry47();
    }
  }

  lemma BitTableFindsBitRow6(k: Idx)
    requires 48 <= k < 56
    ensures BitTable[MagicSlot(LowMask(k + 1))] == k as int
  {
    if k == 48 {
      BitTableEntry48();
    } else if k == 49 {
      BitTableEntry49();
    } else if k == 50 {
      BitTableEntry50();
    } else if k == 51 {
      BitTableEntry51();
    } else if k == 52 {
      BitTableEntry52();
    } else if k == 53 {
      BitTableEntry53();
    } else if k == 54 {
      BitTableEntry54();
    } else if k == 55 {
      BitTableEntry55();
    }
  }

  lemma BitTableFindsBitRow7(k: Idx)
    requires 56 <= k < 64
    ensures BitTable[MagicSlot(LowMask(k + 1))] == k as int
  {
    if k == 56 {
      BitTableEntry56();
    } else if k == 57 {
      BitTableEntry57();
    } else if k == 58 {
      BitTableEntry58();
    } else if k == 59 {
      BitTableEntry59();
    } else if k == 60 {
      BitTableEntry60();
    } else if k == 61 {
      BitTableEntry61();
    } else if k == 62 {
      BitTableEntry62();
    } else if k == 63 {
      BitTableEntry63();
    }
  }

  /** For each bit index k, the mask of bits 0..k lands on the slot holding k. */
  lemma BitTableFindsBit(k: Idx)
    ensures BitTable[MagicSlot(LowMask(k + 1))] == k as int
  {
    if k < 8 {
      BitTableFindsBitRow0(k);
    } else if k < 16 {
      BitTableFindsBitRow1(k);
    } else if k < 24 {
      BitTableFindsBitRow2(k);
    } else if k < 32 {
      BitTableFindsBitRow3(k);
    } else if k < 40 {
      BitTableFindsBitRow4(k);
    } else if k < 48 {
      BitTableFindsBitRow5(k);
    } else if k < 56 {
      BitTableFindsBitRow6(k);
    } else {
      BitTableFindsBitRow7(k);
    }
  }

  /** What PopBit computes from the word w it is given: the lookup finds the
      lowest set bit and w & (w - 1) clears exactly that bit, so one set bit
      fewer remains; a zero word looks up slot 0, which holds 63, and stays zero. */
  lemma PopBitLookup(w: bv64)
    ensures w != 0 ==> BitTable[MagicSlot(w ^ (w - 1))] == LowestSetBit(w) as int
    ensures w != 0 ==> w & (w - 1) == w & !Bit(LowestSetBit(w))
    ensures w != 0 ==> PopCount(w & (w - 1)) == PopCount(w) - 1
    ensures w == 0 ==> BitTable[MagicSlot(w ^ (w - 1))] == 63 && w & (w - 1) == 0
  {
    if w != 0 {
      LowestBitArithmetic(w);
      BitTableFindsBit(LowestSetBit(w));
      PopCountDropLowest(w);
    } else {
      assert w ^ (w - 1) == LowMask(64);
      BitTableFindsBit(63);
    }
  }

  /** The 64-bit word that PopBit receives by pointer and updates in place. */
  class BitboardCell {
    var bits: bv64

    constructor (bits: bv64)
      ensures this.bits == bits
    {
      this.bits := bits;
    }
  }

  /** What PopBit promises for the word w it is given: the word left behind
      is w & (w - 1); for a non-zero w, index is the position of its lowest
      set bit, that bit alone is cleared and one set bit fewer remains; a
      zero word stays zero and yields 63. */
  ghost predicate PopsLowestBit(w: bv64, index: int, after: bv64) {
    after == w & (w - 1) &&
    0 <= index < 64 &&
    (w != 0 ==>
       index == LowestSetBit(w) as int &&
       after == w & !Bit(LowestSetBit(w)) &&
       PopCount(after) == PopCount(w) - 1) &&
    (w == 0 ==> index == 63 && after == 0)
  }

  /** The index and word PopBit computes from w meet its promise. */
  lemma PopBitOutcome(w: bv64, index: int, cleared: bv64)
    requires cleared == w & (w - 1)
    requires index == BitTable[MagicSlot(w ^ (w - 1))]
    ensures PopsLowestBit(w, index, cleared)
  {
    PopBitLookup(w);
    BitTableRange();
  }

  /** Clears the lowest set bit of bb.bits and returns its index. */
  method PopBit(bb: BitboardCell) returns (index: int)
    modifies bb
    ensures PopsLowestBit(old(bb.bits), index, bb.bits)
  {
    var w := bb.bits;
    var bit := w ^ (w - 1);
    var fold := Fold(bit);
    var cleared := w & (w - 1);
    index := BitTable[Slot(fold)];
    PopBitOutcome(w, index, cleared);
    bb.bits := cleared;
  }

  /** Counts the set bits of bb by clearing the lowest one until none is left. */
  method CountBit(bb: bv64) returns (count: int)
    ensures count == PopCount(bb)
    ensures 0 <= count <= 64
    ensures count == 0 <==> bb == 0
  {
    PopCountRange(bb);
    var b := bb;
    count := 0;
    while b != 0
      invariant count + PopCount(b) == PopCount(bb)
      invariant 0 <= count <= 64
      decreases PopCount(b)
    {
      PopCountDropLowest(b);
      b := b & (b - 1);
      count := count + 1;
    }
  }
}
