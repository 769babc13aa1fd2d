// The expected conversion tables of the conversion test (tests.c), kept as
// constants, and the proof that the tables the setup produces are exactly them.

module ConversionTests {
  import opened Defs
  import Engine

  /** Expected padded -> compact table, one row of the padded board per line. */
  const ExpectedPositionTable: seq<int> :=
    [64, 64, 64, 64, 64, 64, 64, 64, 64, 64] +
    [64, 64, 64, 64, 64, 64, 64, 64, 64, 64] +
    [64,  0,  1,  2,  3,  4,  5,  6,  7, 64] +
    [64,  8,  9, 10, 11, 12, 13, 14, 15, 64] +
    [64, 16, 17, 18, 19, 20, 21, 22, 23, 64] +
    [64, 24, 25, 26, 27, 28, 29, 30, 31, 64] +
    [64, 32, 33, 34, 35, 36, 37, 38, 39, 64] +
    [64, 40, 41, 42, 43, 44, 45, 46, 47, 64] +
    [64, 48, 49, 50, 51, 52, 53, 54, 55, 64] +
    [64, 56, 57, 58, 59, 60, 61, 62, 63, 64] +
    [64, 64, 64, 64, 64, 64, 64, 64, 64, 64] +
    [64, 64, 64, 64, 64, 64, 64, 64, 64, 64]

  /** Expected compact -> padded table, one rank per line. */
  const ExpectedIndexTable: seq<int> :=
    [21, 22, 23, 24, 25, 26, 27, 28] +
    [31, 32, 33, 34, 35, 36, 37, 38] +
    [41, 42, 43, 44, 45, 46, 47, 48] +
    [51, 52, 53, 54, 55, 56, 57, 58] +
    [61, 62, 63, 64, 65, 66, 67, 68] +
    [71, 72, 73, 74, 75, 76, 77, 78] +
    [81, 82, 83, 84, 85, 86, 87, 88] +
    [91, 92, 93, 94, 95, 96, 97, 98]

  /** Padded rows 0 and 1 of the padded -> compact table agree with the expected rows. */
  lemma PositionRowsMatch0To1()
    ensures forall p :: 0 <= p < 20 ==> Engine.PositionTable()[p] == ExpectedPositionTable[p]
  {
    forall p | 0 <= p < 10
      ensures Engine.PositionTable()[p] == ExpectedPositionTable[p]
    {
      assert p / 10 == 0 && p % 10 == p - 0;
    }
    forall p | 10 <= p < 20
      ensures Engine.PositionTable()[p] == ExpectedPositionTable[p]
    {
      assert p / 10 == 1 && p % 10 == p - 10;
    }
  }

  /** Padded rows 2 and 3 of the padded -> compact table agree with the expected rows. */
  lemma PositionRowsMatch2To3()
    ensures forall p :: 20 <= p < 40 ==> Engine.PositionTable()[p] == ExpectedPositionTable[p]
  {
    forall p | 20 <= p < 30
      ensures Engine.PositionTable()[p] == ExpectedPositionTable[p]
    {
      assert p / 10 == 2 && p % 10 == p - 20;
    }
    forall p | 30 <= p < 40
      ensures Engine.PositionTable()[p] == ExpectedPositionTable[p]
    {
      assert p / 10 == 3 && p % 10 == p - 30;
    }
  }

  /** Padded rows 4 and 5 of the padded -> compact table agree with the expected rows. */
  lemma PositionRowsMatch4To5()
    ensures forall p :: 40 <= p < 60 ==> Engine.PositionTable()[p] == ExpectedPositionTable[p]
  {
    forall p | 40 <= p < 50
      ensures Engine.PositionTable()[p] == ExpectedPositionTable[p]
    {
      assert p / 10 == 4 && p % 10 == p - 40;
    }
    forall p | 50 <= p < 60
      ensures Engine.PositionTable()[p] == ExpectedPositionTable[p]
    {
      assert p / 10 == 5 && p % 10 == p - 50;
    }
  }

  /** Padded rows 6 and 7 of the padded -> compact table agree with the expected rows. */
  lemma PositionRowsMatch6To7()
    ensures forall p :: 60 <= p < 80 ==> Engine.PositionTable()[p] == ExpectedPositionTable[p]
  {
    forall p | 60 <= p < 70
      ensures Engine.PositionTable()[p] == ExpectedPositionTable[p]
    {
      assert p / 10 == 6 && p % 10 == p - 60;
    }
    forall p | 70 <= p < 80
      ensures Engine.PositionTable()[p] == ExpectedPositionTable[p]
    {
      assert p / 10 == 7 && p % 10 == p - 70;
    }
  }

  /** Padded rows 8 and 9 of the padded -> compact table agree with the expected rows. */
  lemma PositionRowsMatch8To9()
    ensures forall p :: 80 <= p < 100 ==> Engine.PositionTable()[p] == ExpectedPositionTable[p]
  {
    forall p | 80 <= p < 90
      ensures Engine.PositionTable()[p] == ExpectedPositionTable[p]
    {
      assert p / 10 == 8 && p % 10 == p - 80;
    }
    forall p | 90 <= p < 100
      ensures Engine.PositionTable()[p] == ExpectedPositionTable[p]
    {
      assert p / 10 == 9 && p % 10 == p - 90;
    }
  }

  /** Padded rows 10 and 11 of the padded -> compact table agree with the expected rows. */
  lemma PositionRowsMatch10To11()
    ensures forall p :: 100 <= p < 120 ==> Engine.PositionTable()[p] == ExpectedPositionTable[p]
  {
    forall p | 100 <= p < 110
      ensures Engine.PositionTable()[p] == ExpectedPositionTable[p]
    {
      assert p / 10 == 10 && p % 10 == p - 100;
    }
    forall p | 110 <= p < 120
      ensures Engine.PositionTable()[p] == ExpectedPositionTable[p]
    {
      assert p / 10 == 11 && p % 10 == p - 110;
    }
  }

  /** The padded -> compact table built by the setup is exactly the expected one. */
  lemma PositionTableMatches()
    ensures Engine.PositionTable() == ExpectedPositionTable
  {
    PositionRowsMatch0To1();
    PositionRowsMatch2To3();
    PositionRowsMatch4To5();
    PositionRowsMatch6To7();
    PositionRowsMatch8To9();
    PositionRowsMatch10To11();
  }

  /** Ranks 1..4 of the compact -> padded table agree with the expected ranks. */
  lemma IndexRanksMatch1To4()
    ensures forall i :: 0 <= i < 32 ==> Engine.IndexTable()[i] == ExpectedIndexTable[i]
  {
    forall i | 0 <= i < 8
      ensures Engine.IndexTable()[i] == ExpectedIndexTable[i]
    {
      assert i / 8 == 0 && i % 8 == i - 0;
    }
    forall i | 8 <= i < 16
      ensures Engine.IndexTable()[i] == ExpectedIndexTable[i]
    {
      assert i / 8 == 1 && i % 8 == i - 8;
    }
    forall i | 16 <= i < 24
      ensures Engine.IndexTable()[i] == ExpectedIndexTable[i]
    {
      assert i / 8 == 2 && i % 8 == i - 16;
    }
    forall i | 24 <= i < 32
      ensures Engine.IndexTable()[i] == ExpectedIndexTable[i]
    {
      assert i / 8 == 3 && i % 8 == i - 24;
    }
  }

  /** Ranks 5..8 of the compact -> padded table agree with the expected ranks. */
  lemma IndexRanksMatch5To8()
    ensures forall i :: 32 <= i < 64 ==> Engine.IndexTable()[i] == ExpectedIndexTable[i]
  {
    forall i | 32 <= i < 40
      ensures Engine.IndexTable()[i] == ExpectedIndexTable[i]
    {
      assert i / 8 == 4 && i % 8 == i - 32;
    }
    forall i | 40 <= i < 48
      ensures Engine.IndexTable()[i] == ExpectedIndexTable[i]
    {
      assert i / 8 == 5 && i % 8 == i - 40;
    }
    forall i | 48 <= i < 56
      ensures Engine.IndexTable()[i] == ExpectedIndexTable[i]
    {
      assert i / 8 == 6 && i % 8 == i - 48;
    }
    forall i | 56 <= i < 64
      ensures Engine.IndexTable()[i] == ExpectedIndexTable[i]
    {
      assert i / 8 == 7 && i % 8 == i - 56;
    }
  }

  /** The compact -> padded table built by the setup is exactly the expected one. */
  lemma IndexTableMatches()
    ensures Engine.IndexTable() == ExpectedIndexTable
  {
    IndexRanksMatch1To4();
    IndexRanksMatch5To8();
  }
}
