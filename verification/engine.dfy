// The coordinate system of the padded board (engine.c): the formula that
// places a (file, rank) pair on the 12x10 board, and the two lookup tables
// between padded squares and the compact 0..63 numbering of the real squares.

module Engine {
  import opened Defs

  /** Padded square of the given file and rank: ten slots per row, two border
      rows below the board and one border file on its left. */
  function GetPosition(file: int, rank: int): (p: int)
    ensures 0 <= file < 8 && 0 <= rank < 8 ==>
              21 <= p <= 98 && p % 10 == file + 1 && p / 10 == rank + 2
  {
    rank * 10 + file + 21
  }

  /** File (0..7 on the board) of a padded square. */
  function FileOf(p: int): int { p % 10 - 1 }

  /** Rank (0..7 on the board) of a padded square. */
  function RankOf(p: int): int { p / 10 - 2 }

  /** A padded slot is a real square when its row and column both fall inside the 8x8 area. */
  predicate OnBoard(p: int) {
    0 <= FileOf(p) < 8 && 0 <= RankOf(p) < 8
  }

  /** The compact index a padded square should carry: rank-major, file-minor
      numbering for real squares, IndexSize (the off-board index) for border slots. */
  function IndexOf(p: int): int {
    if OnBoard(p) then RankOf(p) * 8 + FileOf(p) else IndexSize
  }

  /** The padded square a compact index should carry. */
  function PositionOf(i: int): int {
    GetPosition(i % 8, i / 8)
  }

  /** The complete padded -> compact table the setup must produce. */
  function PositionTable(): (t: seq<int>)
    ensures |t| == PositionSize
  {
    seq(PositionSize, p => IndexOf(p))
  }

  /** The complete compact -> padded table the setup must produce. */
  function IndexTable(): (t: seq<int>)
    ensures |t| == IndexSize
  {
    seq(IndexSize, i => PositionOf(i))
  }

  /** The padded square of (file, rank) decodes back to that file and rank. */
  lemma GetPositionDecodes(file: int, rank: int)
    requires 0 <= file < 8 && 0 <= rank < 8
    ensures OnBoard(GetPosition(file, rank))
    ensures FileOf(GetPosition(file, rank)) == file && RankOf(GetPosition(file, rank)) == rank
    ensures IndexOf(GetPosition(file, rank)) == rank * 8 + file
  {
  }

  /** The compact index rank * 8 + file splits back into its rank and file. */
  lemma CompactIndexSplits(file: int, rank: int)
    requires 0 <= file < 8 && 0 <= rank < 8
    ensures (rank * 8 + file) % 8 == file && (rank * 8 + file) / 8 == rank
    ensures PositionOf(rank * 8 + file) == GetPosition(file, rank)
  {
  }

  /** Round trip through both tables, starting from a compact index. */
  lemma IndexRoundTrip(i: int)
    requires 0 <= i < IndexSize
    ensures OnBoard(PositionOf(i)) && 0 <= PositionOf(i) < PositionSize
    ensures IndexOf(PositionOf(i)) == i
  {
    GetPositionDecodes(i % 8, i / 8);
  }

  /** Round trip through both tables, starting from a real padded square. */
  lemma PositionRoundTrip(p: int)
    requires OnBoard(p)
    ensures 0 <= IndexOf(p) < IndexSize
    ensures PositionOf(IndexOf(p)) == p
  {
    CompactIndexSplits(FileOf(p), RankOf(p));
  }

  /** A padded slot is a real square exactly when some (file, rank) of the
      8x8 board lands on it; every other slot carries the off-board index. */
  lemma OnBoardIffHit(p: int)
    ensures OnBoard(p) <==> exists file, rank :: 0 <= file < 8 && 0 <= rank < 8 && GetPosition(file, rank) == p
    ensures !OnBoard(p) <==> IndexOf(p) == IndexSize
  {
    if OnBoard(p) {
      PositionRoundTrip(p);
      CompactIndexSplits(FileOf(p), RankOf(p));
    }
  }

  /** Real squares never sit on a border column: the padded column is 1..8. */
  lemma OnBoardColumns(p: int)
    requires OnBoard(p)
    ensures 21 <= p <= 98 && 1 <= p % 10 <= 8
  {
  }

  /** IndexOf never confuses two squares: two slots with the same real index are the same slot. */
  lemma IndexOfInjective(p: int, q: int)
    requires OnBoard(p) && OnBoard(q) && IndexOf(p) == IndexOf(q)
    ensures p == q
  {
    PositionRoundTrip(p);
    PositionRoundTrip(q);
  }

  /** The compact -> padded table is strictly increasing. */
  lemma PositionOfIncreasing(i: int, j: int)
    requires 0 <= i < j < IndexSize
    ensures PositionOf(i) < PositionOf(j)
  {
    assert i == (i / 8) * 8 + i % 8;
    assert j == (j / 8) * 8 + j % 8;
  }

  /** Entry i of the compact -> padded table is a real square whose
      padded -> compact entry is i again. */
  lemma IndexEntryInverse(i: int)
    requires 0 <= i < IndexSize
    ensures 21 <= IndexTable()[i] <= 98 && PositionTable()[IndexTable()[i]] == i
  {
    IndexRoundTrip(i);
    OnBoardColumns(PositionOf(i));
    assert IndexTable()[i] == PositionOf(i);
  }

  /** Entry p of the padded -> compact table, for a real square p, is a compact
      index whose compact -> padded entry is p again. */
  lemma PositionEntryInverse(p: int)
    requires 0 <= p < PositionSize && OnBoard(p)
    ensures 0 <= PositionTable()[p] < IndexSize && IndexTable()[PositionTable()[p]] == p
  {
    PositionRoundTrip(p);
    assert PositionTable()[p] == IndexOf(p);
  }

  /** The tables the setup must produce, as seen element-wise: every compact
      index maps to an on-board square (never the default PositionSize), and
      the two tables are mutual inverses on the 64 real squares. */
  lemma TablesInverse()
    ensures forall i :: 0 <= i < IndexSize ==>
              21 <= IndexTable()[i] <= 98 && PositionTable()[IndexTable()[i]] == i
    ensures forall p :: 0 <= p < PositionSize && OnBoard(p) ==>
              0 <= PositionTable()[p] < IndexSize && IndexTable()[PositionTable()[p]] == p
    ensures forall p :: 0 <= p < PositionSize && !OnBoard(p) ==> PositionTable()[p] == IndexSize
  {
    forall i | 0 <= i < IndexSize
      ensures 21 <= IndexTable()[i] <= 98 && PositionTable()[IndexTable()[i]] == i
    {
      IndexEntryInverse(i);
    }
    forall p | 0 <= p < PositionSize && OnBoard(p)
      ensures 0 <= PositionTable()[p] < IndexSize && IndexTable()[PositionTable()[p]] == p
    {
      PositionEntryInverse(p);
    }
  }

  /** The padded -> compact table once the first n real squares (in compact
      order) have been filled in and every other slot still holds its default. */
  function PartialPositionTable(n: int): (t: seq<int>)
    ensures |t| == PositionSize
  {
    seq(PositionSize, p => if IndexOf(p) < n then IndexOf(p) else IndexSize)
  }

  /** The compact -> padded table once the first n entries have been filled in. */
  function PartialIndexTable(n: int): (t: seq<int>)
    ensures |t| == IndexSize
  {
    seq(IndexSize, k => if k < n then PositionOf(k) else PositionSize)
  }

  /** Before any square is filled in, both tables hold only their defaults. */
  lemma FillStart()
    ensures PartialPositionTable(0) == seq(PositionSize, _ => IndexSize)
    ensures PartialIndexTable(0) == seq(IndexSize, _ => PositionSize)
  {
    forall p | 0 <= p < PositionSize
      ensures PartialPositionTable(0)[p] == IndexSize
    {
      if OnBoard(p) {
        PositionRoundTrip(p);
      }
    }
  }

  /** Filling in compact index n (at padded square PositionOf(n)) in both tables
      turns the tables of the first n squares into those of the first n + 1. */
  lemma FillStep(n: int)
    requires 0 <= n < IndexSize
    ensures 0 <= PositionOf(n) < PositionSize
    ensures PartialPositionTable(n)[PositionOf(n) := n] == PartialPositionTable(n + 1)
    ensures PartialIndexTable(n)[n := PositionOf(n)] == PartialIndexTable(n + 1)
  {
    IndexRoundTrip(n);
    var filled := PartialPositionTable(n)[PositionOf(n) := n];
    forall p | 0 <= p < PositionSize
      ensures filled[p] == PartialPositionTable(n + 1)[p]
    {
      if p != PositionOf(n) && OnBoard(p) && IndexOf(p) == n {
        PositionRoundTrip(p);
      }
    }
  }

  /** Once all IndexSize squares are filled in, the tables are the complete ones. */
  lemma FillComplete()
    ensures PartialPositionTable(IndexSize) == PositionTable()
    ensures PartialIndexTable(IndexSize) == IndexTable()
  {
    forall p | 0 <= p < PositionSize
      ensures PartialPositionTable(IndexSize)[p] == PositionTable()[p]
    {
      if OnBoard(p) {
        PositionRoundTrip(p);
      }
    }
  }

  /** The two global conversion tables that engine.c fills in. */
  class BoardConversion {
    const positionToIndex: array<int>
    const indexToPosition: array<int>

    ghost predicate Valid() {
      positionToIndex.Length == PositionSize && indexToPosition.Length == IndexSize
    }

    /** Zero-filled tables, as static storage starts. */
    constructor ()
      ensures Valid() && fresh(positionToIndex) && fresh(indexToPosition)
      ensures forall p :: 0 <= p < PositionSize ==> positionToIndex[p] == 0
      ensures forall i :: 0 <= i < IndexSize ==> indexToPosition[i] == 0
    {
      positionToIndex := new int[PositionSize](_ => 0);
      indexToPosition := new int[IndexSize](_ => 0);
    }

    /** Fill both tables: defaults first (IndexSize and PositionSize), then
        ranks 1..8 times files a..h with a running compact index. */
    method SetupBoardConversion()
      requires Valid()
      modifies positionToIndex, indexToPosition
      ensures Valid()
      ensures positionToIndex[..] == PositionTable()
      ensures indexToPosition[..] == IndexTable()
    {
      var position := A1;
      var index := 0;

      for i := 0 to PositionSize
        invariant forall p :: 0 <= p < i ==> positionToIndex[p] == IndexSize
      {
        positionToIndex[i] := IndexSize;
      }
      for j := 0 to IndexSize
        invariant forall p :: 0 <= p < PositionSize ==> positionToIndex[p] == IndexSize
        invariant forall k :: 0 <= k < j ==> indexToPosition[k] == PositionSize
      {
        indexToPosition[j] := PositionSize;
      }

      FillStart();
      assert positionToIndex[..] == PartialPositionTable(index);
      assert indexToPosition[..] == PartialIndexTable(index);

      for rank := Rank1 to Rank8 + 1
        invariant index == rank * 8
        invariant positionToIndex[..] == PartialPositionTable(index)
        invariant indexToPosition[..] == PartialIndexTable(index)
      {
        for file := FileA to FileH + 1
          invariant index == rank * 8 + file
          invariant positionToIndex[..] == PartialPositionTable(index)
          invariant indexToPosition[..] == PartialIndexTable(index)
        {
          position := GetPosition(file, rank);
          CompactIndexSplits(file, rank);
          FillStep(index);
          indexToPosition[index] := position;
          positionToIndex[position] := index;
          index := index + 1;
        }
      }
      FillComplete();
    }

    /** The engine's start-up entry: builds the conversion tables. */
    method Init()
      requires Valid()
      modifies positionToIndex, indexToPosition
      ensures Valid()
      ensures positionToIndex[..] == PositionTable()
      ensures indexToPosition[..] == IndexTable()
    {
      SetupBoardConversion();
    }
  }
}
