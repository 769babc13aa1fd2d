// Start-up initialisation (init.c): the conversion tables, filled the same
// way as by the board setup, and the single-bit set and clear masks.

module Init {
  import opened Defs
  import opened Bits
  import Engine

  /** The two conversion tables that init.c fills in. */
  class ConversionTables {
    const positionToIndex: array<int>
    const indexToPosition: array<int>

    ghost predicate Valid() {
      positionToIndex.Length == PositionSize && indexToPosition.Length == IndexSize &&
      positionToIndex != indexToPosition
    }

    /** Zero-filled tables, as static storage starts. */
    constructor ()
      ensures Valid()
      ensures fresh(positionToIndex) && fresh(indexToPosition)
      ensures forall p :: 0 <= p < PositionSize ==> positionToIndex[p] == 0
      ensures forall i :: 0 <= i < IndexSize ==> indexToPosition[i] == 0
    {
      positionToIndex := new int[PositionSize](_ => 0);
      indexToPosition := new int[IndexSize](_ => 0);
    }

    /** Fill the conversion tables: defaults first (IndexSize and
        PositionSize), then ranks 1..8 times files a..h with a running index. */
    method InitConversion()
      requires Valid()
      modifies positionToIndex, indexToPosition
      ensures Valid()
      ensures positionToIndex[..] == Engine.PositionTable()
      ensures indexToPosition[..] == Engine.IndexTable()
    {
      var position := XX;
      var index := 0;

      for i := 0 to PositionSize
        invariant forall p :: 0 <= p < i ==> positionToIndex[p] == IndexSize
      {
        positionToIndex[i] := IndexSize;
      }
      for i := 0 to IndexSize
        invariant forall p :: 0 <= p < PositionSize ==> positionToIndex[p] == IndexSize
        invariant forall k :: 0 <= k < i ==> indexToPosition[k] == PositionSize
      {
        indexToPosition[i] := PositionSize;
      }

      Engine.FillStart();
      assert positionToIndex[..] == Engine.PartialPositionTable(index);
      assert indexToPosition[..] == Engine.PartialIndexTable(index);

      for r := Rank1 to Rank8 + 1
        invariant index == r * 8
        invariant positionToIndex[..] == Engine.PartialPositionTable(index)
        invariant indexToPosition[..] == Engine.PartialIndexTable(index)
      {
        for f := FileA to FileH + 1
          invariant index == r * 8 + f
          invariant positionToIndex[..] == Engine.PartialPositionTable(index)
          invariant indexToPosition[..] == Engine.PartialIndexTable(index)
        {
          position := Engine.GetPosition(f, r);
          Engine.CompactIndexSplits(f, r);
          Engine.FillStep(index);
          assert Engine.PositionOf(index) == position;
          ghost var positionsBefore, indicesBefore := positionToIndex[..], indexToPosition[..];
          positionToIndex[position] := index;
          assert positionToIndex[..] == positionsBefore[position := index];
          indexToPosition[index] := position;
          assert indexToPosition[..] == indicesBefore[index := position];
          index := index + 1;
        }
      }
      Engine.FillComplete();
    }

  }

  /** The two mask tables that init.c fills in. */
  class BitMasks {
    const setMask: array<bv64>
    const clearMask: array<bv64>

    ghost predicate Valid() {
      setMask.Length == IndexSize && clearMask.Length == IndexSize && setMask != clearMask
    }

    /** Zero-filled tables, as static storage starts. */
    constructor ()
      ensures Valid()
      ensures fresh(setMask) && fresh(clearMask)
      ensures forall i :: 0 <= i < IndexSize ==> setMask[i] == 0 && clearMask[i] == 0
    {
      setMask := new bv64[IndexSize](_ => 0);
      clearMask := new bv64[IndexSize](_ => 0);
    }

    /** Fill the masks: entry i of setMask is 1 shifted left by i, and entry i
        of clearMask is the complement of entry i of setMask. */
    method InitBitMask()
      requires Valid()
      modifies setMask, clearMask
      ensures Valid()
      ensures setMask[..] == SetMaskTable()
      ensures clearMask[..] == ClearMaskTable()
    {
      for i := 0 to 64
        invariant setMask[..i] == SetMaskTable()[..i]
        invariant clearMask[..i] == ClearMaskTable()[..i]
      {
        var mask := ShiftedOne(i);
        setMask[i] := mask;
        clearMask[i] := !mask;
        assert setMask[..i + 1] == setMask[..i] + [mask];
        assert clearMask[..i + 1] == clearMask[..i] + [!mask];
      }
      assert setMask[..] == setMask[..64];
      assert clearMask[..] == clearMask[..64];
    }
  }

  /** Start-up: the conversion tables, then the masks. */
  method Init(tables: ConversionTables, masks: BitMasks)
    requires tables.Valid() && masks.Valid()
    requires {tables.positionToIndex as object, tables.indexToPosition} !! {masks.setMask as object, masks.clearMask}
    modifies tables.positionToIndex, tables.indexToPosition, masks.setMask, masks.clearMask
    ensures tables.Valid() && masks.Valid()
    ensures tables.positionToIndex[..] == Engine.PositionTable()
    ensures tables.indexToPosition[..] == Engine.IndexTable()
    ensures masks.setMask[..] == SetMaskTable()
    ensures masks.clearMask[..] == ClearMaskTable()
  {
    tables.InitConversion();
    masks.InitBitMask();
  }

  /** The word 1 << i, for a bit position i of a 64-bit word. It is a method of
      its own so that the conversion of the loop counter to a bit position
      stays out of InitBitMask's loop proof, which otherwise runs out of the
      verifier's resource limit. */
  method ShiftedOne(i: int) returns (mask: bv64)
    requires 0 <= i < 64
    ensures mask == SetMaskTable()[i]
    ensures !mask == ClearMaskTable()[i]
  {
    mask := Bit(i as Idx);
    MaskEntry(i);
  }

  /** The set masks from bit n upwards: entry k - n has only bit k set. */
  function SetMasksFrom(n: nat): (t: seq<bv64>)
    requires n <= 64
    ensures |t| == 64 - n
    decreases 64 - n
  {
    if n == 64 then [] else [Bit(n as Idx)] + SetMasksFrom(n + 1)
  }

  /** The 64 set masks, one per bit position. */
  function SetMaskTable(): (t: seq<bv64>)
    ensures |t| == 64
  {
    SetMasksFrom(0)
  }

  /** The 64 clear masks: entry k is the complement of set mask k. */
  function ClearMaskTable(): (t: seq<bv64>)
    ensures |t| == 64
  {
    seq(64, k requires 0 <= k < 64 => !SetMaskTable()[k])
  }

  lemma {:induction false} SetMasksFromEntry(n: nat, k: int)
    requires n <= k < 64
    ensures SetMasksFrom(n)[k - n] == Bit(k as Idx)
    decreases k - n
  {
    if k > n {
      SetMasksFromEntry(n + 1, k);
    }
  }

  /** Set mask k is the word with only bit k set; clear mask k is its complement. */
  lemma MaskEntry(k: int)
    requires 0 <= k < 64
    ensures SetMaskTable()[k] == Bit(k as Idx)
    ensures ClearMaskTable()[k] == !Bit(k as Idx)
  {
    SetMasksFromEntry(0, k);
  }

  /** The same, for a bit position. */
  lemma MaskAt(k: Idx)
    ensures SetMaskTable()[k] == Bit(k)
    ensures ClearMaskTable()[k] == !Bit(k)
  {
    MaskEntry(k as int);
    IdxRoundTrip(k);
  }

  lemma OnlyBitSet(k: Idx, j: Idx)
    ensures IsSet(Bit(k), j) <==> j == k
  {
  }

  /** Set mask k has exactly one bit set, bit k. */
  lemma SetMaskSingleBit(k: Idx, j: Idx)
    ensures IsSet(SetMaskTable()[k], j) <==> j == k
  {
    MaskAt(k);
    OnlyBitSet(k, j);
  }

  /** Set mask k and clear mask k share no bit and together cover all 64. */
  lemma MaskPairComplementary(k: Idx)
    ensures SetMaskTable()[k] & ClearMaskTable()[k] == 0
    ensures SetMaskTable()[k] | ClearMaskTable()[k] == AllOnes
  {
    MaskAt(k);
  }

  /** And-ing with clear mask k clears bit k and keeps every other bit. */
  lemma ClearMaskEffect(bb: bv64, k: Idx, j: Idx)
    ensures IsSet(bb & ClearMaskTable()[k], j) <==> IsSet(bb, j) && j != k
  {
    MaskAt(k);
    ClearBitEffect(bb, k, j);
  }

  /** No two set masks are equal. */
  lemma SetMasksDistinct(k1: Idx, k2: Idx)
    requires k1 != k2
    ensures SetMaskTable()[k1] != SetMaskTable()[k2]
  {
    SetMaskSingleBit(k1, k1);
    SetMaskSingleBit(k2, k1);
  }
}
