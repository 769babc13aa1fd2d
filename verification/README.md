# Chess engine core: board coordinates, bit masks, bitboards and the position key

This project models in Dafny the low-level core of a small C chess engine and
proves what that core promises.

- **Board coordinates** (`engine.c`, `init.c`). The board is a padded 12x10
  array of 120 slots (`PositionSize`). It has two border rows above and below
  the 8x8 board and one border file on each side. `GetPosition(file, rank)`
  places a real square at `rank * 10 + file + 21`. Two lookup tables convert
  between padded slots and the compact 0..63 numbering of the real squares.
  A border slot maps to 64 (`IndexSize`). An unused compact entry would map
  to 120.
  - `Engine.BoardConversion` holds the two global tables of `engine.c`.
    `SetupBoardConversion` and `Init` fill them.
  - `Init.ConversionTables` holds the same tables as defined in `init.c`.
    `InitConversion` fills them.
  - Each method is proved to leave exactly the pure tables `PositionTable()`
    and `IndexTable()`. Lemmas show these two tables are mutual inverses on
    the real squares. They also show that every border slot carries the
    off-board index.
- **Single-bit masks** (`init.c`). `Init.BitMasks` holds `SetMask` and
  `ClearMask`. `InitBitMask` fills entry `i` with `1 << i` and its
  complement. Lemmas state what the masks do: set mask `k` has only bit `k`
  set, and and-ing with clear mask `k` clears bit `k` and keeps every other
  bit.
- **Bitboards** (`bitboard.c`).
  - `PopBit` finds the index of the lowest set bit through a
    fold-and-multiply hash into the 64-entry `BitTable`, then clears that bit
    in place. The model proves that the table is a permutation of 0..63 and
    that the hash lands on the right entry for all 64 bit positions. It
    follows that `PopBit` returns the lowest set bit, clears exactly that bit
    and lowers the population count by one.
  - `CountBit` is proved to return the population count.
  - The population count, the lowest set bit and the bit tests are defined
    bit by bit in module `Bits`.
- **Position key** (`hashkey.c`). `GeneratePositionKey` combines by
  exclusive-or:
  - the random key of each occupied square,
  - the side key when White is to move,
  - the `Empty` key of the en-passant square,
  - the castling key.

  It is proved equal to the pure `PositionKey`. Lemmas show what makes the
  key updatable incrementally. Changing one square, the side, the en-passant
  square or the castling value changes the key by exactly the keys involved.
- **The conversion test** (`tests.c`). The expected tables become constants
  in `ConversionTests`. They are proved equal to the tables the setup
  produces.

Modelling choices:

- **Word types.** `engine.h` declares `u64` as `unsigned long long`;
  bitboards and masks of that type are `bv64`. `u32` is declared nowhere in
  the files modelled; the model takes it to be a 32-bit unsigned type, so the
  fold and its multiply by `0x783a9b23` are `bv32`, which wraps at 32 bits.
- **Position key arithmetic.** The key is a `nat` below 2^64 (`Words.U64`).
  Its exclusive-or is defined one binary digit at a time (`Words.Xor`), and
  the algebraic laws the key needs are proved from that definition. The key
  is never shifted, masked or tested bit by bit: only exclusive-or and its
  laws (cancellation, commutativity, associativity) matter, and inductive
  proofs of those laws over the whole key fold are far cheaper on numbers
  than on `bv64`.
- **Global tables.** Each group of global arrays becomes a class with
  constant `array` fields, so the methods that fill them carry `modifies`
  clauses. `engine.c` and `init.c` each define their own copy of the
  conversion tables, so the model has two classes.
- **Key tables and ASSERTs.** The random key tables are the parameter
  `HashKey.ZobristKeys`. They are declared nowhere in the files modelled, so
  their shape is assumed from how `hashkey.c` indexes them: 13 rows (the
  twelve pieces and `Empty`) of 120 piece keys, one side key and 16 castling
  keys (`HashKey.KeysShaped`). `ASSERT` is defined nowhere in the files
  modelled either; the checks `hashkey.c` makes with it become preconditions
  on the board: piece range, en-passant range and castle range
  (`HashKey.WellFormed`).
- **Missing definitions.** `engine.h` does not define `POSITION_SIZE`,
  `INDEX_SIZE`, `CASTLE_SIZE`, `FR2POS`, `POS2IDX`, `u32`, `ASSERT`, `Board`
  or the key tables.
  - The model takes 120 and 64 from the tables in `tests.c`.
  - It takes 16 for the castling size (four castling-right bits).
  - It uses `getPosition`'s formula for `FR2POS`. `POS2IDX` appears only in
    the bitboard printer, which is not modelled.

## Model

| member | source | states |
|---|---|---|
| Engine.GetPosition | engine.c:10-13 | a square of the 8x8 board lands on padded slot 21..98, in column file + 1 and row rank + 2 |
| Engine.GetPositionDecodes | engine.c:10-13 | the padded slot of (file, rank) is on the board, decodes back to that file and rank, and carries compact index rank * 8 + file |
| Engine.IndexRoundTrip | engine.c:63-72 | from a compact index, going to its padded square and back gives the same index |
| Engine.PositionRoundTrip | engine.c:63-72 | from a real padded square, going to its compact index and back gives the same square |
| Engine.OnBoardIffHit | engine.c:53-72 | a padded slot is a real square exactly when some (file, rank) of the loop lands on it; every other slot keeps the default index 64 |
| Engine.IndexOfInjective | engine.c:63-72 | no two real squares share a compact index |
| Engine.PositionOfIncreasing | engine.c:63-72 | the compact-to-padded table is strictly increasing |
| Engine.TablesInverse | engine.c:53-72 | the two finished tables are mutual inverses on the 64 real squares, every compact entry is a real square, and every border slot holds 64 |
| Engine.FillStep | engine.c:67-70 | writing one (index, position) pair extends the tables of the first n squares to those of the first n + 1 |
| Engine.FillComplete | engine.c:63-72 | after all 64 squares are written, the partial tables are the complete ones |
| Engine.BoardConversion.constructor | engine.c:6-7 | both global tables start zero-filled with the right lengths |
| Engine.BoardConversion.SetupBoardConversion | engine.c:16-73 | afterwards the padded-to-compact table is exactly PositionTable() and the compact-to-padded table exactly IndexTable() |
| Engine.BoardConversion.Init | engine.c:76-79 | start-up leaves both conversion tables complete |
| ConversionTests.PositionTableMatches | tests.c:11-24 | the padded-to-compact table the setup builds equals the test's expected table |
| ConversionTests.IndexTableMatches | tests.c:25-34 | the compact-to-padded table the setup builds equals the test's expected table |
| Init.ConversionTables.constructor | init.c:5-6 | both global tables start zero-filled with the right lengths |
| Init.ConversionTables.InitConversion | init.c:11-38 | afterwards the two tables are exactly PositionTable() and IndexTable(), the same tables as the engine setup builds |
| Init.BitMasks.constructor | init.c:7-8 | both mask tables start zero-filled with 64 entries |
| Init.BitMasks.InitBitMask | init.c:41-49 | afterwards set mask i is the word with only bit i set, and clear mask i is its complement, for all 64 entries |
| Init.ShiftedOne | init.c:46-47 | 1 shifted left by i is set mask i, and its complement is clear mask i |
| Init.Init | init.c:52-56 | start-up leaves the conversion tables and both mask tables complete |
| Init.MaskEntry | init.c:46-47 | entry k of the mask tables is the single-bit word of bit k and its complement |
| Init.SetMaskSingleBit | init.c:46 | set mask k has bit j set exactly when j == k |
| Init.MaskPairComplementary | init.c:47 | set mask k and clear mask k share no bit and together cover all 64 bits |
| Init.ClearMaskEffect | init.c:47 | and-ing a bitboard with clear mask k clears bit k and keeps every other bit |
| Init.SetMasksDistinct | init.c:44-48 | no two set masks are equal |
| Bitboard.FoldHalves | bitboard.c:20 | the u32 fold of a word is the exclusive-or of its low and high 32-bit halves |
| Bitboard.Slot | bitboard.c:22 | the 32-bit wrapping product of the fold and the multiplier, shifted right by 26, is a table slot 0..63 |
| Bitboard.MagicSlot | bitboard.c:19-22 | fold then slot: every 64-bit word hashes to a table slot 0..63 |
| Bitboard.BitTableRange | bitboard.c:5-14 | every entry of BitTable is a bit index 0..63 |
| Bitboard.BitTablePermutation | bitboard.c:5-14 | BitTable holds each of 0..63 exactly once |
| Bitboard.BitTableFindsBit | bitboard.c:19-22 | for every bit index k, the fold-and-multiply hash of the mask of bits 0..k selects the BitTable entry holding k |
| Bitboard.PopBitLookup | bitboard.c:19-22 | for a non-zero word the lookup yields its lowest set bit and w & (w - 1) clears exactly that bit, one set bit fewer; for 0 it yields 63 and the word stays 0 |
| Bitboard.PopBitOutcome | bitboard.c:17-23 | the index and word PopBit computes meet its promise, PopsLowestBit |
| Bitboard.BitboardCell.constructor | bitboard.c:17 | the cell holds the given word, standing for the u64 that PopBit receives by pointer |
| Bitboard.PopBit | bitboard.c:17-23 | the word is replaced by w & (w - 1); for non-zero w the result is the lowest set bit's index, only that bit is cleared and the count drops by one; for 0 it returns 63 and leaves 0 |
| Bitboard.CountBit | bitboard.c:26-34 | the result is the number of set bits, between 0 and 64, and 0 exactly for the empty bitboard |
| Bits.LowestBitArithmetic | bitboard.c:19-21 | for a non-zero word, w ^ (w - 1) is the mask of the bits up to its lowest set bit, and w & (w - 1) clears that bit alone |
| Bits.PopCountDropLowest | bitboard.c:31 | w & (w - 1) has exactly one set bit fewer than a non-zero w |
| Bits.ClearBitCount | bitboard.c:21 | clearing a set bit lowers the population count by exactly one |
| Bits.PopCountRange | bitboard.c:29 | the population count is at most 64 and is 0 exactly for the empty bitboard, so CountBit's loop stops |
| Bits.LowestSetBit | bitboard.c:19 | the lowest set bit of a non-zero word is set and no bit below it is |
| Bits.ClearBitEffect | bitboard.c:21 | and-ing with the complement of bit k clears bit k and keeps every other bit |
| Words.XorBelow | hashkey.c:17 | exclusive-or of two 64-bit words is a 64-bit word |
| Words.XorSelf | hashkey.c:17 | every key cancels itself |
| Words.XorCommutes | hashkey.c:17 | the order of two exclusive-ored keys does not matter |
| Words.XorAssociates | hashkey.c:11-36 | the grouping of exclusive-ored keys does not matter |
| Words.XorZeroMeansEqual | hashkey.c:17 | two words whose exclusive-or is 0 are equal |
| HashKey.PiecesKey | hashkey.c:11-19 | the exclusive-or of the piece keys of the occupied squares among the first n, skipping Empty and XX |
| HashKey.PositionKey | hashkey.c:8-36 | the key of a board: piece part, then side key when White is to move, then the en-passant square's Empty key when there is one, then the castling key |
| HashKey.GeneratePositionKey | hashkey.c:5-40 | the key computed is PositionKey: the exclusive-or of the occupied squares' piece keys, the side key for White, the en-passant square's Empty key and the castling key |
| HashKey.PiecesKeyStep | hashkey.c:11-19 | one more square adds its piece key when occupied and nothing otherwise |
| HashKey.PiecesKeyUpdate | hashkey.c:11-19 | changing one square changes the piece part of the key by exactly that square's old and new piece keys |
| HashKey.KeyDifference | hashkey.c:5-40 | the keys of two boards differ by the exclusive-or of the differences of their pieces, side, en-passant and castling terms |
| HashKey.SquareChange | hashkey.c:11-19 | placing, removing or replacing one piece changes the key by exactly the old and the new key of that square |
| HashKey.PlacePiece | hashkey.c:13-17 | putting a piece on an empty square changes the key by exactly that piece's key on that square, and emptying the square again restores the key |
| HashKey.NoPiecesNoKey | hashkey.c:13-14 | squares that are empty or off the board contribute nothing |
| HashKey.EmptyBoardKey | hashkey.c:8-36 | a board without pieces, with a side other than White to move and no en-passant square, has the castling key alone as its key |
| HashKey.SideToggle | hashkey.c:22-25 | changing the side to move changes the key by the side key exactly when White-to-move changes |
| HashKey.EnPassantToggle | hashkey.c:28-32 | setting an en-passant square changes the key by exactly the Empty key of that square |
| HashKey.CastleChange | hashkey.c:35-36 | changing the castling value swaps the old castling key for the new one |

## Left out

- Printing is not modelled: `main`, the board printers in `engine.c` (lines 82 onwards) and `PrintBitboard` (bitboard.c:37-58) only write text.
- The messages and the failure behaviour of `ConversionTest` are not modelled. Its two checks become the lemmas `ConversionTests.PositionTableMatches` and `ConversionTests.IndexTableMatches`.
- How the random key tables are generated is not part of this model; they are the parameter `ZobristKeys`.
- The full `Board` structure is not part of this model. Only the four fields the key reads are kept: pieces, side, en-passant square and castling value.
- `ASSERT` becomes a precondition. The model does not say what a failing `ASSERT` does.
- Where the square labels disagree with the code, the model follows the code. The labels in `engine.h` (lines 69-80) number `A1..A8` as 21..28, along a rank, but `getPosition` and the expected tables in `tests.c` put 22 at file b of rank 1.
- `engine.c` and `init.c` both define the conversion tables. The model keeps them as two separate objects rather than one shared global, so it does not capture linking the two definitions into one program.
- Engine.GetPosition: ints are unbounded, so the model does not capture overflow for arguments far outside the board. The engine only calls it with files and ranks 0..7.
- Init.Init: it requires the mask arrays and the conversion arrays to be distinct objects, as the separate globals of `init.c` are.
