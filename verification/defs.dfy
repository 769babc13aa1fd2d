// Constants shared by the engine: players, pieces, files, ranks, the
// off-board square marker and the sizes of the lookup tables.

module Defs {

  /** Size of the padded-square -> compact-index table (one slot per padded square). */
  const PositionSize := 120
  /** Size of the compact-index -> padded-square table (one slot per real square). */
  const IndexSize := 64
  /** Number of castling-rights values (four rights, one bit each). */
  const CastleSize := 16

  // Players
  const White := 0
  const Black := 1
  const Both := 2

  // Pieces, in the order of the piece enumeration; Empty marks a real square without a piece.
  const WhitePawn := 0
  const WhiteKnight := 1
  const WhiteBishop := 2
  const WhiteRook := 3
  const WhiteQueen := 4
  const WhiteKing := 5
  const BlackPawn := 6
  const BlackKnight := 7
  const BlackBishop := 8
  const BlackRook := 9
  const BlackQueen := 10
  const BlackKing := 11
  const Empty := 12

  // Files and ranks
  const FileA := 0
  const FileH := 7
  const Rank1 := 0
  const Rank8 := 7

  /** The first real square of the padded board (bottom-left corner of the 8x8 area). */
  const A1 := 21

  /** The value after the last square of the square enumeration; used both as the
      "off-board" square content and as "no en-passant square". */
  const XX := 99
}
