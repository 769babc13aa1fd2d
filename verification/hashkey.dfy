// The position key (hashkey.c): an exclusive-or of one random 64-bit key per
// occupied square, the side-to-move key, the en-passant key and the castling
// key. The random key tables are a parameter: how they are generated is not
// part of this model.

module HashKey {
  import opened Defs
  import opened Words

  /** The parts of a board that the key reads. */
  datatype Board = Board(pieces: seq<int>, side: int, enPassant: int, castle: int)

  /** The random key tables: one row of PositionSize keys per piece plus a row
      for Empty (used for en-passant squares), the side key and the castling keys. */
  datatype ZobristKeys = ZobristKeys(pieceKeys: seq<seq<U64>>, sideKey: U64, castleKeys: seq<U64>)

  predicate KeysShaped(keys: ZobristKeys) {
    |keys.pieceKeys| == Empty + 1 &&
    (forall p :: 0 <= p < |keys.pieceKeys| ==> |keys.pieceKeys[p]| == PositionSize) &&
    |keys.castleKeys| == CastleSize
  }

  /** A square content that holds a piece: neither Empty nor the off-board marker. */
  predicate Occupied(piece: int) {
    piece != Empty && piece != XX
  }

  /** A content the key accepts: every occupied content is a real piece. */
  predicate ValidContent(piece: int) {
    Occupied(piece) ==> WhitePawn <= piece <= BlackKing
  }

  /** The checks the key makes on the board: a full padded board whose occupied
      squares hold real pieces, an en-passant square on the padded board unless
      it is XX, and a castling value in range. */
  predicate WellFormed(board: Board) {
    |board.pieces| == PositionSize &&
    (forall i :: 0 <= i < |board.pieces| ==> ValidContent(board.pieces[i])) &&
    (board.enPassant != XX ==> 0 <= board.enPassant < PositionSize) &&
    0 <= board.castle < CastleSize
  }

  /** What square i holding piece contributes: its piece key when occupied, nothing otherwise. */
  function SquareKey(keys: ZobristKeys, piece: int, i: int): U64
    requires KeysShaped(keys) && ValidContent(piece) && 0 <= i < PositionSize
  {
    if Occupied(piece) then keys.pieceKeys[piece][i] else 0
  }

  /** Exclusive-or of the keys of the occupied squares among 0..n-1. */
  function PiecesKey(pieces: seq<int>, keys: ZobristKeys, n: int): U64
    requires KeysShaped(keys) && |pieces| == PositionSize && 0 <= n <= PositionSize
    requires forall i :: 0 <= i < |pieces| ==> ValidContent(pieces[i])
    decreases n
  {
    if n == 0 then 0
    else if Occupied(pieces[n - 1]) then Xor64(PiecesKey(pieces, keys, n - 1), keys.pieceKeys[pieces[n - 1]][n - 1])
    else PiecesKey(pieces, keys, n - 1)
  }

  /** What the side to move contributes. */
  function SideKey(board: Board, keys: ZobristKeys): U64 {
    if board.side == White then keys.sideKey else 0
  }

  /** What the en-passant square contributes: the Empty key of that square, if there is one. */
  function EnPassantKey(board: Board, keys: ZobristKeys): U64
    requires KeysShaped(keys) && WellFormed(board)
  {
    if board.enPassant != XX then keys.pieceKeys[Empty][board.enPassant] else 0
  }

  /** The key of a position: pieces, side, en passant and castling, combined by exclusive-or. */
  function PositionKey(board: Board, keys: ZobristKeys): U64
    requires KeysShaped(keys) && WellFormed(board)
  {
    Xor64(Xor64(Xor64(PiecesKey(board.pieces, keys, |board.pieces|), SideKey(board, keys)),
                EnPassantKey(board, keys)),
          keys.castleKeys[board.castle])
  }

  /** The key computation: squares in order, then side, en passant and castling. */
  method GeneratePositionKey(board: Board, keys: ZobristKeys) returns (key: U64)
    requires KeysShaped(keys) && WellFormed(board)
    ensures key == PositionKey(board, keys)
  {
    key := 0;
    for i := 0 to PositionSize
      invariant key == PiecesKey(board.pieces, keys, i)
    {
      var piece := board.pieces[i];
      if piece != Empty && piece != XX {
        key := Xor64(key, keys.pieceKeys[piece][i]);
      }
    }
    ghost var piecesKey := key;
    if board.side == White {
      key := Xor64(key, keys.sideKey);
    } else {
      XorZero(key);
    }
    assert key == Xor64(piecesKey, SideKey(board, keys));
    ghost var sideKey := key;
    if board.enPassant != XX {
      key := Xor64(key, keys.pieceKeys[Empty][board.enPassant]);
    } else {
      XorZero(key);
    }
    assert key == Xor64(sideKey, EnPassantKey(board, keys));
    key := Xor64(key, keys.castleKeys[board.castle]);
  }

  /** One more square of the partial key adds that square's contribution. */
  lemma PiecesKeyStep(pieces: seq<int>, keys: ZobristKeys, n: int)
    requires KeysShaped(keys) && |pieces| == PositionSize && 0 < n <= PositionSize
    requires forall i :: 0 <= i < |pieces| ==> ValidContent(pieces[i])
    ensures PiecesKey(pieces, keys, n) == Xor(PiecesKey(pieces, keys, n - 1), SquareKey(keys, pieces[n - 1], n - 1))
  {
    XorZero(PiecesKey(pieces, keys, n - 1));
  }

  /** Changing square i changes the partial keys that include it by exactly the
      old and the new contribution of that square, and leaves the others alone. */
  lemma {:induction false} PiecesKeyUpdate(pieces: seq<int>, keys: ZobristKeys, i: int, piece: int, updated: seq<int>, n: int)
    requires KeysShaped(keys) && |pieces| == PositionSize && 0 <= n <= PositionSize
    requires forall j :: 0 <= j < |pieces| ==> ValidContent(pieces[j])
    requires 0 <= i < PositionSize && ValidContent(piece) && updated == pieces[i := piece]
    requires forall j :: 0 <= j < |updated| ==> ValidContent(updated[j])
    ensures Xor(PiecesKey(updated, keys, n), PiecesKey(pieces, keys, n)) ==
            if i < n then Xor(SquareKey(keys, pieces[i], i), SquareKey(keys, piece, i)) else 0
    decreases n
  {
    if n == 0 {
      XorZero(0);
    } else {
      var before := PiecesKey(pieces, keys, n - 1);
      var beforeUpdated := PiecesKey(updated, keys, n - 1);
      PiecesKeyUpdate(pieces, keys, i, piece, updated, n - 1);
      PiecesKeyStep(updated, keys, n);
      PiecesKeyStep(pieces, keys, n);
      if n - 1 == i {
        var oldKey := SquareKey(keys, pieces[i], i);
        var newKey := SquareKey(keys, piece, i);
        XorZeroMeansEqual(beforeUpdated, before);
        calc {
          Xor(PiecesKey(updated, keys, n), PiecesKey(pieces, keys, n));
          Xor(Xor(before, newKey), Xor(before, oldKey));
          { CancelLeft(newKey, oldKey, before); }
          Xor(newKey, oldKey);
          { XorCommutes(newKey, oldKey); }
          Xor(oldKey, newKey);
        }
      } else {
        CancelRight(beforeUpdated, before, SquareKey(keys, pieces[n - 1], n - 1));
      }
    }
  }

  /** The keys of any two boards differ by the exclusive-or of the differences
      of their four terms. */
  lemma KeyDifference(board1: Board, board2: Board, keys: ZobristKeys)
    requires KeysShaped(keys) && WellFormed(board1) && WellFormed(board2)
    ensures Xor(PositionKey(board1, keys), PositionKey(board2, keys)) ==
            Xor(Xor(Xor(Xor(PiecesKey(board1.pieces, keys, |board1.pieces|), PiecesKey(board2.pieces, keys, |board2.pieces|)),
                        Xor(SideKey(board1, keys), SideKey(board2, keys))),
                    Xor(EnPassantKey(board1, keys), EnPassantKey(board2, keys))),
                Xor(keys.castleKeys[board1.castle], keys.castleKeys[board2.castle]))
  {
    var p1, p2 := PiecesKey(board1.pieces, keys, |board1.pieces|), PiecesKey(board2.pieces, keys, |board2.pieces|);
    var s1, s2 := SideKey(board1, keys), SideKey(board2, keys);
    var e1, e2 := EnPassantKey(board1, keys), EnPassantKey(board2, keys);
    var c1, c2 := keys.castleKeys[board1.castle], keys.castleKeys[board2.castle];
    XorInterchange(Xor(Xor(p1, s1), e1), c1, Xor(Xor(p2, s2), e2), c2);
    XorInterchange(Xor(p1, s1), e1, Xor(p2, s2), e2);
    XorInterchange(p1, s1, p2, s2);
  }

  /** Placing, removing or replacing one piece changes the key by exactly the
      old and the new contribution of that square; nothing else enters. */
  lemma SquareChange(board: Board, keys: ZobristKeys, i: int, piece: int)
    requires KeysShaped(keys) && WellFormed(board)
    requires 0 <= i < PositionSize && ValidContent(piece)
    ensures WellFormed(board.(pieces := board.pieces[i := piece]))
    ensures Xor(PositionKey(board.(pieces := board.pieces[i := piece]), keys), PositionKey(board, keys)) ==
            Xor(SquareKey(keys, board.pieces[i], i), SquareKey(keys, piece, i))
  {
    var changed := board.(pieces := board.pieces[i := piece]);
    assert WellFormed(changed);
    PiecesKeyUpdate(board.pieces, keys, i, piece, changed.pieces, |board.pieces|);
    KeyDifference(changed, board, keys);
    var d := Xor(SquareKey(keys, board.pieces[i], i), SquareKey(keys, piece, i));
    XorSelf(SideKey(board, keys));
    XorSelf(EnPassantKey(board, keys));
    XorSelf(keys.castleKeys[board.castle]);
    XorZero(d);
  }

  /** A piece put on an empty square changes the key by exactly that piece's key
      on that square (and taking it off again restores the key). */
  lemma PlacePiece(board: Board, keys: ZobristKeys, i: int, piece: int)
    requires KeysShaped(keys) && WellFormed(board)
    requires 0 <= i < PositionSize && board.pieces[i] == Empty
    requires WhitePawn <= piece <= BlackKing
    ensures WellFormed(board.(pieces := board.pieces[i := piece]))
    ensures Xor(PositionKey(board.(pieces := board.pieces[i := piece]), keys), PositionKey(board, keys)) ==
            keys.pieceKeys[piece][i]
    ensures WellFormed(board.(pieces := board.pieces[i := piece][i := Empty]))
    ensures PositionKey(board.(pieces := board.pieces[i := piece][i := Empty]), keys) == PositionKey(board, keys)
  {
    SquareChange(board, keys, i, piece);
    XorZero(keys.pieceKeys[piece][i]);
    assert board.pieces[i := piece][i := Empty] == board.pieces;
  }

  /** Only occupied squares contribute: pieces without any piece have no piece term. */
  lemma {:induction false} NoPiecesNoKey(pieces: seq<int>, keys: ZobristKeys, n: int)
    requires KeysShaped(keys) && |pieces| == PositionSize && 0 <= n <= PositionSize
    requires forall j :: 0 <= j < |pieces| ==> !Occupied(pieces[j])
    ensures PiecesKey(pieces, keys, n) == 0
    decreases n
  {
    if n > 0 {
      NoPiecesNoKey(pieces, keys, n - 1);
    }
  }

  /** The key of a board without pieces, with a side other than White to move
      and no en-passant square, is the castling key alone. */
  lemma EmptyBoardKey(board: Board, keys: ZobristKeys)
    requires KeysShaped(keys) && WellFormed(board)
    requires forall j :: 0 <= j < |board.pieces| ==> !Occupied(board.pieces[j])
    requires board.side != White && board.enPassant == XX
    ensures PositionKey(board, keys) == keys.castleKeys[board.castle]
  {
    NoPiecesNoKey(board.pieces, keys, |board.pieces|);
    XorZero(0);
    XorZero(keys.castleKeys[board.castle]);
  }

  /** The side to move enters the key only as White-or-not: two boards that
      differ only in the side have keys differing by the side key exactly when
      one of them has White to move. */
  lemma SideToggle(board: Board, keys: ZobristKeys, side: int)
    requires KeysShaped(keys) && WellFormed(board)
    ensures Xor(PositionKey(board.(side := side), keys), PositionKey(board, keys)) ==
            if (side == White) == (board.side == White) then 0 else keys.sideKey
  {
    var other := board.(side := side);
    KeyDifference(other, board, keys);
    var p := PiecesKey(board.pieces, keys, |board.pieces|);
    var d := Xor(SideKey(other, keys), SideKey(board, keys));
    XorSelf(p);
    XorSelf(EnPassantKey(board, keys));
    XorSelf(keys.castleKeys[board.castle]);
    XorZero(d);
    XorSelf(keys.sideKey);
    XorZero(keys.sideKey);
  }

  /** A board with an en-passant square differs from the same board without
      one by the Empty key of that square. */
  lemma EnPassantToggle(board: Board, keys: ZobristKeys, square: int)
    requires KeysShaped(keys) && WellFormed(board) && board.enPassant == XX
    requires 0 <= square < PositionSize && square != XX
    ensures WellFormed(board.(enPassant := square))
    ensures Xor(PositionKey(board.(enPassant := square), keys), PositionKey(board, keys)) ==
            keys.pieceKeys[Empty][square]
  {
    var other := board.(enPassant := square);
    KeyDifference(other, board, keys);
    XorSelf(PiecesKey(board.pieces, keys, |board.pieces|));
    XorSelf(SideKey(board, keys));
    XorSelf(keys.castleKeys[board.castle]);
    XorZero(0);
    XorZero(keys.pieceKeys[Empty][square]);
  }

  /** Exactly one castling key is in the key: changing the castling value
      swaps the old key for the new one. */
  lemma CastleChange(board: Board, keys: ZobristKeys, castle: int)
    requires KeysShaped(keys) && WellFormed(board) && 0 <= castle < CastleSize
    ensures WellFormed(board.(castle := castle))
    ensures Xor(PositionKey(board.(castle := castle), keys), PositionKey(board, keys)) ==
            Xor(keys.castleKeys[castle], keys.castleKeys[board.castle])
  {
    var other := board.(castle := castle);
    KeyDifference(other, board, keys);
    XorSelf(PiecesKey(board.pieces, keys, |board.pieces|));
    XorSelf(SideKey(board, keys));
    XorSelf(EnPassantKey(board, keys));
    XorZero(0);
    XorZero(Xor(keys.castleKeys[castle], keys.castleKeys[board.castle]));
  }
}
