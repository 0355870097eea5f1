// King.isValidMove (src/chess/King.java).
module KingMoves {
  import opened Pieces

  /** A two-column move along the king's own row: the shape King.isValidMove
      treats as castling. */
  predicate CastleShaped(p: Piece, destRow: int, destCol: int)
  {
    destRow == p.row && Abs(destCol - p.col) == 2
  }

  /** The corner column that a castle-shaped move from fromCol toward toCol
      looks at (and, in movePiece, takes the rook from): 7 to the right, else 0. */
  function RookCorner(fromCol: int, toCol: int): (c: int)
    ensures c == 0 || c == 7
    ensures c == 7 <==> toCol > fromCol
  {
    if toCol > fromCol then 7 else 0
  }

  /** King.isValidMove: own-colour destinations are refused first; any square
      at most one step away is accepted; a castle-shaped move by an unmoved
      king is accepted when its corner holds an unmoved rook of either colour. */
  function KingAccepts(p: Piece, destRow: int, destCol: int, g: Grid): (ok: bool)
    requires WellFormed(g) && InBoard(p.row, p.col) && InBoard(destRow, destCol)
    ensures ok ==> FreeOrOpposing(g, destRow, destCol, p.white)
    ensures ok ==> (Abs(destRow - p.row) <= 1 && Abs(destCol - p.col) <= 1) || CastleShaped(p, destRow, destCol)
  {
    var dr := Abs(destRow - p.row);
    var dc := Abs(destCol - p.col);
    if g[destRow][destCol].Some? && g[destRow][destCol].value.white == p.white then
      false
    else if dr <= 1 && dc <= 1 then
      true
    else if dr == 0 && dc == 2 && !p.moved then
      UnmovedRook(g[p.row][RookCorner(p.col, destCol)])
    else
      false
  }

  /** A destination holding a piece of the king's own colour is never legal. */
  lemma KingNeverOwnColour(p: Piece, destRow: int, destCol: int, g: Grid)
    requires WellFormed(g) && InBoard(p.row, p.col) && InBoard(destRow, destCol)
    requires g[destRow][destCol].Some? && g[destRow][destCol].value.white == p.white
    ensures !KingAccepts(p, destRow, destCol, g)
  {
  }

  /** Any square at most one row and one column away is legal unless a piece of
      the king's colour stands there; captures included. */
  lemma KingStep(p: Piece, destRow: int, destCol: int, g: Grid)
    requires WellFormed(g) && InBoard(p.row, p.col) && InBoard(destRow, destCol)
    requires Abs(destRow - p.row) <= 1 && Abs(destCol - p.col) <= 1
    ensures KingAccepts(p, destRow, destCol, g) <==> FreeOrOpposing(g, destRow, destCol, p.white)
  {
  }

  /** A castle-shaped move is legal iff the destination is not own-coloured, the
      king has not moved and its corner holds an unmoved Rook of any colour; no
      square in between is looked at. */
  lemma KingCastleClause(p: Piece, destRow: int, destCol: int, g: Grid)
    requires WellFormed(g) && InBoard(p.row, p.col) && InBoard(destRow, destCol)
    requires CastleShaped(p, destRow, destCol)
    ensures KingAccepts(p, destRow, destCol, g) <==>
              FreeOrOpposing(g, destRow, destCol, p.white) && !p.moved && UnmovedRook(g[p.row][RookCorner(p.col, destCol)])
  {
  }

  /** Every other destination is rejected. */
  lemma KingRejectsFarMoves(p: Piece, destRow: int, destCol: int, g: Grid)
    requires WellFormed(g) && InBoard(p.row, p.col) && InBoard(destRow, destCol)
    requires !(Abs(destRow - p.row) <= 1 && Abs(destCol - p.col) <= 1) && !CastleShaped(p, destRow, destCol)
    ensures !KingAccepts(p, destRow, destCol, g)
  {
  }
}
