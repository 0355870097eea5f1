// Queen.isValidMove (src/chess/Queen.java).
module QueenMoves {
  import opened Pieces
  import opened RookMoves
  import opened BishopMoves

  /** Queen.isValidMove: the move a fresh Rook, or else a fresh Bishop, of the
      queen's colour on the queen's square would accept. */
  function QueenAccepts(p: Piece, destRow: int, destCol: int, g: Grid): (ok: bool)
    requires WellFormed(g) && InBoard(p.row, p.col) && InBoard(destRow, destCol)
    ensures ok ==> FreeOrOpposing(g, destRow, destCol, p.white)
    ensures ok ==> destRow == p.row || destCol == p.col || Abs(destRow - p.row) == Abs(destCol - p.col)
  {
    RookAccepts(NewPiece(Rook, p.row, p.col, p.white), destRow, destCol, g) ||
    BishopAccepts(NewPiece(Bishop, p.row, p.col, p.white), destRow, destCol, g)
  }

  /** The two temporary pieces evaluated one after the other, on the array. */
  method QueenIsValidMove(p: Piece, destRow: int, destCol: int, a: array2<Option<Piece>>) returns (ok: bool)
    requires a.Length0 == 8 && a.Length1 == 8
    requires InBoard(p.row, p.col) && InBoard(destRow, destCol)
    ensures ok == QueenAccepts(p, destRow, destCol, Snap(a))
  {
    ok := RookIsValidMove(NewPiece(Rook, p.row, p.col, p.white), destRow, destCol, a);
    if !ok {
      ok := BishopIsValidMove(NewPiece(Bishop, p.row, p.col, p.white), destRow, destCol, a);
    }
  }

  /** A queen move lies along a row, a column or a diagonal, every square
      strictly between is empty, and the destination is empty or opposing; and
      every such move is accepted. */
  lemma QueenLines(p: Piece, destRow: int, destCol: int, g: Grid)
    requires WellFormed(g) && InBoard(p.row, p.col) && InBoard(destRow, destCol)
    ensures var sr, sc := Compare(destRow, p.row), Compare(destCol, p.col);
            QueenAccepts(p, destRow, destCol, g) <==>
              FreeOrOpposing(g, destRow, destCol, p.white) &&
              (((destRow == p.row || destCol == p.col) &&
                PathEmpty(g, p.row, p.col, sr, sc, Abs(destRow - p.row) + Abs(destCol - p.col))) ||
               (Abs(destRow - p.row) == Abs(destCol - p.col) &&
                PathEmpty(g, p.row, p.col, sr, sc, Abs(destRow - p.row))))
  {
    var rook := NewPiece(Rook, p.row, p.col, p.white);
    var bishop := NewPiece(Bishop, p.row, p.col, p.white);
    if destRow == p.row || destCol == p.col {
      RookScanIsPathEmpty(rook, destRow, destCol, g);
    }
    if Abs(destRow - p.row) == Abs(destCol - p.col) {
      BishopScanIsPathEmpty(bishop, destRow, destCol, g);
    }
  }
}
