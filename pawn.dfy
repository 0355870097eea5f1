// Pawn.isValidMove (src/chess/Pawn.java).
module PawnMoves {
  import opened Pieces

  /** White pawns move toward row 0, black pawns toward row 7. */
  function Direction(white: bool): (d: int)
    ensures white ==> d == -1
    ensures !white ==> d == 1
  {
    if white then -1 else 1
  }

  /** The rank from which a two-square push is allowed: 6 for white, 1 for black.
      It depends on the rank only, not on the moved flag. */
  predicate OnStartRank(p: Piece)
  {
    (p.white && p.row == 6) || (!p.white && p.row == 1)
  }

  /** Pawn.isValidMove: a push onto an empty square one step ahead (two steps
      from the start rank over an empty square), or a diagonal step onto a
      square holding a piece of the other colour. */
  function PawnAccepts(p: Piece, destRow: int, destCol: int, g: Grid): (ok: bool)
    requires WellFormed(g) && InBoard(p.row, p.col) && InBoard(destRow, destCol)
    ensures ok ==> FreeOrOpposing(g, destRow, destCol, p.white)
    ensures ok ==> destRow - p.row == Direction(p.white) || destRow - p.row == 2 * Direction(p.white)
    ensures ok ==> Abs(destCol - p.col) <= 1
  {
    var dir := Direction(p.white);
    if p.col == destCol && g[destRow][destCol].None? &&
       (destRow - p.row == dir ||
        (OnStartRank(p) && destRow - p.row == 2 * dir && g[p.row + dir][p.col].None?))
    then
      true
    else
      Abs(destCol - p.col) == 1 && destRow - p.row == dir &&
      g[destRow][destCol].Some? && g[destRow][destCol].value.white != p.white
  }

  /** One step straight ahead is legal iff the target is empty. */
  lemma PawnSingleStep(p: Piece, destRow: int, destCol: int, g: Grid)
    requires WellFormed(g) && InBoard(p.row, p.col) && InBoard(destRow, destCol)
    requires destCol == p.col && destRow - p.row == Direction(p.white)
    ensures PawnAccepts(p, destRow, destCol, g) <==> g[destRow][destCol].None?
  {
  }

  /** Two steps straight ahead are legal iff the pawn stands on its start rank
      and both the target and the square passed over are empty. */
  lemma PawnDoubleStep(p: Piece, destRow: int, destCol: int, g: Grid)
    requires WellFormed(g) && InBoard(p.row, p.col) && InBoard(destRow, destCol)
    requires destCol == p.col && destRow - p.row == 2 * Direction(p.white)
    ensures PawnAccepts(p, destRow, destCol, g) <==>
              OnStartRank(p) && g[destRow][destCol].None? && g[p.row + Direction(p.white)][p.col].None?
  {
  }

  /** One step diagonally forward is legal iff the target holds an opposing piece. */
  lemma PawnDiagonal(p: Piece, destRow: int, destCol: int, g: Grid)
    requires WellFormed(g) && InBoard(p.row, p.col) && InBoard(destRow, destCol)
    requires Abs(destCol - p.col) == 1 && destRow - p.row == Direction(p.white)
    ensures PawnAccepts(p, destRow, destCol, g) <==>
              g[destRow][destCol].Some? && g[destRow][destCol].value.white != p.white
  {
  }

  /** A pawn never captures straight ahead and never moves sideways or backward. */
  lemma PawnRejects(p: Piece, destRow: int, destCol: int, g: Grid)
    requires WellFormed(g) && InBoard(p.row, p.col) && InBoard(destRow, destCol)
    requires (destCol == p.col && g[destRow][destCol].Some?) || (destRow - p.row) * Direction(p.white) <= 0
    ensures !PawnAccepts(p, destRow, destCol, g)
  {
  }
}
