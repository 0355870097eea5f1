// Knight.isValidMove (src/chess/Knight.java).
module KnightMoves {
  import opened Pieces

  /** The L shape on absolute offsets: (2, 1) or (1, 2). */
  predicate KnightShape(dr: int, dc: int)
  {
    (Abs(dr) == 2 && Abs(dc) == 1) || (Abs(dr) == 1 && Abs(dc) == 2)
  }

  /** Knight.isValidMove: an L-shaped offset onto a square that is empty or
      holds an opposing piece; nothing in between is read. */
  function KnightAccepts(p: Piece, destRow: int, destCol: int, g: Grid): (ok: bool)
    requires WellFormed(g) && InBoard(p.row, p.col) && InBoard(destRow, destCol)
    ensures ok <==> KnightShape(destRow - p.row, destCol - p.col) && FreeOrOpposing(g, destRow, destCol, p.white)
  {
    var dr := Abs(destRow - p.row);
    var dc := Abs(destCol - p.col);
    ((dr == 2 && dc == 1) || (dr == 1 && dc == 2)) &&
    (g[destRow][destCol].None? || g[destRow][destCol].value.white != p.white)
  }

  /** The shape is symmetric under a change of sign of either offset, and the
      knight's own square (offset (0, 0)) is never of that shape. */
  lemma KnightShapeSymmetric(dr: int, dc: int)
    ensures KnightShape(dr, dc) == KnightShape(-dr, dc) == KnightShape(dr, -dc) == KnightShape(dc, dr)
    ensures !KnightShape(0, 0)
  {
  }

  /** Only the destination cell is read: two grids that agree there give the same answer. */
  lemma KnightReadsOnlyDestination(p: Piece, destRow: int, destCol: int, g: Grid, h: Grid)
    requires WellFormed(g) && WellFormed(h) && InBoard(p.row, p.col) && InBoard(destRow, destCol)
    requires g[destRow][destCol] == h[destRow][destCol]
    ensures KnightAccepts(p, destRow, destCol, g) == KnightAccepts(p, destRow, destCol, h)
  {
  }
}
