// The abstract Piece.isValidMove (src/chess/Piece.java) dispatched to the six
// piece classes.
module Rules {
  import opened Pieces
  import opened KingMoves
  import opened PawnMoves
  import opened KnightMoves
  import opened BishopMoves
  import opened RookMoves
  import opened QueenMoves

  /** isValidMove of the piece's own class. */
  function Accepts(p: Piece, destRow: int, destCol: int, g: Grid): (ok: bool)
    requires WellFormed(g) && InBoard(p.row, p.col) && InBoard(destRow, destCol)
    ensures ok ==> FreeOrOpposing(g, destRow, destCol, p.white)
  {
    match p.kind
    case Pawn => PawnAccepts(p, destRow, destCol, g)
    case Knight => KnightAccepts(p, destRow, destCol, g)
    case Bishop => BishopAccepts(p, destRow, destCol, g)
    case Rook => RookAccepts(p, destRow, destCol, g)
    case Queen => QueenAccepts(p, destRow, destCol, g)
    case King => KingAccepts(p, destRow, destCol, g)
  }

  /** The dynamic dispatch `piece.isValidMove(r, c, board)` on the array. */
  method IsValidMove(p: Piece, destRow: int, destCol: int, a: array2<Option<Piece>>) returns (ok: bool)
    requires a.Length0 == 8 && a.Length1 == 8
    requires InBoard(p.row, p.col) && InBoard(destRow, destCol)
    ensures ok == Accepts(p, destRow, destCol, Snap(a))
  {
    match p.kind
    case Pawn => ok := PawnAccepts(p, destRow, destCol, Snap(a));
    case Knight => ok := KnightAccepts(p, destRow, destCol, Snap(a));
    case Bishop => ok := BishopIsValidMove(p, destRow, destCol, a);
    case Rook => ok := RookIsValidMove(p, destRow, destCol, a);
    case Queen => ok := QueenIsValidMove(p, destRow, destCol, a);
    case King => ok := KingAccepts(p, destRow, destCol, Snap(a));
  }

  /** No piece may move onto its own square, which it occupies itself. */
  lemma NeverOwnSquare(p: Piece, g: Grid)
    requires WellFormed(g) && InBoard(p.row, p.col)
    requires g[p.row][p.col] == Some(p)
    ensures !Accepts(p, p.row, p.col, g)
  {
  }

  /** Every unmoved rook of h is an unmoved rook of g. */
  ghost predicate FewerUnmovedRooks(g: Grid, h: Grid)
    requires WellFormed(g) && WellFormed(h)
  {
    forall i, j :: InBoard(i, j) && UnmovedRook(h[i][j]) ==> UnmovedRook(g[i][j])
  }

  /** Legality reads occupancy and colours, plus (for the king's castle clause)
      which corners hold unmoved rooks; so a grid with the same pieces' colours
      and fewer unmoved rooks accepts no more moves. */
  lemma AcceptsMonotone(p: Piece, destRow: int, destCol: int, g: Grid, h: Grid)
    requires WellFormed(g) && WellFormed(h) && InBoard(p.row, p.col) && InBoard(destRow, destCol)
    requires SameColours(g, h) && FewerUnmovedRooks(g, h)
    ensures Accepts(p, destRow, destCol, h) ==> Accepts(p, destRow, destCol, g)
  {
    match p.kind
    case Bishop => BishopFrame(p, destRow, destCol, g, h);
    case Rook => RookFrame(p, destRow, destCol, g, h);
    case Queen =>
      BishopFrame(NewPiece(Bishop, p.row, p.col, p.white), destRow, destCol, g, h);
      RookFrame(NewPiece(Rook, p.row, p.col, p.white), destRow, destCol, g, h);
    case _ =>
  }
}
