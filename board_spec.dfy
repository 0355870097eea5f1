// The meaning of src/chess/Board.java on grid values: the opening position,
// the king search and attack scans, the move simulations of the checkmate and
// stalemate queries, and the outcome of movePiece.
module BoardSpec {
  import opened Pieces
  import opened Rules
  import opened KingMoves

  // ---------------------------------------------------------------------------
  // Opening position (setup)

  function BackRank(c: int): Kind
    requires 0 <= c < 8
  {
    [Rook, Knight, Bishop, Queen, King, Bishop, Knight, Rook][c]
  }

  /** What setup() leaves in cell (r, c) of a fresh array. */
  function InitialCell(r: int, c: int): Option<Piece>
    requires InBoard(r, c)
  {
    if r == 0 then Some(NewPiece(BackRank(c), 0, c, false))
    else if r == 1 then Some(NewPiece(Pawn, 1, c, false))
    else if r == 6 then Some(NewPiece(Pawn, 6, c, true))
    else if r == 7 then Some(NewPiece(BackRank(c), 7, c, true))
    else None
  }

  function InitialGrid(): (g: Grid)
    ensures WellFormed(g)
    ensures forall r, c :: InBoard(r, c) ==> g[r][c] == InitialCell(r, c)
  {
    seq(8, r requires 0 <= r < 8 => seq(8, c requires 0 <= c < 8 => InitialCell(r, c)))
  }

  /** Black R N B Q K B N R on row 0 and pawns on row 1; white mirrored on rows
      7 and 6; rows 2 to 5 empty; all 32 pieces unmoved and on their own squares. */
  lemma InitialPosition()
    ensures var g := InitialGrid();
      Consistent(g) &&
      (forall c :: 0 <= c < 8 ==>
         g[0][c] == Some(Piece(BackRank(c), false, 0, c, false)) &&
         g[1][c] == Some(Piece(Pawn, false, 1, c, false))) &&
      (forall r, c :: InBoard(r, c) && 2 <= r <= 5 ==> g[r][c].None?) &&
      (forall r, c :: InBoard(r, c) && (r <= 1 || r >= 6) ==> g[r][c].Some?) &&
      (forall r, c :: InBoard(r, c) && g[r][c].Some? ==> !g[r][c].value.moved) &&
      (forall r, c :: InBoard(r, c) && g[r][c].Some? ==>
         g[7 - r][c].Some? && g[7 - r][c].value.kind == g[r][c].value.kind &&
         g[7 - r][c].value.white == !g[r][c].value.white)
  {
  }

  // ---------------------------------------------------------------------------
  // King search (first loop of isKingInCheck)

  predicate IsKingOf(x: Option<Piece>, white: bool)
  {
    x.Some? && x.value.kind == King && x.value.white == white
  }

  /** (i, j) comes before (row, col) in the row-by-row scan order. */
  predicate RowMajorBefore(i: int, j: int, row: int, col: int)
  {
    i < row || (i == row && j < col)
  }

  ghost predicate KingExists(g: Grid, white: bool)
    requires WellFormed(g)
  {
    exists r, c :: InBoard(r, c) && IsKingOf(g[r][c], white)
  }

  /** (kingRow, kingCol) once the scan has visited every cell before (row, col):
      the last king of that colour seen, or (-1, -1) if none. */
  function LastKingBefore(g: Grid, white: bool, row: int, col: int): (k: (int, int))
    requires WellFormed(g) && 0 <= row <= 8 && 0 <= col <= 8 && (row == 8 ==> col == 0)
    ensures k == (-1, -1) || (InBoard(k.0, k.1) && RowMajorBefore(k.0, k.1, row, col) && IsKingOf(g[k.0][k.1], white))
    decreases row, col
  {
    if col == 0 then
      if row == 0 then (-1, -1) else LastKingBefore(g, white, row - 1, 8)
    else if IsKingOf(g[row][col - 1], white) then
      (row, col - 1)
    else
      LastKingBefore(g, white, row, col - 1)
  }

  /** The scan reports (-1, -1) exactly when no king of that colour lies before
      (row, col); otherwise a king before (row, col) with none between it and
      (row, col). */
  lemma {:induction false} LastKingBeforeSpec(g: Grid, white: bool, row: int, col: int)
    requires WellFormed(g) && 0 <= row <= 8 && 0 <= col <= 8 && (row == 8 ==> col == 0)
    ensures var k := LastKingBefore(g, white, row, col);
            (k == (-1, -1) <==>
               forall i, j :: InBoard(i, j) && RowMajorBefore(i, j, row, col) ==> !IsKingOf(g[i][j], white)) &&
            (k != (-1, -1) ==>
               InBoard(k.0, k.1) && RowMajorBefore(k.0, k.1, row, col) && IsKingOf(g[k.0][k.1], white) &&
               forall i, j :: InBoard(i, j) && RowMajorBefore(k.0, k.1, i, j) && RowMajorBefore(i, j, row, col) ==>
                 !IsKingOf(g[i][j], white))
    decreases row, col
  {
    if col == 0 {
      if row > 0 {
        LastKingBeforeSpec(g, white, row - 1, 8);
      }
    } else if !IsKingOf(g[row][col - 1], white) {
      LastKingBeforeSpec(g, white, row, col - 1);
    }
  }

  /** The square isKingInCheck examines: the last king of that colour in scan order. */
  function KingSquare(g: Grid, white: bool): (k: (int, int))
    requires WellFormed(g) && KingExists(g, white)
    ensures InBoard(k.0, k.1) && IsKingOf(g[k.0][k.1], white)
  {
    LastKingBeforeSpec(g, white, 8, 0);
    LastKingBefore(g, white, 8, 0)
  }

  /** No king of that colour comes after KingSquare in scan order. */
  lemma KingSquareIsLast(g: Grid, white: bool)
    requires WellFormed(g) && KingExists(g, white)
    ensures var k := KingSquare(g, white);
            forall i, j :: InBoard(i, j) && RowMajorBefore(k.0, k.1, i, j) ==> !IsKingOf(g[i][j], white)
  {
    LastKingBeforeSpec(g, white, 8, 0);
  }

  /** With a single king of a colour, KingSquare finds it. */
  lemma KingSquareOfOnlyKing(g: Grid, white: bool, r: int, c: int)
    requires WellFormed(g) && InBoard(r, c) && IsKingOf(g[r][c], white)
    requires forall i, j :: InBoard(i, j) && IsKingOf(g[i][j], white) ==> i == r && j == c
    ensures KingExists(g, white) && KingSquare(g, white) == (r, c)
  {
    KingSquareIsLast(g, white);
  }

  /** In the opening position isKingInCheck finds the white king on (7, 4)
      and the black king on (0, 4). */
  lemma InitialKings()
    ensures forall i, j :: InBoard(i, j) && IsKingOf(InitialGrid()[i][j], true) ==> i == 7 && j == 4
    ensures forall i, j :: InBoard(i, j) && IsKingOf(InitialGrid()[i][j], false) ==> i == 0 && j == 4
    ensures KingExists(InitialGrid(), true) && KingSquare(InitialGrid(), true) == (7, 4)
    ensures KingExists(InitialGrid(), false) && KingSquare(InitialGrid(), false) == (0, 4)
  {
    var g := InitialGrid();
    forall i, j | InBoard(i, j) && IsKingOf(g[i][j], true)
      ensures i == 7 && j == 4
    {
      assert BackRank(j) == King;
    }
    forall i, j | InBoard(i, j) && IsKingOf(g[i][j], false)
      ensures i == 0 && j == 4
    {
      assert BackRank(j) == King;
    }
    KingSquareOfOnlyKing(g, true, 7, 4);
    KingSquareOfOnlyKing(g, false, 0, 4);
  }

  // ---------------------------------------------------------------------------
  // Attacks and check

  /** The piece in cell (i, j) is of colour byWhite and its predicate accepts (r, c). */
  ghost predicate AttacksFrom(g: Grid, i: int, j: int, r: int, c: int, byWhite: bool): (b: bool)
    requires WellFormed(g) && Consistent(g) && InBoard(i, j) && InBoard(r, c)
    ensures b ==> (i != r || j != c) && FreeOrOpposing(g, r, c, byWhite)
  {
    g[i][j].Some? && g[i][j].value.white == byWhite && Accepts(g[i][j].value, r, c, g)
  }

  /** squareUnderAttack(r, c, byWhite). */
  ghost predicate Attacked(g: Grid, r: int, c: int, byWhite: bool): (b: bool)
    requires WellFormed(g) && Consistent(g) && InBoard(r, c)
    ensures b ==> FreeOrOpposing(g, r, c, byWhite)
  {
    exists i, j :: InBoard(i, j) && AttacksFrom(g, i, j, r, c, byWhite)
  }

  /** isKingInCheck(white): a piece of the other colour accepts the king's square. */
  ghost predicate InCheck(g: Grid, white: bool): (b: bool)
    requires WellFormed(g) && Consistent(g) && KingExists(g, white)
    ensures b ==> exists i, j :: InBoard(i, j) && g[i][j].Some? && g[i][j].value.white != white
  {
    var k := KingSquare(g, white);
    Attacked(g, k.0, k.1, !white)
  }

  // ---------------------------------------------------------------------------
  // Simulated moves (isCheckmate, isStalemate and the normal path of movePiece)

  /** board[tr][tc] = piece; board[fr][fc] = null; piece.setPosition(tr, tc). */
  function Relocate(g: Grid, fr: int, fc: int, tr: int, tc: int): (h: Grid)
    requires WellFormed(g) && InBoard(fr, fc) && InBoard(tr, tc) && g[fr][fc].Some?
    ensures WellFormed(h)
    ensures h[fr][fc].None?
    ensures (fr != tr || fc != tc) ==> h[tr][tc] == Some(g[fr][fc].value.SetPosition(tr, tc))
    ensures forall i, j :: InBoard(i, j) && (i != fr || j != fc) && (i != tr || j != tc) ==> h[i][j] == g[i][j]
  {
    Set(Set(g, tr, tc, Some(g[fr][fc].value.SetPosition(tr, tc))), fr, fc, None)
  }

  /** A move onto an empty or opposing square keeps the position invariant and
      the mover's king. */
  lemma RelocateFacts(g: Grid, fr: int, fc: int, tr: int, tc: int)
    requires WellFormed(g) && Consistent(g) && InBoard(fr, fc) && InBoard(tr, tc) && g[fr][fc].Some?
    requires FreeOrOpposing(g, tr, tc, g[fr][fc].value.white)
    requires KingExists(g, g[fr][fc].value.white)
    ensures Consistent(Relocate(g, fr, fc, tr, tc))
    ensures KingExists(Relocate(g, fr, fc, tr, tc), g[fr][fc].value.white)
  {
    var w := g[fr][fc].value.white;
    var h := Relocate(g, fr, fc, tr, tc);
    var kr, kc :| InBoard(kr, kc) && IsKingOf(g[kr][kc], w);
    if kr == fr && kc == fc {
      assert IsKingOf(h[tr][tc], w);
    } else {
      assert h[kr][kc] == g[kr][kc];
    }
  }

  /** Writing back the two cells a relocation changed restores the grid. */
  lemma RelocateUndo(g: Grid, fr: int, fc: int, tr: int, tc: int)
    requires WellFormed(g) && InBoard(fr, fc) && InBoard(tr, tc) && g[fr][fc].Some?
    ensures Set(Set(Relocate(g, fr, fc, tr, tc), fr, fc, g[fr][fc]), tr, tc, g[tr][tc]) == g
  {
    GridExt(Set(Set(Relocate(g, fr, fc, tr, tc), fr, fc, g[fr][fc]), tr, tc, g[tr][tc]), g);
  }

  /** The candidate move (fr, fc) -> (tr, tc) that the scans of isCheckmate and
      isStalemate accept: a piece of the side to move, accepted by its
      predicate, after which that side's king is not in check. */
  ghost predicate Escapes(g: Grid, white: bool, fr: int, fc: int, tr: int, tc: int): (b: bool)
    requires WellFormed(g) && Consistent(g) && KingExists(g, white) && InBoard(fr, fc) && InBoard(tr, tc)
    ensures b ==> (fr != tr || fc != tc) && FreeOrOpposing(g, tr, tc, white)
  {
    g[fr][fc].Some? && g[fr][fc].value.white == white &&
    Accepts(g[fr][fc].value, tr, tc, g) &&
    (RelocateFacts(g, fr, fc, tr, tc);
     !InCheck(Relocate(g, fr, fc, tr, tc), white))
  }

  /** isCheckmate() for the side `white`: no candidate move escapes. Whether
      that side is in check is not looked at. */
  ghost predicate NoEscape(g: Grid, white: bool): (b: bool)
    requires WellFormed(g) && Consistent(g) && KingExists(g, white)
    ensures b ==> var k := KingSquare(g, white);
                  forall tr, tc :: InBoard(tr, tc) ==> !Escapes(g, white, k.0, k.1, tr, tc)
  {
    forall fr, fc :: InBoard(fr, fc) ==> Stuck(g, white, fr, fc)
  }

  /** No piece on row fr has an escaping move. */
  ghost predicate RowStuck(g: Grid, white: bool, fr: int)
    requires WellFormed(g) && Consistent(g) && KingExists(g, white) && 0 <= fr < 8
  {
    forall fc :: 0 <= fc < 8 ==> Stuck(g, white, fr, fc)
  }

  /** No piece on the first n rows has an escaping move. */
  ghost predicate RowsStuck(g: Grid, white: bool, n: int)
    requires WellFormed(g) && Consistent(g) && KingExists(g, white)
  {
    forall fr :: 0 <= fr < n && fr < 8 ==> RowStuck(g, white, fr)
  }

  /** The row-by-row scan decides NoEscape: it grows one row at a time,
      covers the board after row 7, and fails on any stuck-free row. */
  lemma RowsStuckStep(g: Grid, white: bool, n: int)
    requires WellFormed(g) && Consistent(g) && KingExists(g, white) && 0 <= n < 8
    ensures RowsStuck(g, white, n) && RowStuck(g, white, n) ==> RowsStuck(g, white, n + 1)
    ensures RowsStuck(g, white, 8) <==> NoEscape(g, white)
    ensures !RowStuck(g, white, n) ==> !NoEscape(g, white)
  {
    if RowsStuck(g, white, 8) {
      forall fr, fc | InBoard(fr, fc)
        ensures Stuck(g, white, fr, fc)
      {
        assert RowStuck(g, white, fr);
      }
    }
    if !RowStuck(g, white, n) {
      var fc :| 0 <= fc < 8 && !Stuck(g, white, n, fc);
      assert InBoard(n, fc);
    }
  }

  /** No candidate move of whatever stands on (fr, fc) escapes. */
  ghost predicate Stuck(g: Grid, white: bool, fr: int, fc: int)
    requires WellFormed(g) && Consistent(g) && KingExists(g, white) && InBoard(fr, fc)
  {
    forall tr, tc :: InBoard(tr, tc) ==> !Escapes(g, white, fr, fc, tr, tc)
  }

  /** isStalemate() for the side `white`. */
  ghost predicate Stalemate(g: Grid, white: bool): (b: bool)
    requires WellFormed(g) && Consistent(g) && KingExists(g, white)
    ensures b ==> NoEscape(g, white)
  {
    !InCheck(g, white) && NoEscape(g, white)
  }

  /** A stalemate also answers true to isCheckmate; in check there is never a stalemate. */
  lemma StalemateIsCheckmateVerdict(g: Grid, white: bool)
    requires WellFormed(g) && Consistent(g) && KingExists(g, white)
    ensures Stalemate(g, white) ==> NoEscape(g, white)
    ensures InCheck(g, white) ==> !Stalemate(g, white)
    ensures !InCheck(g, white) ==> (Stalemate(g, white) <==> NoEscape(g, white))
  {
  }

  // ---------------------------------------------------------------------------
  // movePiece

  predicate IsCastleAttempt(p: Piece, fr: int, fc: int, tr: int, tc: int)
  {
    p.kind == King && Abs(tc - fc) == 2 && fr == tr && !p.moved
  }

  function RookLanding(fc: int, tc: int): int
  {
    if tc > fc then 5 else 3
  }

  predicate StrictlyBetween(a: int, k: int, b: int)
  {
    (a < k < b) || (b < k < a)
  }

  /** The castling loop: every square strictly between the king's origin and
      destination is empty and not attacked by byWhite. */
  ghost predicate TransitClear(g: Grid, row: int, fc: int, tc: int, byWhite: bool): (b: bool)
    requires WellFormed(g) && Consistent(g) && InBoard(row, fc) && InBoard(row, tc)
    ensures Abs(tc - fc) == 2 ==> (b <==> g[row][(fc + tc) / 2].None? && !Attacked(g, row, (fc + tc) / 2, byWhite))
  {
    forall k :: StrictlyBetween(fc, k, tc) ==> g[row][k].None? && !Attacked(g, row, k, byWhite)
  }

  /** The four writes of a castle, in the source's order. */
  function Castled(g: Grid, row: int, fc: int, tc: int): (h: Grid)
    requires WellFormed(g) && InBoard(row, fc) && InBoard(row, tc)
    requires g[row][fc].Some? && g[row][RookCorner(fc, tc)].Some?
    ensures WellFormed(h)
    ensures Consistent(g) ==> Consistent(h)
  {
    var king := g[row][fc].value;
    var rook := g[row][RookCorner(fc, tc)].value;
    var h1 := Set(g, row, tc, Some(king.SetPosition(row, tc).SetMoved(true)));
    var h2 := Set(h1, row, fc, None);
    var h3 := Set(h2, row, RookCorner(fc, tc), None);
    Set(h3, row, RookLanding(fc, tc), Some(rook.SetPosition(row, RookLanding(fc, tc)).SetMoved(true)))
  }

  /** The promotion dialog's switch: Rook, Bishop and Knight as chosen, anything
      else a Queen. */
  function PromotedKind(choice: Kind): (k: Kind)
    ensures k == Queen || k == Rook || k == Bishop || k == Knight
    ensures (choice == Rook || choice == Bishop || choice == Knight) ==> k == choice
  {
    match choice
    case Rook => Rook
    case Bishop => Bishop
    case Knight => Knight
    case _ => Queen
  }

  predicate ReachesLastRank(p: Piece, tr: int)
  {
    p.kind == Pawn && (tr == 0 || tr == 7)
  }

  /** What stands on the destination after a completed normal move: a new piece
      (not marked moved) for a promoting pawn, else the mover, repositioned and
      marked moved. */
  function Landed(p: Piece, tr: int, tc: int, choice: Kind): (q: Piece)
    ensures q.white == p.white && q.row == tr && q.col == tc
    ensures ReachesLastRank(p, tr) ==> q.kind == PromotedKind(choice) && !q.moved
    ensures !ReachesLastRank(p, tr) ==> q.kind == p.kind && q.moved
  {
    if ReachesLastRank(p, tr) then NewPiece(PromotedKind(choice), tr, tc, p.white)
    else p.SetPosition(tr, tc).SetMoved(true)
  }

  datatype Outcome = Outcome(ok: bool, grid: Grid, whiteTurn: bool)

  /** The castling branch of movePiece for the king on (row, fc) moving to
      (row, tc): it needs an unmoved Rook in the corner, the mover not in check
      and a clear, unattacked transit. */
  ghost function CastleOutcome(g: Grid, turn: bool, row: int, fc: int, tc: int): (o: Outcome)
    requires WellFormed(g) && Consistent(g) && KingExists(g, turn) && InBoard(row, fc) && InBoard(row, tc)
    requires g[row][fc].Some?
    ensures WellFormed(o.grid) && Consistent(o.grid)
    ensures !o.ok ==> o.grid == g && o.whiteTurn == turn
    ensures o.ok ==> o.whiteTurn == !turn && UnmovedRook(g[row][RookCorner(fc, tc)]) && !InCheck(g, turn)
  {
    if UnmovedRook(g[row][RookCorner(fc, tc)]) && !InCheck(g, turn) && TransitClear(g, row, fc, tc, !turn) then
      Outcome(true, Castled(g, row, fc, tc), !turn)
    else
      Outcome(false, g, turn)
  }

  /** The normal branch of movePiece: the move is made, taken back if the
      mover's king is then in check, and otherwise completed by promotion or by
      marking the mover moved. */
  ghost function NormalOutcome(g: Grid, turn: bool, fr: int, fc: int, tr: int, tc: int, choice: Kind): (o: Outcome)
    requires WellFormed(g) && Consistent(g) && InBoard(fr, fc) && InBoard(tr, tc) && g[fr][fc].Some?
    requires g[fr][fc].value.white == turn && FreeOrOpposing(g, tr, tc, turn) && KingExists(g, turn)
    ensures WellFormed(o.grid) && Consistent(o.grid)
    ensures !o.ok ==> o.grid == g && o.whiteTurn == turn
    ensures o.ok ==> o.whiteTurn == !turn && o.grid[fr][fc].None? &&
                     o.grid[tr][tc] == Some(Landed(g[fr][fc].value, tr, tc, choice))
  {
    RelocateFacts(g, fr, fc, tr, tc);
    var t := Relocate(g, fr, fc, tr, tc);
    if InCheck(t, turn) then
      Outcome(false, g, turn)
    else
      Outcome(true, Set(t, tr, tc, Some(Landed(g[fr][fc].value, tr, tc, choice))), !turn)
  }

  /** The result and the new state of movePiece(fr, fc, tr, tc) with `choice`
      as the answer to the promotion dialog. */
  ghost function MoveSpec(g: Grid, turn: bool, fr: int, fc: int, tr: int, tc: int, choice: Kind): (o: Outcome)
    requires WellFormed(g) && Consistent(g) && KingExists(g, turn) && InBoard(fr, fc) && InBoard(tr, tc)
    ensures WellFormed(o.grid) && Consistent(o.grid)
    ensures !o.ok ==> o.grid == g && o.whiteTurn == turn
    ensures o.ok ==> o.whiteTurn == !turn
  {
    if g[fr][fc].None? then
      Outcome(false, g, turn)
    else
      var p := g[fr][fc].value;
      if p.white != turn || !Accepts(p, tr, tc, g) then
        Outcome(false, g, turn)
      else if g[tr][tc].Some? && g[tr][tc].value.white == p.white then
        Outcome(false, g, turn)
      else if IsCastleAttempt(p, fr, fc, tr, tc) then
        CastleOutcome(g, turn, fr, fc, tc)
      else
        NormalOutcome(g, turn, fr, fc, tr, tc, choice)
  }
}
