// Concrete positions evaluated by the movePiece specification MoveSpec in
// lemmas: the opening pawn push 1. e4, a promotion after which the mover's own
// king counts as in check, and a castle onto an attacked square after which
// the opponent captures the king.
module Scenarios {
  import opened Pieces
  import opened Rules
  import opened BoardSpec
  import opened BoardLaws
  import opened KingMoves

  /** From the opening position white may push the e-pawn two squares: the
      pawn leaves (6, 4), stands marked moved on (4, 4), and black is to move. */
  lemma OpeningDoublePush()
    ensures (InitialPosition(); InitialKings();
             var o := MoveSpec(InitialGrid(), true, 6, 4, 4, 4, Queen);
             o.ok && !o.whiteTurn && o.grid[6][4].None? &&
             o.grid[4][4] == Some(Piece(Pawn, true, 4, 4, true)))
  {
    InitialPosition();
    InitialKings();
    var g: Grid := InitialGrid();
    var p: Piece := g[6][4].value;
    assert p == Piece(Pawn, true, 6, 4, false);
    assert Accepts(p, 4, 4, g);
    MoveSpecNormalBranch(g, true, 6, 4, 4, 4, Queen);
    var t: Grid := Relocate(g, 6, 4, 4, 4);
    AfterPushKingSafe(t);
    var o := NormalOutcome(g, true, 6, 4, 4, 4, Queen);
    assert o.grid == Set(t, 4, 4, Some(Landed(p, 4, 4, Queen)));
  }

  /** After the trial push the white king is still the only one on (7, 4) and
      is not attacked. */
  lemma AfterPushKingSafe(t: Grid)
    requires t == Relocate(InitialGrid(), 6, 4, 4, 4)
    ensures Consistent(t) && KingExists(t, true) && !InCheck(t, true)
  {
    InitialPosition();
    InitialKings();
    var g: Grid := InitialGrid();
    RelocateFacts(g, 6, 4, 4, 4);
    forall i, j | InBoard(i, j) && IsKingOf(t[i][j], true)
      ensures i == 7 && j == 4
    {
      if i != 4 && i != 6 {
        assert t[i][j] == g[i][j];
      }
    }
    KingSquareOfOnlyKing(t, true, 7, 4);
    forall i, j | InBoard(i, j) && t[i][j].Some? && !t[i][j].value.white
      ensures i <= 1 && t[i][j] == InitialCell(i, j)
    {
      assert t[i][j] == g[i][j];
    }
    BlackHomeSparesE1(t);
  }

  /** While every black piece stands on its opening square, none of them
      accepts the white king's square (7, 4). */
  lemma BlackHomeSparesE1(t: Grid)
    requires WellFormed(t) && Consistent(t)
    requires forall i, j :: InBoard(i, j) && t[i][j].Some? && !t[i][j].value.white ==> i <= 1 && t[i][j] == InitialCell(i, j)
    ensures !Attacked(t, 7, 4, false)
  {
    forall i, j | InBoard(i, j)
      ensures !AttacksFrom(t, i, j, 7, 4, false)
    {
      if t[i][j].Some? && !t[i][j].value.white {
        var q := t[i][j].value;
        assert q.row == i && q.col == j && i <= 1;
        if q.kind == Rook || q.kind == Queen {
          assert j != 4;
        }
      }
    }
  }

  /** White king on (0, 2), white pawn on (1, 0), black king unmoved on (0, 4). */
  function TrapCell(r: int, c: int): Option<Piece>
  {
    if r == 0 && c == 2 then Some(Piece(King, true, 0, 2, true))
    else if r == 1 && c == 0 then Some(Piece(Pawn, true, 1, 0, true))
    else if r == 0 && c == 4 then Some(Piece(King, false, 0, 4, false))
    else None
  }

  function PromotionTrap(): (g: Grid)
    ensures WellFormed(g) && Consistent(g)
    ensures forall r, c :: InBoard(r, c) ==> g[r][c] == TrapCell(r, c)
  {
    seq(8, r requires 0 <= r < 8 => seq(8, c requires 0 <= c < 8 => TrapCell(r, c)))
  }

  /** Promoting the pawn to a Rook on the corner (0, 0) is accepted (the king is
      safe while a pawn stands there), but the new rook is unmoved, so the black
      king's castle clause then reaches (0, 2): after the move isKingInCheck(true)
      holds for the side that just moved. */
  lemma RookPromotionChecksOwnKing()
    ensures KingExists(PromotionTrap(), true)
    ensures MoveSpec(PromotionTrap(), true, 1, 0, 0, 0, Rook).ok
    ensures KingExists(MoveSpec(PromotionTrap(), true, 1, 0, 0, 0, Rook).grid, true)
    ensures InCheck(MoveSpec(PromotionTrap(), true, 1, 0, 0, 0, Rook).grid, true)
  {
    var g: Grid := PromotionTrap();
    KingSquareOfOnlyKing(g, true, 0, 2);
    assert Accepts(g[1][0].value, 0, 0, g);
    MoveSpecNormalBranch(g, true, 1, 0, 0, 0, Rook);
    RelocateFacts(g, 1, 0, 0, 0);
    var t: Grid := Relocate(g, 1, 0, 0, 0);
    TrapSafeWithPawn(t);
    var h: Grid := MoveSpec(g, true, 1, 0, 0, 0, Rook).grid;
    assert h == Set(t, 0, 0, Some(NewPiece(Rook, 0, 0, true)));
    TrapSprungByRook(t, h);
  }

  /** After the trial relocation a pawn stands in the corner; the black king
      cannot castle toward it, so (0, 2) is not attacked. */
  lemma TrapSafeWithPawn(t: Grid)
    requires t == Relocate(PromotionTrap(), 1, 0, 0, 0)
    ensures Consistent(t) && KingExists(t, true) && !InCheck(t, true)
  {
    assert IsKingOf(PromotionTrap()[0][2], true);
    RelocateFacts(PromotionTrap(), 1, 0, 0, 0);
    KingSquareOfOnlyKing(t, true, 0, 2);
    forall i, j | InBoard(i, j)
      ensures !AttacksFrom(t, i, j, 0, 2, false)
    {
      if i == 0 && j == 4 {
        assert !UnmovedRook(t[0][0]);
      }
    }
  }

  /** With the unmoved rook in the corner the black king's castle clause accepts (0, 2). */
  lemma TrapSprungByRook(t: Grid, h: Grid)
    requires t == Relocate(PromotionTrap(), 1, 0, 0, 0)
    requires h == Set(t, 0, 0, Some(NewPiece(Rook, 0, 0, true)))
    ensures Consistent(h) && KingExists(h, true) && InCheck(h, true)
  {
    assert IsKingOf(PromotionTrap()[0][2], true);
    RelocateFacts(PromotionTrap(), 1, 0, 0, 0);
    SetConsistent(t, 0, 0, Some(NewPiece(Rook, 0, 0, true)));
    KingSquareOfOnlyKing(h, true, 0, 2);
    assert AttacksFrom(h, 0, 4, 0, 2, false);
  }

  /** White king unmoved on (7, 4), white rook unmoved on (7, 7), black king
      (moved) on (0, 0), black bishop on (5, 4). */
  function CastleTrapCell(r: int, c: int): Option<Piece>
  {
    if r == 7 && c == 4 then Some(Piece(King, true, 7, 4, false))
    else if r == 7 && c == 7 then Some(Piece(Rook, true, 7, 7, false))
    else if r == 0 && c == 0 then Some(Piece(King, false, 0, 0, true))
    else if r == 5 && c == 4 then Some(Piece(Bishop, false, 5, 4, true))
    else None
  }

  /** The position whose cells CastleTrapCell lists. */
  function CastleTrap(): (g: Grid)
    ensures WellFormed(g) && Consistent(g)
    ensures forall r, c :: InBoard(r, c) ==> g[r][c] == CastleTrapCell(r, c)
  {
    seq(8, r requires 0 <= r < 8 => seq(8, c requires 0 <= c < 8 => CastleTrapCell(r, c)))
  }

  /** The same position after white castles short: king on (7, 6), rook on
      (7, 5), both moved. */
  function CastledTrapCell(r: int, c: int): Option<Piece>
  {
    if r == 7 && c == 6 then Some(Piece(King, true, 7, 6, true))
    else if r == 7 && c == 5 then Some(Piece(Rook, true, 7, 5, true))
    else if r == 7 && (c == 4 || c == 7) then None
    else CastleTrapCell(r, c)
  }

  /** White may castle onto (7, 6) although the black bishop attacks it: the
      castling branch tests only (7, 5). Afterwards white, who has just moved,
      is in check. */
  lemma CastleIntoCheck()
    ensures KingExists(CastleTrap(), true)
    ensures MoveSpec(CastleTrap(), true, 7, 4, 7, 6, Queen).ok
    ensures forall r, c :: InBoard(r, c) ==> MoveSpec(CastleTrap(), true, 7, 4, 7, 6, Queen).grid[r][c] == CastledTrapCell(r, c)
    ensures KingExists(MoveSpec(CastleTrap(), true, 7, 4, 7, 6, Queen).grid, true)
    ensures InCheck(MoveSpec(CastleTrap(), true, 7, 4, 7, 6, Queen).grid, true)
  {
    var g: Grid := CastleTrap();
    KingSquareOfOnlyKing(g, true, 7, 4);
    assert Accepts(g[7][4].value, 7, 6, g);
    MoveSpecCastleBranch(g, true, 7, 4, 7, 6, Queen);
    CastleTrapSafe(g);
    assert TransitClear(g, 7, 4, 6, false) by {
      CastleTrapTransit(g);
    }
    var h: Grid := MoveSpec(g, true, 7, 4, 7, 6, Queen).grid;
    assert h == Castled(g, 7, 4, 6);
    CastleTrapCastled(g, h);
  }

  /** Before castling no black piece accepts (7, 4). */
  lemma CastleTrapSafe(g: Grid)
    requires g == CastleTrap()
    ensures KingExists(g, true) && !InCheck(g, true)
  {
    KingSquareOfOnlyKing(g, true, 7, 4);
    forall i, j | InBoard(i, j)
      ensures !AttacksFrom(g, i, j, 7, 4, false)
    {
    }
  }

  /** The one square between the king's origin and destination, (7, 5), is
      empty and not attacked by black. */
  lemma CastleTrapTransit(g: Grid)
    requires g == CastleTrap()
    ensures g[7][5].None? && !Attacked(g, 7, 5, false)
  {
    forall i, j | InBoard(i, j)
      ensures !AttacksFrom(g, i, j, 7, 5, false)
    {
    }
  }

  /** After the castle the bishop on (5, 4) accepts the king's square (7, 6). */
  lemma CastleTrapCastled(g: Grid, h: Grid)
    requires g == CastleTrap() && h == Castled(g, 7, 4, 6)
    ensures Consistent(h) && forall r, c :: InBoard(r, c) ==> h[r][c] == CastledTrapCell(r, c)
    ensures KingExists(h, true) && InCheck(h, true)
  {
    assert RookCorner(4, 6) == 7 && RookLanding(4, 6) == 5;
    KingSquareOfOnlyKing(h, true, 7, 6);
    assert h[6][5].None?;
    assert AttacksFrom(h, 5, 4, 7, 6, false);
  }

  /** Black then takes the white king with the bishop; the move is accepted
      and no white king is left, so no check query about white can be asked
      of the new position. */
  lemma BishopTakesKing(h: Grid)
    requires WellFormed(h) && Consistent(h)
    requires forall r, c :: InBoard(r, c) ==> h[r][c] == CastledTrapCell(r, c)
    ensures KingExists(h, false)
    ensures MoveSpec(h, false, 5, 4, 7, 6, Queen).ok
    ensures !KingExists(MoveSpec(h, false, 5, 4, 7, 6, Queen).grid, true)
  {
    KingSquareOfOnlyKing(h, false, 0, 0);
    assert h[6][5].None?;
    assert Accepts(h[5][4].value, 7, 6, h);
    MoveSpecNormalBranch(h, false, 5, 4, 7, 6, Queen);
    var t: Grid := Relocate(h, 5, 4, 7, 6);
    CaptureLeavesBlackSafe(h, t);
    var o := MoveSpec(h, false, 5, 4, 7, 6, Queen);
    assert o.grid == Set(t, 7, 6, Some(Landed(h[5][4].value, 7, 6, Queen)));
    forall i, j | InBoard(i, j)
      ensures !IsKingOf(o.grid[i][j], true)
    {
    }
  }

  /** After the trial capture only the moved white rook on (7, 5) is left to
      attack, and it does not reach the black king on (0, 0). */
  lemma CaptureLeavesBlackSafe(h: Grid, t: Grid)
    requires WellFormed(h) && Consistent(h)
    requires forall r, c :: InBoard(r, c) ==> h[r][c] == CastledTrapCell(r, c)
    requires h[5][4].Some? && t == Relocate(h, 5, 4, 7, 6)
    ensures Consistent(t) && KingExists(t, false) && !InCheck(t, false)
  {
    assert IsKingOf(h[0][0], false);
    RelocateFacts(h, 5, 4, 7, 6);
    KingSquareOfOnlyKing(t, false, 0, 0);
    forall i, j | InBoard(i, j)
      ensures !AttacksFrom(t, i, j, 0, 0, true)
    {
    }
  }
}
