// Properties of movePiece and of the check queries of src/chess/Board.java,
// stated over the value-level meaning in BoardSpec.
module BoardLaws {
  import opened Pieces
  import opened Rules
  import opened BoardSpec
  import opened KingMoves

  /** The common preconditions of movePiece. */
  ghost predicate MoveDomain(g: Grid, turn: bool, fr: int, fc: int, tr: int, tc: int)
  {
    WellFormed(g) && Consistent(g) && KingExists(g, turn) && InBoard(fr, fc) && InBoard(tr, tc)
  }

  /** movePiece returns false, and changes nothing, when the source is empty,
      holds a piece of the side not on turn, holds a piece whose predicate
      rejects the destination, or the destination holds a piece of the mover's
      colour. */
  lemma MoveRejections(g: Grid, turn: bool, fr: int, fc: int, tr: int, tc: int, choice: Kind)
    requires MoveDomain(g, turn, fr, fc, tr, tc)
    requires g[fr][fc].None? || g[fr][fc].value.white != turn || !Accepts(g[fr][fc].value, tr, tc, g) ||
             (g[tr][tc].Some? && g[tr][tc].value.white == g[fr][fc].value.white)
    ensures var o := MoveSpec(g, turn, fr, fc, tr, tc, choice);
            !o.ok && o.grid == g && o.whiteTurn == turn
  {
  }

  /** The castling branch of movePiece is taken once the common checks pass. */
  lemma MoveSpecCastleBranch(g: Grid, turn: bool, fr: int, fc: int, tr: int, tc: int, choice: Kind)
    requires MoveDomain(g, turn, fr, fc, tr, tc)
    requires g[fr][fc].Some? && g[fr][fc].value.white == turn && Accepts(g[fr][fc].value, tr, tc, g)
    requires FreeOrOpposing(g, tr, tc, turn) && IsCastleAttempt(g[fr][fc].value, fr, fc, tr, tc)
    ensures MoveSpec(g, turn, fr, fc, tr, tc, choice) == CastleOutcome(g, turn, fr, fc, tc)
  {
  }

  /** The normal branch of movePiece: the trial relocation decides. */
  lemma MoveSpecNormalBranch(g: Grid, turn: bool, fr: int, fc: int, tr: int, tc: int, choice: Kind)
    requires MoveDomain(g, turn, fr, fc, tr, tc)
    requires g[fr][fc].Some? && g[fr][fc].value.white == turn && Accepts(g[fr][fc].value, tr, tc, g)
    requires FreeOrOpposing(g, tr, tc, turn) && !IsCastleAttempt(g[fr][fc].value, fr, fc, tr, tc)
    ensures MoveSpec(g, turn, fr, fc, tr, tc, choice) == NormalOutcome(g, turn, fr, fc, tr, tc, choice)
  {
  }

  /** A normal move that would leave the mover's own king in check is refused
      and leaves every cell and the turn as they were. */
  lemma SelfCheckRefused(g: Grid, turn: bool, fr: int, fc: int, tr: int, tc: int, choice: Kind)
    requires MoveDomain(g, turn, fr, fc, tr, tc)
    requires g[fr][fc].Some? && g[fr][fc].value.white == turn && Accepts(g[fr][fc].value, tr, tc, g)
    requires !IsCastleAttempt(g[fr][fc].value, fr, fc, tr, tc)
    requires (RelocateFacts(g, fr, fc, tr, tc); InCheck(Relocate(g, fr, fc, tr, tc), turn))
    ensures var o := MoveSpec(g, turn, fr, fc, tr, tc, choice);
            !o.ok && o.grid == g && o.whiteTurn == turn
  {
  }

  /** A completed normal move: the mover (or its promoted replacement) stands on
      the destination, overwriting any captured piece, the source is empty, no
      other cell changes, and the turn passes. */
  lemma NormalMoveEffects(g: Grid, turn: bool, fr: int, fc: int, tr: int, tc: int, choice: Kind)
    requires MoveDomain(g, turn, fr, fc, tr, tc)
    requires g[fr][fc].Some? && !IsCastleAttempt(g[fr][fc].value, fr, fc, tr, tc)
    requires MoveSpec(g, turn, fr, fc, tr, tc, choice).ok
    ensures var o := MoveSpec(g, turn, fr, fc, tr, tc, choice);
            var p := g[fr][fc].value;
            p.white == turn && Accepts(p, tr, tc, g) && (fr != tr || fc != tc) &&
            o.grid[tr][tc] == Some(Landed(p, tr, tc, choice)) &&
            o.grid[fr][fc].None? &&
            (forall i, j :: InBoard(i, j) && (i != fr || j != fc) && (i != tr || j != tc) ==> o.grid[i][j] == g[i][j]) &&
            o.whiteTurn == !turn
  {
  }

  /** A move that is not a promotion marks the mover as moved at its new square. */
  lemma PlainMoveMarksMoved(g: Grid, turn: bool, fr: int, fc: int, tr: int, tc: int, choice: Kind)
    requires MoveDomain(g, turn, fr, fc, tr, tc)
    requires g[fr][fc].Some? && !IsCastleAttempt(g[fr][fc].value, fr, fc, tr, tc)
    requires !ReachesLastRank(g[fr][fc].value, tr)
    requires MoveSpec(g, turn, fr, fc, tr, tc, choice).ok
    ensures var o := MoveSpec(g, turn, fr, fc, tr, tc, choice);
            o.grid[tr][tc] == Some(g[fr][fc].value.(row := tr, col := tc, moved := true))
  {
  }

  /** A pawn reaching row 0 or 7 is replaced by a new piece of its colour and
      the chosen kind (Rook, Bishop or Knight, else Queen) at that square; as
      written, the new piece is left with moved == false. */
  lemma PromotionEffects(g: Grid, turn: bool, fr: int, fc: int, tr: int, tc: int, choice: Kind)
    requires MoveDomain(g, turn, fr, fc, tr, tc)
    requires g[fr][fc].Some? && ReachesLastRank(g[fr][fc].value, tr)
    requires MoveSpec(g, turn, fr, fc, tr, tc, choice).ok
    ensures var o := MoveSpec(g, turn, fr, fc, tr, tc, choice);
            o.grid[tr][tc] == Some(Piece(PromotedKind(choice), g[fr][fc].value.white, tr, tc, false))
  {
  }

  /** Castling succeeds only with an unmoved Rook (of any colour) in the corner,
      the mover not in check, and every square strictly between the king's
      origin and destination empty and not attacked by the opponent. */
  lemma CastleRequirements(g: Grid, turn: bool, fr: int, fc: int, tr: int, tc: int, choice: Kind)
    requires MoveDomain(g, turn, fr, fc, tr, tc)
    requires g[fr][fc].Some? && IsCastleAttempt(g[fr][fc].value, fr, fc, tr, tc)
    ensures MoveSpec(g, turn, fr, fc, tr, tc, choice).ok <==>
              g[fr][fc].value.white == turn && FreeOrOpposing(g, tr, tc, turn) &&
              UnmovedRook(g[fr][RookCorner(fc, tc)]) && !InCheck(g, turn) && TransitClear(g, fr, fc, tc, !turn)
  {
    KingMoves.KingCastleClause(g[fr][fc].value, tr, tc, g);
  }

  /** The king's column and the two rook columns do not overlap; this holds
      whenever the king stands on column 4. */
  predicate CastleColumnsDistinct(fc: int, tc: int)
  {
    tc != RookCorner(fc, tc) && fc != RookLanding(fc, tc) && tc != RookLanding(fc, tc)
  }

  lemma HomeColumnIsDistinct(tc: int)
    requires tc == 2 || tc == 6
    ensures CastleColumnsDistinct(4, tc)
  {
  }

  /** A completed castle: the king stands on the destination and the rook on
      column 5 (rightward) or 3 (leftward), both marked moved; their old
      squares are empty, nothing else changes, and the turn passes. */
  lemma CastleEffects(g: Grid, turn: bool, fr: int, fc: int, tr: int, tc: int, choice: Kind)
    requires MoveDomain(g, turn, fr, fc, tr, tc)
    requires g[fr][fc].Some? && IsCastleAttempt(g[fr][fc].value, fr, fc, tr, tc)
    requires CastleColumnsDistinct(fc, tc)
    requires MoveSpec(g, turn, fr, fc, tr, tc, choice).ok
    ensures var o := MoveSpec(g, turn, fr, fc, tr, tc, choice);
            var king := g[fr][fc].value;
            var rook := g[fr][RookCorner(fc, tc)].value;
            var rc := RookLanding(fc, tc);
            o.grid[fr][tc] == Some(king.(col := tc, moved := true)) &&
            o.grid[fr][rc] == Some(rook.(col := rc, moved := true)) &&
            (rc == 5 || rc == 3) && (tc > fc ==> rc == 5) &&
            o.grid[fr][fc].None? && o.grid[fr][RookCorner(fc, tc)].None? &&
            (forall i, j :: InBoard(i, j) && (i != fr || (j != fc && j != tc && j != rc && j != RookCorner(fc, tc))) ==>
               o.grid[i][j] == g[i][j]) &&
            o.whiteTurn == !turn
  {
  }

  /** Every unmoved king stands on column 4, where setup placed it. */
  ghost predicate UnmovedKingsHome(g: Grid)
    requires WellFormed(g)
  {
    forall i, j :: InBoard(i, j) && g[i][j].Some? && g[i][j].value.kind == King && !g[i][j].value.moved ==> j == 4
  }

  /** The opening position satisfies it. */
  lemma InitialKingsHome()
    ensures UnmovedKingsHome(InitialGrid())
  {
    var g: Grid := InitialGrid();
    forall i, j | InBoard(i, j) && g[i][j].Some? && g[i][j].value.kind == King
      ensures j == 4
    {
      assert BackRank(j) == King;
    }
  }

  /** movePiece keeps it: the king that moves, castling or not, is marked
      moved, and a promotion never yields a King. So it holds in every
      position reached from the opening. */
  lemma MovePreservesKingsHome(g: Grid, turn: bool, fr: int, fc: int, tr: int, tc: int, choice: Kind)
    requires MoveDomain(g, turn, fr, fc, tr, tc) && UnmovedKingsHome(g)
    ensures UnmovedKingsHome(MoveSpec(g, turn, fr, fc, tr, tc, choice).grid)
  {
    if MoveSpec(g, turn, fr, fc, tr, tc, choice).ok {
      var p := g[fr][fc].value;
      if IsCastleAttempt(p, fr, fc, tr, tc) {
        CastleFromHome(g, turn, fr, fc, tr, tc);
        CastleEffects(g, turn, fr, fc, tr, tc, choice);
      } else {
        NormalMoveEffects(g, turn, fr, fc, tr, tc, choice);
      }
    }
  }

  /** In such a position a castle attempt starts from column 4, so every
      reachable castle meets the requirement of CastleEffects. */
  lemma CastleFromHome(g: Grid, turn: bool, fr: int, fc: int, tr: int, tc: int)
    requires MoveDomain(g, turn, fr, fc, tr, tc) && UnmovedKingsHome(g)
    requires g[fr][fc].Some? && IsCastleAttempt(g[fr][fc].value, fr, fc, tr, tc)
    ensures fc == 4 && (tc == 2 || tc == 6) && CastleColumnsDistinct(fc, tc)
  {
    HomeColumnIsDistinct(tc);
  }

  /** CastleEffects for every castle play can reach: with unmoved kings on
      column 4, a completed castle puts the king on column 2 or 6 and the rook
      on column 3 or 5 beside it, empties column 4 and the corner, and changes
      no other cell. */
  lemma CastleInPlay(g: Grid, turn: bool, fr: int, fc: int, tr: int, tc: int, choice: Kind)
    requires MoveDomain(g, turn, fr, fc, tr, tc) && UnmovedKingsHome(g)
    requires g[fr][fc].Some? && IsCastleAttempt(g[fr][fc].value, fr, fc, tr, tc)
    requires MoveSpec(g, turn, fr, fc, tr, tc, choice).ok
    ensures var o := MoveSpec(g, turn, fr, fc, tr, tc, choice);
            var corner := if tc == 6 then 7 else 0;
            var rc := if tc == 6 then 5 else 3;
            fc == 4 && (tc == 2 || tc == 6) &&
            o.grid[fr][tc] == Some(g[fr][4].value.(col := tc, moved := true)) &&
            o.grid[fr][rc] == Some(g[fr][corner].value.(col := rc, moved := true)) &&
            o.grid[fr][4].None? && o.grid[fr][corner].None? &&
            (forall i, j :: InBoard(i, j) && (i != fr || (j != 4 && j != tc && j != rc && j != corner)) ==>
               o.grid[i][j] == g[i][j]) &&
            o.whiteTurn == !turn
  {
    CastleFromHome(g, turn, fr, fc, tr, tc);
    CastleEffects(g, turn, fr, fc, tr, tc, choice);
  }

  // ---------------------------------------------------------------------------
  // Check is unaffected by kinds and moved flags, except through castle clauses

  /** Two grids with the same kings of colour `white`. */
  ghost predicate SameKings(g: Grid, h: Grid, white: bool)
    requires WellFormed(g) && WellFormed(h)
  {
    forall i, j :: InBoard(i, j) ==> IsKingOf(g[i][j], white) == IsKingOf(h[i][j], white)
  }

  lemma KingSquareFrame(g: Grid, h: Grid, white: bool)
    requires WellFormed(g) && WellFormed(h) && KingExists(g, white) && SameKings(g, h, white)
    ensures KingExists(h, white) && KingSquare(g, white) == KingSquare(h, white)
  {
    KingSquareIsLast(g, white);
    var kg := KingSquare(g, white);
    assert IsKingOf(h[kg.0][kg.1], white);
    KingSquareIsLast(h, white);
    var kh := KingSquare(h, white);
    assert IsKingOf(g[kh.0][kh.1], white);
    assert !RowMajorBefore(kg.0, kg.1, kh.0, kh.1);
    assert !RowMajorBefore(kh.0, kh.1, kg.0, kg.1);
  }

  /** If h has the same colours, kings and opposing pieces as g and fewer
      unmoved rooks, a king safe in g is safe in h. */
  lemma CheckMonotone(g: Grid, h: Grid, white: bool)
    requires WellFormed(g) && WellFormed(h) && Consistent(g) && Consistent(h) && KingExists(g, white)
    requires SameColours(g, h) && FewerUnmovedRooks(g, h) && SameKings(g, h, white)
    requires forall i, j :: InBoard(i, j) && h[i][j].Some? && h[i][j].value.white != white ==> h[i][j] == g[i][j]
    ensures KingExists(h, white)
    ensures InCheck(h, white) ==> InCheck(g, white)
  {
    KingSquareFrame(g, h, white);
    var k := KingSquare(g, white);
    if InCheck(h, white) {
      var i, j :| InBoard(i, j) && AttacksFrom(h, i, j, k.0, k.1, !white);
      AcceptsMonotone(h[i][j].value, k.0, k.1, g, h);
      assert AttacksFrom(g, i, j, k.0, k.1, !white);
    }
  }

  /** After a completed normal move the mover's own king is not in check,
      unless a pawn was promoted to a Rook: the new rook is unmoved, and an
      unmoved enemy king's castle clause may then reach the mover's king. */
  lemma NormalMoveLeavesKingSafe(g: Grid, turn: bool, fr: int, fc: int, tr: int, tc: int, choice: Kind)
    requires MoveDomain(g, turn, fr, fc, tr, tc)
    requires g[fr][fc].Some? && !IsCastleAttempt(g[fr][fc].value, fr, fc, tr, tc)
    requires !(ReachesLastRank(g[fr][fc].value, tr) && PromotedKind(choice) == Rook)
    requires MoveSpec(g, turn, fr, fc, tr, tc, choice).ok
    ensures var o := MoveSpec(g, turn, fr, fc, tr, tc, choice);
            KingExists(o.grid, turn) && !InCheck(o.grid, turn)
  {
    var p := g[fr][fc].value;
    RelocateFacts(g, fr, fc, tr, tc);
    var t := Relocate(g, fr, fc, tr, tc);
    var h := MoveSpec(g, turn, fr, fc, tr, tc, choice).grid;
    assert h == Set(t, tr, tc, Some(Landed(p, tr, tc, choice)));
    assert t[tr][tc] == Some(p.SetPosition(tr, tc));
    CheckMonotone(t, h, turn);
  }
}
