// src/chess/Board.java: the board object, whose 8x8 array and turn flag the
// methods update in place. Each method is proved against the value-level
// meaning in BoardSpec, read off the array with Snap.
module ChessBoard {
  import opened Pieces
  import opened Rules
  import opened BoardSpec
  import opened KingMoves
  import opened BoardLaws

  class Board {
    var grid: array2<Option<Piece>>
    var whiteTurn: bool

    /** The array is 8x8 and every piece stands on the square it records. */
    ghost predicate Valid()
      reads this, grid
    {
      grid.Length0 == 8 && grid.Length1 == 8 && Consistent(Snap(grid))
    }

    /** A fresh array, the opening position, white to move. */
    constructor()
      ensures Valid() && fresh(grid)
      ensures Snap(grid) == InitialGrid() && whiteTurn
    {
      grid := new Option<Piece>[8, 8]((r, c) => None);
      new;
      Setup();
      whiteTurn := true;
      GridExt(Snap(grid), InitialGrid());
      InitialPosition();
    }

    /** Places the 32 pieces on rows 0, 1, 6 and 7; rows 2 to 5 are not written. */
    method Setup()
      requires grid.Length0 == 8 && grid.Length1 == 8
      modifies grid
      ensures forall r, c :: InBoard(r, c) && (r <= 1 || r >= 6) ==> grid[r, c] == InitialCell(r, c)
      ensures forall r, c :: InBoard(r, c) && 2 <= r <= 5 ==> grid[r, c] == old(grid[r, c])
    {
      PlaceBackRank(0, false);
      PlacePawns(1, false);
      PlaceBackRank(7, true);
      PlacePawns(6, true);
    }

    /** The eight explicit writes of one side's back rank. */
    method PlaceBackRank(row: int, white: bool)
      requires grid.Length0 == 8 && grid.Length1 == 8
      requires (row == 0 && !white) || (row == 7 && white)
      modifies grid
      ensures forall c :: 0 <= c < 8 ==> grid[row, c] == Some(NewPiece(BackRank(c), row, c, white))
      ensures forall r, c :: InBoard(r, c) && r != row ==> grid[r, c] == old(grid[r, c])
    {
      grid[row, 0] := Some(NewPiece(Rook, row, 0, white));
      grid[row, 1] := Some(NewPiece(Knight, row, 1, white));
      assert BackRankPlaced(row, white, 2);
      grid[row, 2] := Some(NewPiece(Bishop, row, 2, white));
      assert BackRankPlaced(row, white, 3);
      grid[row, 3] := Some(NewPiece(Queen, row, 3, white));
      assert BackRankPlaced(row, white, 4);
      grid[row, 4] := Some(NewPiece(King, row, 4, white));
      assert BackRankPlaced(row, white, 5);
      grid[row, 5] := Some(NewPiece(Bishop, row, 5, white));
      assert BackRankPlaced(row, white, 6);
      grid[row, 6] := Some(NewPiece(Knight, row, 6, white));
      assert BackRankPlaced(row, white, 7);
      grid[row, 7] := Some(NewPiece(Rook, row, 7, white));
      assert BackRankPlaced(row, white, 8);
    }

    /** The first n cells of the back rank hold their opening pieces. */
    ghost predicate BackRankPlaced(row: int, white: bool, n: int)
      reads this, grid
      requires grid.Length0 == 8 && grid.Length1 == 8 && 0 <= row < 8 && n <= 8
    {
      forall c :: 0 <= c < n ==> grid[row, c] == Some(NewPiece(BackRank(c), row, c, white))
    }

    /** The loop writing one side's eight pawns. */
    method PlacePawns(row: int, white: bool)
      requires grid.Length0 == 8 && grid.Length1 == 8
      requires (row == 1 && !white) || (row == 6 && white)
      modifies grid
      ensures forall c :: 0 <= c < 8 ==> grid[row, c] == InitialCell(row, c)
      ensures forall r, c :: InBoard(r, c) && r != row ==> grid[r, c] == old(grid[r, c])
    {
      for i := 0 to 8
        invariant forall c :: 0 <= c < i ==> grid[row, c] == InitialCell(row, c)
        invariant forall r, c :: InBoard(r, c) && r != row ==> grid[r, c] == old(grid[r, c])
      {
        grid[row, i] := Some(NewPiece(Pawn, row, i, white));
      }
    }

    method IsWhiteTurn() returns (w: bool)
      ensures w == whiteTurn
    {
      w := whiteTurn;
    }

    /** squareUnderAttack: some piece of colour byWhite accepts (row, col). */
    method SquareUnderAttack(row: int, col: int, byWhite: bool) returns (attacked: bool)
      requires Valid() && InBoard(row, col)
      ensures attacked == Attacked(Snap(grid), row, col, byWhite)
    {
      ghost var g: Grid := Snap(grid);
      for r := 0 to 8
        invariant forall i, j :: InBoard(i, j) && i < r ==> !AttacksFrom(g, i, j, row, col, byWhite)
      {
        for c := 0 to 8
          invariant forall i, j :: InBoard(i, j) && RowMajorBefore(i, j, r, c) ==> !AttacksFrom(g, i, j, row, col, byWhite)
        {
          var piece := grid[r, c];
          if piece.Some? && piece.value.white == byWhite {
            var ok := IsValidMove(piece.value, row, col, grid);
            if ok {
              assert AttacksFrom(g, r, c, row, col, byWhite);
              return true;
            }
          }
        }
      }
      return false;
    }

    /** isKingInCheck: the last king of colour `white` in row-by-row order is
        accepted by some piece of the other colour. */
    method IsKingInCheck(white: bool) returns (inCheck: bool)
      requires Valid() && KingExists(Snap(grid), white)
      ensures inCheck == InCheck(Snap(grid), white)
    {
      ghost var g: Grid := Snap(grid);
      var kingRow, kingCol := -1, -1;
      for row := 0 to 8
        invariant (kingRow, kingCol) == LastKingBefore(g, white, row, 0)
      {
        for col := 0 to 8
          invariant (kingRow, kingCol) == LastKingBefore(g, white, row, col)
        {
          var piece := grid[row, col];
          if piece.Some? && piece.value.kind == King && piece.value.white == white {
            kingRow, kingCol := row, col;
          }
        }
      }
      assert (kingRow, kingCol) == KingSquare(g, white);
      inCheck := SquareUnderAttack(kingRow, kingCol, !white);
    }

    /** The array write board[r][c] = x. */
    method Put(r: int, c: int, x: Option<Piece>)
      requires grid.Length0 == 8 && grid.Length1 == 8 && InBoard(r, c)
      modifies grid
      ensures Snap(grid) == Set(old(Snap(grid)), r, c, x)
    {
      grid[r, c] := x;
      GridExt(Snap(grid), Set(old(Snap(grid)), r, c, x));
    }

    /** The trial half of a move: board[tr][tc] = piece; board[fr][fc] = null;
        piece.setPosition(tr, tc). */
    method Shift(fr: int, fc: int, tr: int, tc: int)
      requires grid.Length0 == 8 && grid.Length1 == 8 && InBoard(fr, fc) && InBoard(tr, tc) && grid[fr, fc].Some?
      modifies grid
      ensures Snap(grid) == Relocate(old(Snap(grid)), fr, fc, tr, tc)
    {
      var piece := grid[fr, fc];
      Put(tr, tc, Some(piece.value.SetPosition(tr, tc)));
      Put(fr, fc, None);
    }

    /** The undo after a trial: the mover and the captured cell go back, which
        restores the grid g as it was before Shift. */
    method Unshift(ghost g: Grid, fr: int, fc: int, tr: int, tc: int, piece: Option<Piece>, captured: Option<Piece>)
      requires grid.Length0 == 8 && grid.Length1 == 8 && WellFormed(g) && InBoard(fr, fc) && InBoard(tr, tc)
      requires g[fr][fc].Some? && piece == g[fr][fc] && captured == g[tr][tc]
      requires Snap(grid) == Relocate(g, fr, fc, tr, tc)
      modifies grid
      ensures Snap(grid) == g
    {
      Put(fr, fc, piece);
      Put(tr, tc, captured);
      RelocateUndo(g, fr, fc, tr, tc);
    }

    /** The body of the innermost loop of isCheckmate and isStalemate: if the
        piece on (row, col) accepts (r, c), make the move, ask whether its
        side's king is in check, and undo it. */
    method TryMove(row: int, col: int, r: int, c: int, white: bool) returns (escapes: bool)
      requires Valid() && KingExists(Snap(grid), white) && InBoard(row, col) && InBoard(r, c)
      requires grid[row, col].Some? && grid[row, col].value.white == white
      modifies grid
      ensures Valid() && Snap(grid) == old(Snap(grid))
      ensures escapes == Escapes(Snap(grid), white, row, col, r, c)
    {
      ghost var g: Grid := Snap(grid);
      var piece := grid[row, col];
      var ok := IsValidMove(piece.value, r, c, grid);
      if !ok {
        return false;
      }
      var backup := grid[r, c];
      Shift(row, col, r, c);
      RelocateFacts(g, row, col, r, c);
      var stillInCheck := IsKingInCheck(white);
      Unshift(g, row, col, r, c, piece, backup);
      escapes := !stillInCheck;
    }

    /** The four nested loops shared by isCheckmate and isStalemate: true as
        soon as some move of a piece of colour `white` escapes, with the array
        restored after every trial. */
    method AnyEscape(white: bool) returns (found: bool)
      requires Valid() && KingExists(Snap(grid), white)
      modifies grid
      ensures Valid() && Snap(grid) == old(Snap(grid))
      ensures found == !NoEscape(Snap(grid), white)
    {
      ghost var g: Grid := Snap(grid);
      for row := 0 to 8
        invariant Valid() && Snap(grid) == g
        invariant RowsStuck(g, white, row)
      {
        found := RowEscapes(row, white);
        RowsStuckStep(g, white, row);
        if found {
          return;
        }
      }
      RowsStuckStep(g, white, 0);
      return false;
    }

    /** The second of the four loops: the pieces of row `row`, left to right. */
    method RowEscapes(row: int, white: bool) returns (found: bool)
      requires Valid() && KingExists(Snap(grid), white) && 0 <= row < 8
      modifies grid
      ensures Valid() && Snap(grid) == old(Snap(grid))
      ensures found == !RowStuck(Snap(grid), white, row)
    {
      ghost var g: Grid := Snap(grid);
      for col := 0 to 8
        invariant Valid() && Snap(grid) == g
        invariant forall fc :: 0 <= fc < col ==> Stuck(g, white, row, fc)
      {
        var piece := grid[row, col];
        if piece.Some? && piece.value.white == white {
          found := PieceEscapes(row, col, white);
          if found {
            return;
          }
        } else {
          assert Stuck(g, white, row, col);
        }
      }
      return false;
    }

    /** The two inner loops of isCheckmate and isStalemate: every destination
        of the piece on (row, col) is tried, in row-major order. */
    method PieceEscapes(row: int, col: int, white: bool) returns (found: bool)
      requires Valid() && KingExists(Snap(grid), white) && InBoard(row, col)
      requires grid[row, col].Some? && grid[row, col].value.white == white
      modifies grid
      ensures Valid() && Snap(grid) == old(Snap(grid))
      ensures found == !Stuck(Snap(grid), white, row, col)
    {
      ghost var g: Grid := Snap(grid);
      for r := 0 to 8
        invariant Valid() && Snap(grid) == g
        invariant forall tr, tc :: InBoard(tr, tc) && tr < r ==> !Escapes(g, white, row, col, tr, tc)
      {
        for c := 0 to 8
          invariant Valid() && Snap(grid) == g
          invariant forall tr, tc :: InBoard(tr, tc) && RowMajorBefore(tr, tc, r, c) ==> !Escapes(g, white, row, col, tr, tc)
        {
          var escapes := TryMove(row, col, r, c, white);
          if escapes {
            return true;
          }
          assert !Escapes(g, white, row, col, r, c);
        }
      }
      return false;
    }

    /** isCheckmate: no piece of the side to move has an accepted move after
        which its king is out of check. Whether that side is in check now is
        never asked. */
    method IsCheckmate() returns (mate: bool)
      requires Valid() && KingExists(Snap(grid), whiteTurn)
      modifies grid
      ensures Valid() && Snap(grid) == old(Snap(grid))
      ensures mate == NoEscape(Snap(grid), whiteTurn)
    {
      var found := AnyEscape(whiteTurn);
      mate := !found;
    }

    /** isStalemate: the side to move is not in check and has no escaping move. */
    method IsStalemate() returns (stale: bool)
      requires Valid() && KingExists(Snap(grid), whiteTurn)
      modifies grid
      ensures Valid() && Snap(grid) == old(Snap(grid))
      ensures stale == Stalemate(Snap(grid), whiteTurn)
    {
      var inCheck := IsKingInCheck(whiteTurn);
      if inCheck {
        return false;
      }
      var found := AnyEscape(whiteTurn);
      stale := !found;
    }

    /** The loop of the castling branch: every square strictly between the
        king's origin and destination is empty and not attacked by byWhite. */
    method TransitIsClear(row: int, fromCol: int, toCol: int, byWhite: bool) returns (clear: bool)
      requires Valid() && InBoard(row, fromCol) && InBoard(row, toCol) && fromCol != toCol
      ensures clear == TransitClear(Snap(grid), row, fromCol, toCol, byWhite)
    {
      ghost var g: Grid := Snap(grid);
      var dir := if toCol - fromCol > 0 then 1 else -1;
      var c := fromCol + dir;
      while c != toCol
        invariant dir == 1 ==> fromCol < c <= toCol
        invariant dir == -1 ==> toCol <= c < fromCol
        invariant forall k: int :: StrictlyBetween(fromCol, k, c) ==> g[row][k].None? && !Attacked(g, row, k, byWhite)
        decreases Abs(toCol - c)
      {
        if grid[row, c].Some? {
          assert StrictlyBetween(fromCol, c, toCol);
          return false;
        }
        var attacked := SquareUnderAttack(row, c, byWhite);
        if attacked {
          assert StrictlyBetween(fromCol, c, toCol);
          return false;
        }
        c := c + dir;
      }
      return true;
    }

    /** The four writes of a castle and the updates of the king and the rook.
        Each is written with the square and flag that the setPosition and
        setMoved calls after the writes give it. */
    method PerformCastle(row: int, fromCol: int, toCol: int)
      requires Valid() && InBoard(row, fromCol) && InBoard(row, toCol)
      requires grid[row, fromCol].Some? && grid[row, RookCorner(fromCol, toCol)].Some?
      modifies grid
      ensures Valid() && Snap(grid) == Castled(old(Snap(grid)), row, fromCol, toCol)
    {
      ghost var g: Grid := Snap(grid);
      var king := grid[row, fromCol].value;
      var rookCol := if toCol > fromCol then 7 else 0;
      var newRookCol := if toCol > fromCol then 5 else 3;
      var rook := grid[row, rookCol].value;
      assert rookCol == RookCorner(fromCol, toCol) && newRookCol == RookLanding(fromCol, toCol);
      Put(row, toCol, Some(king.SetPosition(row, toCol).SetMoved(true)));
      Put(row, fromCol, None);
      Put(row, rookCol, None);
      Put(row, newRookCol, Some(rook.SetPosition(row, newRookCol).SetMoved(true)));
      assert Snap(grid) == Castled(g, row, fromCol, toCol);
      assert Consistent(Castled(g, row, fromCol, toCol));
    }

    /** The conditions of the castling branch of movePiece for the king on
        (row, fromCol): an unmoved Rook of either colour in the corner, the side
        to move not in check, and a clear, unattacked transit. */
    method CastleAllowed(row: int, fromCol: int, toCol: int) returns (allowed: bool)
      requires Valid() && KingExists(Snap(grid), whiteTurn) && InBoard(row, fromCol) && InBoard(row, toCol)
      requires fromCol != toCol
      ensures allowed == (UnmovedRook(Snap(grid)[row][RookCorner(fromCol, toCol)]) && !InCheck(Snap(grid), whiteTurn) &&
                          TransitClear(Snap(grid), row, fromCol, toCol, !whiteTurn))
    {
      var rookCol := if toCol > fromCol then 7 else 0;
      var rook := grid[row, rookCol];
      if !(rook.Some? && rook.value.kind == Rook && !rook.value.moved) {
        return false;
      }
      var inCheck := IsKingInCheck(whiteTurn);
      if inCheck {
        return false;
      }
      allowed := TransitIsClear(row, fromCol, toCol, !whiteTurn);
    }

    /** The castling branch of movePiece for the king on (row, fromCol),
        except for passing the turn. */
    method Castle(row: int, fromCol: int, toCol: int) returns (ok: bool)
      requires Valid() && KingExists(Snap(grid), whiteTurn) && InBoard(row, fromCol) && InBoard(row, toCol)
      requires grid[row, fromCol].Some? && Abs(toCol - fromCol) == 2
      modifies grid
      ensures Valid()
      ensures var o := CastleOutcome(old(Snap(grid)), whiteTurn, row, fromCol, toCol);
              ok == o.ok && Snap(grid) == o.grid
    {
      ok := CastleAllowed(row, fromCol, toCol);
      if ok {
        PerformCastle(row, fromCol, toCol);
      }
    }

    /** The normal branch of movePiece: make the move, undo it if the mover's
        king is then in check, else promote a pawn on the last rank and pass
        the turn. */
    method NormalMove(fromRow: int, fromCol: int, toRow: int, toCol: int, promotion: Kind) returns (ok: bool)
      requires Valid() && InBoard(fromRow, fromCol) && InBoard(toRow, toCol) && grid[fromRow, fromCol].Some?
      requires grid[fromRow, fromCol].value.white == whiteTurn && FreeOrOpposing(Snap(grid), toRow, toCol, whiteTurn)
      requires KingExists(Snap(grid), whiteTurn)
      modifies grid
      ensures Valid()
      ensures var o := NormalOutcome(old(Snap(grid)), whiteTurn, fromRow, fromCol, toRow, toCol, promotion);
              ok == o.ok && Snap(grid) == o.grid
    {
      ghost var g: Grid := Snap(grid);
      var piece := grid[fromRow, fromCol];
      var p := piece.value;
      var captured := grid[toRow, toCol];
      RelocateFacts(g, fromRow, fromCol, toRow, toCol);
      Shift(fromRow, fromCol, toRow, toCol);
      var inCheck := IsKingInCheck(whiteTurn);
      ghost var o := NormalOutcome(g, whiteTurn, fromRow, fromCol, toRow, toCol, promotion);
      if inCheck {
        assert !o.ok && o.grid == g;
        Unshift(g, fromRow, fromCol, toRow, toCol, piece, captured);
        return false;
      }
      assert o.ok && o.grid == Set(Snap(grid), toRow, toCol, Some(Landed(p, toRow, toCol, promotion)));
      Land(p, toRow, toCol, promotion);
      SetConsistent(Relocate(g, fromRow, fromCol, toRow, toCol), toRow, toCol, Some(Landed(p, toRow, toCol, promotion)));
      return true;
    }

    /** The last writes of a completed normal move: a pawn reaching the last
        rank is replaced by a new piece of the chosen kind, any other mover is
        marked moved. */
    method Land(p: Piece, toRow: int, toCol: int, promotion: Kind)
      requires grid.Length0 == 8 && grid.Length1 == 8 && InBoard(toRow, toCol)
      modifies grid
      ensures Snap(grid) == Set(old(Snap(grid)), toRow, toCol, Some(Landed(p, toRow, toCol, promotion)))
    {
      if p.kind == Pawn && (toRow == 0 || toRow == 7) {
        Put(toRow, toCol, Some(NewPiece(PromotedKind(promotion), toRow, toCol, p.white)));
      } else {
        // setMoved(true) reaches the board only when the mover is still on it.
        Put(toRow, toCol, Some(p.SetPosition(toRow, toCol).SetMoved(true)));
      }
    }

    /** The checks movePiece makes before anything else: a piece of the side
        to move stands on the source, its predicate accepts the destination,
        and the destination does not hold a piece of the same colour. */
    method Screen(fromRow: int, fromCol: int, toRow: int, toCol: int) returns (pass: bool)
      requires Valid() && InBoard(fromRow, fromCol) && InBoard(toRow, toCol)
      ensures var g := Snap(grid);
              pass == (g[fromRow][fromCol].Some? && g[fromRow][fromCol].value.white == whiteTurn &&
                       Accepts(g[fromRow][fromCol].value, toRow, toCol, g) && FreeOrOpposing(g, toRow, toCol, whiteTurn))
    {
      var piece := grid[fromRow, fromCol];
      if piece.None? || piece.value.white != whiteTurn {
        return false;
      }
      var valid := IsValidMove(piece.value, toRow, toCol, grid);
      if !valid {
        return false;
      }
      if grid[toRow, toCol].Some? && grid[toRow, toCol].value.white == piece.value.white {
        return false;
      }
      return true;
    }

    /** movePiece(fromRow, fromCol, toRow, toCol), with `promotion` standing
        for the answer to the promotion dialog. */
    method MovePiece(fromRow: int, fromCol: int, toRow: int, toCol: int, promotion: Kind) returns (ok: bool)
      requires Valid() && KingExists(Snap(grid), whiteTurn) && InBoard(fromRow, fromCol) && InBoard(toRow, toCol)
      modifies this, grid
      ensures Valid() && grid == old(grid)
      ensures var o := MoveSpec(old(Snap(grid)), old(whiteTurn), fromRow, fromCol, toRow, toCol, promotion);
              ok == o.ok && Snap(grid) == o.grid && whiteTurn == o.whiteTurn
    {
      ok := UpdateGrid(fromRow, fromCol, toRow, toCol, promotion);
      if ok {
        whiteTurn := !whiteTurn;
      }
    }

    /** Everything movePiece does to the array: the checks, then the castling
        or the normal branch. The turn is left to the caller. */
    method UpdateGrid(fromRow: int, fromCol: int, toRow: int, toCol: int, promotion: Kind) returns (ok: bool)
      requires Valid() && KingExists(Snap(grid), whiteTurn) && InBoard(fromRow, fromCol) && InBoard(toRow, toCol)
      modifies grid
      ensures Valid()
      ensures var o := MoveSpec(old(Snap(grid)), whiteTurn, fromRow, fromCol, toRow, toCol, promotion);
              ok == o.ok && Snap(grid) == o.grid
    {
      ghost var g: Grid := Snap(grid);
      var pass := Screen(fromRow, fromCol, toRow, toCol);
      if !pass {
        MoveRejections(g, whiteTurn, fromRow, fromCol, toRow, toCol, promotion);
        return false;
      }
      var p := grid[fromRow, fromCol].value;
      if IsCastleAttempt(p, fromRow, fromCol, toRow, toCol) {
        MoveSpecCastleBranch(g, whiteTurn, fromRow, fromCol, toRow, toCol, promotion);
        ok := Castle(fromRow, fromCol, toCol);
        assert ok == MoveSpec(g, whiteTurn, fromRow, fromCol, toRow, toCol, promotion).ok;
      } else {
        MoveSpecNormalBranch(g, whiteTurn, fromRow, fromCol, toRow, toCol, promotion);
        ok := NormalMove(fromRow, fromCol, toRow, toCol, promotion);
        assert ok == MoveSpec(g, whiteTurn, fromRow, fromCol, toRow, toCol, promotion).ok;
      }
    }
  }
}
