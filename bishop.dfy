// Bishop.isValidMove (src/chess/Bishop.java).
module BishopMoves {
  import opened Pieces

  /** What the loop of Bishop.isValidMove keeps true of its locals (r, c): they
      lie on the diagonal through the destination and, until they reach it, are
      on the board and step toward it by (sr, sc). */
  ghost predicate OnDiagonalRay(r: int, c: int, sr: int, sc: int, destRow: int, destCol: int)
  {
    Abs(destRow - r) == Abs(destCol - c) &&
    (r != destRow ==> InBoard(r, c) && sr == Compare(destRow, r) && sc == Compare(destCol, c))
  }

  /** One step of the scan stays on the ray and gets closer to the destination. */
  lemma DiagonalStep(r: int, c: int, sr: int, sc: int, destRow: int, destCol: int)
    requires InBoard(destRow, destCol) && OnDiagonalRay(r, c, sr, sc, destRow, destCol) && r != destRow && c != destCol
    ensures OnDiagonalRay(r + sr, c + sc, sr, sc, destRow, destCol)
    ensures Abs(destRow - (r + sr)) < Abs(destRow - r)
  {
  }

  /** The scan starts on the ray: one step from the bishop toward the destination. */
  lemma DiagonalStart(p: Piece, destRow: int, destCol: int)
    requires InBoard(p.row, p.col) && InBoard(destRow, destCol) && Abs(destRow - p.row) == Abs(destCol - p.col)
    ensures var sr, sc := Compare(destRow, p.row), Compare(destCol, p.col);
            OnDiagonalRay(p.row + sr, p.col + sc, sr, sc, destRow, destCol)
  {
    if p.row != destRow {
      DiagonalStep(p.row, p.col, Compare(destRow, p.row), Compare(destCol, p.col), destRow, destCol);
    }
  }

  /** The bishop's scan from (r, c) on, with the loop condition
      `r != destRow && c != destCol`: true iff no square it visits is occupied.
      It reads only on-board squares of the diagonal, and stops after
      |destRow - r| steps. */
  function DiagonalClear(g: Grid, r: int, c: int, sr: int, sc: int, destRow: int, destCol: int): (clear: bool)
    requires WellFormed(g) && InBoard(destRow, destCol)
    requires OnDiagonalRay(r, c, sr, sc, destRow, destCol)
    ensures r == destRow ==> clear
    ensures clear && r != destRow ==> g[r][c].None?
    decreases Abs(destRow - r)
  {
    if r != destRow && c != destCol then
      DiagonalStep(r, c, sr, sc, destRow, destCol);
      g[r][c].None? && DiagonalClear(g, r + sr, c + sc, sr, sc, destRow, destCol)
    else
      true
  }

  /** Bishop.isValidMove: equal absolute row and column offsets, nothing on the
      squares between, and a destination that is empty or holds an opposing piece. */
  function BishopAccepts(p: Piece, destRow: int, destCol: int, g: Grid): (ok: bool)
    requires WellFormed(g) && InBoard(p.row, p.col) && InBoard(destRow, destCol)
    ensures ok ==> Abs(destRow - p.row) == Abs(destCol - p.col)
    ensures ok ==> FreeOrOpposing(g, destRow, destCol, p.white)
  {
    if Abs(destRow - p.row) != Abs(destCol - p.col) then
      false
    else
      var sr := Compare(destRow, p.row);
      var sc := Compare(destCol, p.col);
      DiagonalStart(p, destRow, destCol);
      DiagonalClear(g, p.row + sr, p.col + sc, sr, sc, destRow, destCol) &&
      FreeOrOpposing(g, destRow, destCol, p.white)
  }

  /** Bishop.isValidMove on the array, as the source computes it. */
  method BishopIsValidMove(p: Piece, destRow: int, destCol: int, a: array2<Option<Piece>>) returns (ok: bool)
    requires a.Length0 == 8 && a.Length1 == 8
    requires InBoard(p.row, p.col) && InBoard(destRow, destCol)
    ensures ok == BishopAccepts(p, destRow, destCol, Snap(a))
  {
    if Abs(destRow - p.row) != Abs(destCol - p.col) {
      return false;
    }
    var stepRow := Compare(destRow, p.row);
    var stepCol := Compare(destCol, p.col);
    DiagonalStart(p, destRow, destCol);
    ok := ScanDiagonal(p.row + stepRow, p.col + stepCol, stepRow, stepCol, destRow, destCol, a);
    assert BishopAccepts(p, destRow, destCol, Snap(a)) ==
           (DiagonalClear(Snap(a), p.row + stepRow, p.col + stepCol, stepRow, stepCol, destRow, destCol) &&
            FreeOrOpposing(Snap(a), destRow, destCol, p.white));
    if ok {
      ok := a[destRow, destCol].None? || a[destRow, destCol].value.white != p.white;
    }
  }

  /** The while loop of Bishop.isValidMove, from (r, c) on: false as soon as
      it meets an occupied square. */
  method ScanDiagonal(r0: int, c0: int, sr: int, sc: int, destRow: int, destCol: int, a: array2<Option<Piece>>)
      returns (clear: bool)
    requires a.Length0 == 8 && a.Length1 == 8 && InBoard(destRow, destCol)
    requires OnDiagonalRay(r0, c0, sr, sc, destRow, destCol)
    ensures clear == DiagonalClear(Snap(a), r0, c0, sr, sc, destRow, destCol)
  {
    ghost var g := Snap(a);
    var r, c := r0, c0;
    while r != destRow && c != destCol
      invariant OnDiagonalRay(r, c, sr, sc, destRow, destCol)
      invariant DiagonalClear(g, r0, c0, sr, sc, destRow, destCol) == DiagonalClear(g, r, c, sr, sc, destRow, destCol)
      decreases Abs(destRow - r)
    {
      if a[r, c].Some? {
        return false;
      }
      DiagonalStep(r, c, sr, sc, destRow, destCol);
      r, c := r + sr, c + sc;
    }
    return true;
  }

  /** The scan from step k of the diagonal on sees exactly the squares k .. n-1. */
  lemma {:induction false} DiagonalScanFrom(g: Grid, r0: int, c0: int, destRow: int, destCol: int, k: int)
    requires WellFormed(g) && InBoard(r0, c0) && InBoard(destRow, destCol)
    requires Abs(destRow - r0) == Abs(destCol - c0)
    requires 1 <= k && (k <= Abs(destRow - r0) || destRow == r0)
    ensures var sr, sc := Compare(destRow, r0), Compare(destCol, c0);
            OnDiagonalRay(Ray(r0, k, sr), Ray(c0, k, sc), sr, sc, destRow, destCol) &&
            (DiagonalClear(g, Ray(r0, k, sr), Ray(c0, k, sc), sr, sc, destRow, destCol) <==>
             forall j :: k <= j < Abs(destRow - r0) ==>
               InBoard(Ray(r0, j, sr), Ray(c0, j, sc)) && g[Ray(r0, j, sr)][Ray(c0, j, sc)].None?)
    decreases Abs(destRow - r0) - k
  {
    var sr, sc := Compare(destRow, r0), Compare(destCol, c0);
    if k < Abs(destRow - r0) {
      DiagonalScanFrom(g, r0, c0, destRow, destCol, k + 1);
      assert Ray(r0, k, sr) + sr == Ray(r0, k + 1, sr);
      assert Ray(c0, k, sc) + sc == Ray(c0, k + 1, sc);
    }
  }

  /** The bishop's scan agrees with the reference definition: every square
      strictly between origin and destination, stepped by the sign of each
      offset, is empty. */
  lemma BishopScanIsPathEmpty(p: Piece, destRow: int, destCol: int, g: Grid)
    requires WellFormed(g) && InBoard(p.row, p.col) && InBoard(destRow, destCol)
    requires Abs(destRow - p.row) == Abs(destCol - p.col)
    ensures var sr, sc := Compare(destRow, p.row), Compare(destCol, p.col);
            BishopAccepts(p, destRow, destCol, g) <==>
              PathEmpty(g, p.row, p.col, sr, sc, Abs(destRow - p.row)) && FreeOrOpposing(g, destRow, destCol, p.white)
  {
    var sr, sc := Compare(destRow, p.row), Compare(destCol, p.col);
    DiagonalScanFrom(g, p.row, p.col, destRow, destCol, 1);
    assert Ray(p.row, 1, sr) == p.row + sr && Ray(p.col, 1, sc) == p.col + sc;
  }

  /** The scan reads occupancy only. */
  lemma {:induction false} DiagonalClearFrame(g: Grid, h: Grid, r: int, c: int, sr: int, sc: int, destRow: int, destCol: int)
    requires WellFormed(g) && WellFormed(h) && SameColours(g, h) && InBoard(destRow, destCol)
    requires OnDiagonalRay(r, c, sr, sc, destRow, destCol)
    ensures DiagonalClear(g, r, c, sr, sc, destRow, destCol) == DiagonalClear(h, r, c, sr, sc, destRow, destCol)
    decreases Abs(destRow - r)
  {
    if r != destRow && c != destCol {
      DiagonalClearFrame(g, h, r + sr, c + sc, sr, sc, destRow, destCol);
    }
  }

  /** Bishop legality reads only which squares are occupied and by which colour. */
  lemma BishopFrame(p: Piece, destRow: int, destCol: int, g: Grid, h: Grid)
    requires WellFormed(g) && WellFormed(h) && SameColours(g, h)
    requires InBoard(p.row, p.col) && InBoard(destRow, destCol)
    ensures BishopAccepts(p, destRow, destCol, h) == BishopAccepts(p, destRow, destCol, g)
  {
    if Abs(destRow - p.row) == Abs(destCol - p.col) {
      var sr, sc := Compare(destRow, p.row), Compare(destCol, p.col);
      DiagonalClearFrame(g, h, p.row + sr, p.col + sc, sr, sc, destRow, destCol);
    }
  }
}
