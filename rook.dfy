// Rook.isValidMove (src/chess/Rook.java).
module RookMoves {
  import opened Pieces

  /** What the loop of Rook.isValidMove keeps true of its locals (r, c): they
      share the destination's row (with no row step) or its column (with no
      column step) and, until they reach it, are on the board and step toward it. */
  ghost predicate OnLineRay(r: int, c: int, sr: int, sc: int, destRow: int, destCol: int)
  {
    ((r == destRow && sr == 0) || (c == destCol && sc == 0)) &&
    ((r != destRow || c != destCol) ==> InBoard(r, c) && sr == Compare(destRow, r) && sc == Compare(destCol, c))
  }

  /** One step of the scan stays on the ray and gets closer to the destination. */
  lemma LineStep(r: int, c: int, sr: int, sc: int, destRow: int, destCol: int)
    requires InBoard(destRow, destCol) && OnLineRay(r, c, sr, sc, destRow, destCol) && (r != destRow || c != destCol)
    ensures OnLineRay(r + sr, c + sc, sr, sc, destRow, destCol)
    ensures Abs(destRow - (r + sr)) + Abs(destCol - (c + sc)) < Abs(destRow - r) + Abs(destCol - c)
  {
  }

  /** The scan starts on the ray: one step from the rook toward the destination. */
  lemma LineStart(p: Piece, destRow: int, destCol: int)
    requires InBoard(p.row, p.col) && InBoard(destRow, destCol) && (p.row == destRow || p.col == destCol)
    ensures var sr, sc := Compare(destRow, p.row), Compare(destCol, p.col);
            OnLineRay(p.row + sr, p.col + sc, sr, sc, destRow, destCol)
  {
    if p.row != destRow || p.col != destCol {
      LineStep(p.row, p.col, Compare(destRow, p.row), Compare(destCol, p.col), destRow, destCol);
    }
  }

  /** The rook's scan from (r, c) on, with the loop condition
      `r != destRow || c != destCol`: true iff no square it visits is occupied.
      It reads only on-board squares of the segment and stops on reaching the
      destination. */
  function LineClear(g: Grid, r: int, c: int, sr: int, sc: int, destRow: int, destCol: int): (clear: bool)
    requires WellFormed(g) && InBoard(destRow, destCol)
    requires OnLineRay(r, c, sr, sc, destRow, destCol)
    ensures r == destRow && c == destCol ==> clear
    ensures clear && (r != destRow || c != destCol) ==> g[r][c].None?
    decreases Abs(destRow - r) + Abs(destCol - c)
  {
    if r != destRow || c != destCol then
      LineStep(r, c, sr, sc, destRow, destCol);
      g[r][c].None? && LineClear(g, r + sr, c + sc, sr, sc, destRow, destCol)
    else
      true
  }

  /** Rook.isValidMove: same row or same column, nothing on the squares between,
      and a destination that is empty or holds an opposing piece. */
  function RookAccepts(p: Piece, destRow: int, destCol: int, g: Grid): (ok: bool)
    requires WellFormed(g) && InBoard(p.row, p.col) && InBoard(destRow, destCol)
    ensures ok ==> destRow == p.row || destCol == p.col
    ensures ok ==> FreeOrOpposing(g, destRow, destCol, p.white)
  {
    if p.row != destRow && p.col != destCol then
      false
    else
      var sr := Compare(destRow, p.row);
      var sc := Compare(destCol, p.col);
      LineStart(p, destRow, destCol);
      LineClear(g, p.row + sr, p.col + sc, sr, sc, destRow, destCol) &&
      FreeOrOpposing(g, destRow, destCol, p.white)
  }

  /** Rook.isValidMove on the array, as the source computes it. */
  method RookIsValidMove(p: Piece, destRow: int, destCol: int, a: array2<Option<Piece>>) returns (ok: bool)
    requires a.Length0 == 8 && a.Length1 == 8
    requires InBoard(p.row, p.col) && InBoard(destRow, destCol)
    ensures ok == RookAccepts(p, destRow, destCol, Snap(a))
  {
    if p.row != destRow && p.col != destCol {
      return false;
    }
    var stepRow := Compare(destRow, p.row);
    var stepCol := Compare(destCol, p.col);
    LineStart(p, destRow, destCol);
    ok := ScanLine(p.row + stepRow, p.col + stepCol, stepRow, stepCol, destRow, destCol, a);
    assert RookAccepts(p, destRow, destCol, Snap(a)) ==
           (LineClear(Snap(a), p.row + stepRow, p.col + stepCol, stepRow, stepCol, destRow, destCol) &&
            FreeOrOpposing(Snap(a), destRow, destCol, p.white));
    if ok {
      ok := a[destRow, destCol].None? || a[destRow, destCol].value.white != p.white;
    }
  }

  /** The while loop of Rook.isValidMove, from (r, c) on: false as soon as it
      meets an occupied square. */
  method ScanLine(r0: int, c0: int, sr: int, sc: int, destRow: int, destCol: int, a: array2<Option<Piece>>)
      returns (clear: bool)
    requires a.Length0 == 8 && a.Length1 == 8 && InBoard(destRow, destCol)
    requires OnLineRay(r0, c0, sr, sc, destRow, destCol)
    ensures clear == LineClear(Snap(a), r0, c0, sr, sc, destRow, destCol)
  {
    ghost var g := Snap(a);
    var r, c := r0, c0;
    while r != destRow || c != destCol
      invariant OnLineRay(r, c, sr, sc, destRow, destCol)
      invariant LineClear(g, r0, c0, sr, sc, destRow, destCol) == LineClear(g, r, c, sr, sc, destRow, destCol)
      decreases Abs(destRow - r) + Abs(destCol - c)
    {
      if a[r, c].Some? {
        return false;
      }
      LineStep(r, c, sr, sc, destRow, destCol);
      r, c := r + sr, c + sc;
    }
    return true;
  }

  /** The scan from step k of the segment on sees exactly the squares k .. n-1. */
  lemma {:induction false} LineScanFrom(g: Grid, r0: int, c0: int, destRow: int, destCol: int, k: int)
    requires WellFormed(g) && InBoard(r0, c0) && InBoard(destRow, destCol)
    requires r0 == destRow || c0 == destCol
    requires 1 <= k && (k <= Abs(destRow - r0) + Abs(destCol - c0) || (destRow == r0 && destCol == c0))
    ensures var sr, sc := Compare(destRow, r0), Compare(destCol, c0);
            var n := Abs(destRow - r0) + Abs(destCol - c0);
            OnLineRay(Ray(r0, k, sr), Ray(c0, k, sc), sr, sc, destRow, destCol) &&
            (LineClear(g, Ray(r0, k, sr), Ray(c0, k, sc), sr, sc, destRow, destCol) <==>
             forall j :: k <= j < n ==>
               InBoard(Ray(r0, j, sr), Ray(c0, j, sc)) && g[Ray(r0, j, sr)][Ray(c0, j, sc)].None?)
    decreases Abs(destRow - r0) + Abs(destCol - c0) - k
  {
    var sr, sc := Compare(destRow, r0), Compare(destCol, c0);
    if k < Abs(destRow - r0) + Abs(destCol - c0) {
      LineScanFrom(g, r0, c0, destRow, destCol, k + 1);
      assert Ray(r0, k, sr) + sr == Ray(r0, k + 1, sr);
      assert Ray(c0, k, sc) + sc == Ray(c0, k + 1, sc);
    }
  }

  /** The rook's scan agrees with the reference definition: every square
      strictly between origin and destination is empty. */
  lemma RookScanIsPathEmpty(p: Piece, destRow: int, destCol: int, g: Grid)
    requires WellFormed(g) && InBoard(p.row, p.col) && InBoard(destRow, destCol)
    requires destRow == p.row || destCol == p.col
    ensures var sr, sc := Compare(destRow, p.row), Compare(destCol, p.col);
            RookAccepts(p, destRow, destCol, g) <==>
              PathEmpty(g, p.row, p.col, sr, sc, Abs(destRow - p.row) + Abs(destCol - p.col)) &&
              FreeOrOpposing(g, destRow, destCol, p.white)
  {
    var sr, sc := Compare(destRow, p.row), Compare(destCol, p.col);
    LineScanFrom(g, p.row, p.col, destRow, destCol, 1);
    assert Ray(p.row, 1, sr) == p.row + sr && Ray(p.col, 1, sc) == p.col + sc;
  }

  /** The scan reads occupancy only. */
  lemma {:induction false} LineClearFrame(g: Grid, h: Grid, r: int, c: int, sr: int, sc: int, destRow: int, destCol: int)
    requires WellFormed(g) && WellFormed(h) && SameColours(g, h) && InBoard(destRow, destCol)
    requires OnLineRay(r, c, sr, sc, destRow, destCol)
    ensures LineClear(g, r, c, sr, sc, destRow, destCol) == LineClear(h, r, c, sr, sc, destRow, destCol)
    decreases Abs(destRow - r) + Abs(destCol - c)
  {
    if r != destRow || c != destCol {
      LineClearFrame(g, h, r + sr, c + sc, sr, sc, destRow, destCol);
    }
  }

  /** Rook legality reads only which squares are occupied and by which colour. */
  lemma RookFrame(p: Piece, destRow: int, destCol: int, g: Grid, h: Grid)
    requires WellFormed(g) && WellFormed(h) && SameColours(g, h)
    requires InBoard(p.row, p.col) && InBoard(destRow, destCol)
    ensures RookAccepts(p, destRow, destCol, h) == RookAccepts(p, destRow, destCol, g)
  {
    if p.row == destRow || p.col == destCol {
      var sr, sc := Compare(destRow, p.row), Compare(destCol, p.col);
      LineClearFrame(g, h, p.row + sr, p.col + sc, sr, sc, destRow, destCol);
    }
  }
}
