// Piece state (src/chess/Piece.java) and the 8x8 grid of optional pieces that
// every legality predicate reads.
module Pieces {

  datatype Option<T> = None | Some(value: T)

  /** The six subclasses of Piece. */
  datatype Kind = Pawn | Knight | Bishop | Rook | Queen | King

  /** A piece as a cell of the board holds it: its kind, its colour (fixed at
      construction), the square it records as its own and whether it has moved. */
  datatype Piece = Piece(kind: Kind, white: bool, row: int, col: int, moved: bool)
  {
    /** setPosition: the recorded square becomes (r, c); nothing else changes. */
    function SetPosition(r: int, c: int): (q: Piece)
      ensures q.row == r && q.col == c
      ensures q.kind == kind && q.white == white && q.moved == moved
    {
      this.(row := r, col := c)
    }

    /** setMoved: the moved flag becomes m; nothing else changes. */
    function SetMoved(m: bool): (q: Piece)
      ensures q.moved == m
      ensures q.kind == kind && q.white == white && q.row == row && q.col == col
    {
      this.(moved := m)
    }
  }

  /** The constructor of every piece class: position and colour as given, not moved. */
  function NewPiece(kind: Kind, row: int, col: int, white: bool): (p: Piece)
    ensures p.kind == kind && p.white == white
    ensures p.row == row && p.col == col
    ensures !p.moved
  {
    Piece(kind, white, row, col, false)
  }

  /** Moving a piece away and back to its recorded square restores it. The undo
      steps of movePiece and of the checkmate scans call setPosition with the
      old square on the moved object; by this lemma that object equals the
      saved value that the model writes back instead. */
  lemma SetPositionUndo(p: Piece, r: int, c: int)
    ensures p.SetPosition(r, c).SetPosition(p.row, p.col) == p
  {
  }

  /** Neither setter can change a piece's colour or kind. */
  lemma SettersKeepIdentity(p: Piece, r: int, c: int, m: bool)
    ensures p.SetPosition(r, c).SetMoved(m).white == p.white
    ensures p.SetPosition(r, c).SetMoved(m).kind == p.kind
  {
  }

  // ---------------------------------------------------------------------------
  // The grid

  /** Piece[8][8] as a value: rows of cells, None for null. */
  type Grid = seq<seq<Option<Piece>>>

  predicate InBoard(r: int, c: int)
  {
    0 <= r < 8 && 0 <= c < 8
  }

  ghost predicate WellFormed(g: Grid)
  {
    |g| == 8 && forall r :: 0 <= r < 8 ==> |g[r]| == 8
  }

  /** Every occupied cell holds a piece whose recorded square is that cell. */
  ghost predicate Consistent(g: Grid)
    requires WellFormed(g)
  {
    forall r, c :: InBoard(r, c) && g[r][c].Some? ==> g[r][c].value.row == r && g[r][c].value.col == c
  }

  /** The value of the grid after the array write board[r][c] = x. */
  function Set(g: Grid, r: int, c: int, x: Option<Piece>): (h: Grid)
    requires WellFormed(g) && InBoard(r, c)
    ensures WellFormed(h)
    ensures h[r][c] == x
    ensures forall i, j :: InBoard(i, j) && (i != r || j != c) ==> h[i][j] == g[i][j]
  {
    g[r := g[r][c := x]]
  }

  /** Writing a piece that records the written square keeps the grid consistent. */
  lemma SetConsistent(g: Grid, r: int, c: int, x: Option<Piece>)
    requires WellFormed(g) && Consistent(g) && InBoard(r, c)
    requires x.Some? ==> x.value.row == r && x.value.col == c
    ensures Consistent(Set(g, r, c, x))
  {
  }

  /** Two grids that agree on every cell are equal. */
  lemma GridExt(g: Grid, h: Grid)
    requires WellFormed(g) && WellFormed(h)
    requires forall i, j :: InBoard(i, j) ==> g[i][j] == h[i][j]
    ensures g == h
  {
    forall i | 0 <= i < 8
      ensures g[i] == h[i]
    {
      assert forall j :: 0 <= j < 8 ==> g[i][j] == h[i][j];
    }
  }

  /** The grid value an 8x8 array currently holds. */
  function Snap(a: array2<Option<Piece>>): (g: Grid)
    reads a
    requires a.Length0 == 8 && a.Length1 == 8
    ensures WellFormed(g)
    ensures forall r, c :: InBoard(r, c) ==> g[r][c] == a[r, c]
  {
    seq(8, r requires 0 <= r < 8 reads a => seq(8, c requires 0 <= c < 8 reads a => a[r, c]))
  }

  // ---------------------------------------------------------------------------
  // Small shared notions

  function Abs(x: int): nat
  {
    if x < 0 then -x else x
  }

  /** Integer.compare(a, b): the sign of a - b. */
  function Compare(a: int, b: int): (s: int)
    ensures s == -1 || s == 0 || s == 1
    ensures s == 0 <==> a == b
    ensures s == 1 <==> a > b
  {
    if a < b then -1 else if a == b then 0 else 1
  }

  /** The capture rule every piece but the pawn states last: the destination is
      empty or holds a piece of the other colour. */
  predicate FreeOrOpposing(g: Grid, r: int, c: int, white: bool)
    requires WellFormed(g) && InBoard(r, c)
  {
    g[r][c].None? || g[r][c].value.white != white
  }

  /** `rook instanceof Rook && !rook.hasMoved()`, for either colour. */
  predicate UnmovedRook(x: Option<Piece>)
  {
    x.Some? && x.value.kind == Rook && !x.value.moved
  }

  /** h has a piece exactly where g has one, of the same colour; kinds and
      moved flags may differ. */
  ghost predicate SameColours(g: Grid, h: Grid)
    requires WellFormed(g) && WellFormed(h)
  {
    forall i, j :: InBoard(i, j) ==>
      g[i][j].Some? == h[i][j].Some? && (g[i][j].Some? ==> g[i][j].value.white == h[i][j].value.white)
  }

  /** Column `o` advanced k squares in direction s (s is -1, 0 or 1). */
  function Ray(o: int, k: int, s: int): int
  {
    if s > 0 then o + k else if s < 0 then o - k else o
  }

  /** Reference definition of a clear path: the n - 1 squares strictly between
      (r0, c0) and the square n steps along (sr, sc) are all empty. */
  ghost predicate PathEmpty(g: Grid, r0: int, c0: int, sr: int, sc: int, n: int)
    requires WellFormed(g)
  {
    forall k :: 0 < k < n ==> InBoard(Ray(r0, k, sr), Ray(c0, k, sc)) && g[Ray(r0, k, sr)][Ray(c0, k, sc)].None?
  }
}
