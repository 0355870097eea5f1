# A verified model of the chess rules engine

This project models the rules core of a two-player Swing chess program:
- `Board`, which holds an 8x8 array of pieces and the turn flag;
- the abstract `Piece`;
- its six subclasses, which decide whether a move is legal for their kind.

The model follows the code as written, including its departures from the rules of chess.

## Layout

- `pieces.dfy` (module `Pieces`):
  - What a piece records: its kind, colour, square and moved flag.
  - The setters, and the constructor shared by every piece class.
  - The grid value `Grid` (rows of optional pieces), the array write `Set`, and `Snap`, which gives the value an `array2` holds.
  - `Consistent`: every piece records its own square.
  - `PathEmpty`: a reference definition of a clear line.
- One file per piece class. Each gives that piece's `isValidMove` as a function over a grid.
  - `king.dfy`, `pawn.dfy` and `knight.dfy`: the source has no loop, so each is a function alone, with lemmas that state it case by case.
  - `bishop.dfy` and `rook.dfy` keep the source's `while` loop as a method over the array. The method is proved equal to the function, and a lemma proves the function equal to `PathEmpty`.
  - `queen.dfy`: the queen asks a fresh rook and then a fresh bishop.
- `rules.dfy`:
  - the virtual dispatch `piece.isValidMove(...)`;
  - the fact that a piece never accepts its own square;
  - a frame lemma: legality reads only colours, plus unmoved rooks through the king's castle clause.
- `board_spec.dfy` (module `BoardSpec`) holds the value-level meaning of `Board`:
  - the opening position;
  - the row-major king search of `isKingInCheck` and the attack scan;
  - the trial move made by `isCheckmate` and `isStalemate`;
  - castling and promotion;
  - `MoveSpec`: the result, new grid and new turn of `movePiece`.
- `board_laws.dfy`: properties of `MoveSpec`:
  - the rejection cases and the two branches;
  - what a normal move, a promotion and a castle write, and that nothing else changes;
  - monotonicity of check;
  - that the mover's king is safe after a completed move.
- `board.dfy` (module `ChessBoard`) holds `class Board`:
  - The fields `grid: array2<Option<Piece>>` and `whiteTurn` are updated in place by the methods, with the source's loops.
  - Each method's `ensures` ties the array and the turn after the call to the `BoardSpec` function applied to the state before the call.
- `scenarios.dfy`: concrete positions, evaluated by `MoveSpec` in lemmas:
  - The opening push e2–e4 is accepted.
  - A white pawn promotes to a Rook on the corner (0, 0). That is the corner of the black king's row. The black king stands unmoved on (0, 4), and the white king on (0, 2) is two columns from it. After the move the mover's own king counts as "in check".
  - White castles onto a square a black bishop attacks. Black then captures the white king, and that move is accepted too.

## Behaviour as written

The model keeps these behaviours of the code. Lemmas state them:

- **King.java:33** accepts a castle-shaped king move when the corner holds an unmoved Rook of **either** colour. It looks at no square in between.
  - That clause also counts in attack scans: an unmoved king "attacks" the square two columns away.
  - `KingMoves.KingCastleClause` states this.
- **Castling in movePiece** (Board.java:64-72):
  - It checks that the mover is not in check.
  - It checks only the squares strictly between the king's origin and destination. The destination itself is never tested for attack.
  - The destination may hold an opposing piece. The castle then captures it, because only an own-coloured target is refused (Board.java:54).
  - `BoardLaws.CastleRequirements` states this as an if-and-only-if.
- **isCheckmate** (Board.java:156-181) never asks whether the side to move is in check. It answers true whenever no legal-looking move gets the king out of check, so every stalemate position also answers true.
  - See `BoardSpec.StalemateIsCheckmateVerdict`.
- **Pawns** accept a diagonal square only when a piece of the other colour stands there (Pawn.java:29-31). So an empty square is never "attacked" by a pawn in `squareUnderAttack`.
- **A promoted piece** is built fresh (Board.java:112-121). Its moved flag is therefore false.
  - `piece.setMoved(true)` at line 126 reaches only the discarded pawn.
  - `BoardLaws.PromotionEffects` states this.
  - Combined with the castle clause, promoting to a Rook in a corner can put the side that just moved into check. `Scenarios.RookPromotionChecksOwnKing` exhibits this.
- **The king search** keeps the last king of the colour in row-major order (Board.java:133-142). `BoardSpec.KingSquare` models that choice, and `BoardSpec.KingSquareIsLast` states it.

## Model

| member | source | states |
|---|---|---|
| Pieces.Piece.SetPosition | src/chess/Piece.java:18-21 | the recorded square becomes the new one; kind, colour and moved flag are unchanged |
| Pieces.Piece.SetMoved | src/chess/Piece.java:40-42 | the moved flag becomes the argument; everything else is unchanged |
| Pieces.NewPiece | src/chess/Piece.java:6-15 | a new piece has the given kind, square and colour and has not moved |
| Pieces.SetPositionUndo | src/chess/Board.java:97-101 | moving a piece's position away and back restores the piece (the undo step) |
| Pieces.SettersKeepIdentity | src/chess/Piece.java:6-8 | no setter changes a piece's colour or kind |
| Pieces.Set | src/chess/Board.java:92-93 | an array write changes exactly one cell |
| Pieces.SetConsistent | src/chess/Board.java:112 | writing a piece that records its own cell keeps every piece on its own square |
| Pieces.Snap | src/chess/Board.java:6 | the grid value agrees with the array cell by cell |
| Pieces.Compare | src/chess/Bishop.java:18-19 | Integer.compare gives -1, 0 or 1, with 0 exactly on equality and 1 exactly when greater |
| KingMoves.RookCorner | src/chess/King.java:31 | the corner a castle-shaped move looks at, and that movePiece takes the rook from, is column 0 or 7, and it is 7 exactly when the move goes right |
| KingMoves.KingAccepts | src/chess/King.java:13-37 | an accepted destination is not own-coloured and is either one step away or castle-shaped |
| KingMoves.KingNeverOwnColour | src/chess/King.java:18-21 | an own-coloured destination is always rejected |
| KingMoves.KingStep | src/chess/King.java:24-26 | a one-step move is accepted iff the destination is free or opposing |
| KingMoves.KingCastleClause | src/chess/King.java:29-34 | a castle-shaped move is accepted iff the destination is not own-coloured, the king is unmoved and its corner holds an unmoved Rook of any colour |
| KingMoves.KingRejectsFarMoves | src/chess/King.java:36 | every other destination is rejected |
| PawnMoves.Direction | src/chess/Pawn.java:14 | white pawns advance toward row 0, black pawns toward row 7 |
| PawnMoves.PawnAccepts | src/chess/Pawn.java:12-34 | an accepted move goes one or two rows forward, at most one column sideways, onto a free or opposing square |
| PawnMoves.PawnSingleStep | src/chess/Pawn.java:17-20 | one step straight ahead is accepted iff the target is empty |
| PawnMoves.PawnDoubleStep | src/chess/Pawn.java:23-25 | two steps ahead are accepted iff the pawn is on its start rank and both squares are empty |
| PawnMoves.PawnDiagonal | src/chess/Pawn.java:29-31 | a forward diagonal step is accepted iff an opposing piece stands there |
| PawnMoves.PawnRejects | src/chess/Pawn.java:33 | no capture straight ahead; no sideways or backward move |
| KnightMoves.KnightAccepts | src/chess/Knight.java:13-22 | accepted iff the offset is an L shape and the destination is free or opposing |
| KnightMoves.KnightShapeSymmetric | src/chess/Knight.java:20 | the L shape is symmetric under sign changes and transposition, and excludes the zero offset |
| KnightMoves.KnightReadsOnlyDestination | src/chess/Knight.java:20-21 | grids that agree on the destination give the same verdict |
| BishopMoves.DiagonalStep | src/chess/Bishop.java:28-29 | one step of the scan stays on the diagonal and gets closer |
| BishopMoves.DiagonalStart | src/chess/Bishop.java:22 | the scan starts on the diagonal, one step from the bishop |
| BishopMoves.BishopAccepts | src/chess/Bishop.java:12-34 | an accepted move has equal row and column offsets and ends on a free or opposing square |
| BishopMoves.BishopIsValidMove | src/chess/Bishop.java:12-34 | the method over the array returns exactly BishopAccepts of the array's value |
| BishopMoves.DiagonalClear | src/chess/Bishop.java:25-30 | a scan that has reached the destination row is clear; a clear scan that has not reached the destination row found its first visited square empty |
| BishopMoves.ScanDiagonal | src/chess/Bishop.java:25-30 | the loop returns true iff no square it visits is occupied |
| BishopMoves.DiagonalScanFrom | src/chess/Bishop.java:25-30 | the scan from step k sees exactly the squares k to n-1 of the diagonal |
| BishopMoves.BishopScanIsPathEmpty | src/chess/Bishop.java:14-33 | on a diagonal, accepted iff every square strictly between is empty (PathEmpty) and the destination is free or opposing |
| BishopMoves.DiagonalClearFrame | src/chess/Bishop.java:26 | the scan reads only occupancy |
| BishopMoves.BishopFrame | src/chess/Bishop.java:12-34 | grids with the same colours give the same verdict |
| RookMoves.LineStep | src/chess/Rook.java:28-29 | one step of the scan stays on the line and gets closer |
| RookMoves.LineStart | src/chess/Rook.java:21 | the scan starts on the line, one step from the rook |
| RookMoves.RookAccepts | src/chess/Rook.java:12-34 | an accepted move keeps the row or the column and ends on a free or opposing square |
| RookMoves.RookIsValidMove | src/chess/Rook.java:12-34 | the method over the array returns exactly RookAccepts of the array's value |
| RookMoves.LineClear | src/chess/Rook.java:25-30 | a scan standing on the destination is clear; a clear scan that has not reached it found its first visited square empty |
| RookMoves.ScanLine | src/chess/Rook.java:25-30 | the loop returns true iff no square it visits is occupied |
| RookMoves.LineScanFrom | src/chess/Rook.java:25-30 | the scan from step k sees exactly the squares k to n-1 of the line |
| RookMoves.RookScanIsPathEmpty | src/chess/Rook.java:13-33 | on a row or column, accepted iff every square strictly between is empty and the destination is free or opposing |
| RookMoves.LineClearFrame | src/chess/Rook.java:26 | the scan reads only occupancy |
| RookMoves.RookFrame | src/chess/Rook.java:12-34 | grids with the same colours give the same verdict |
| QueenMoves.QueenAccepts | src/chess/Queen.java:12-16 | an accepted move is along a row, column or diagonal, onto a free or opposing square |
| QueenMoves.QueenIsValidMove | src/chess/Queen.java:14-15 | the method over the array returns exactly QueenAccepts |
| QueenMoves.QueenLines | src/chess/Queen.java:12-16 | accepted iff free or opposing and along a row/column or a diagonal whose in-between squares are all empty |
| Rules.Accepts | src/chess/Piece.java:34 | no piece accepts a square holding a piece of its own colour |
| Rules.IsValidMove | src/chess/Piece.java:34 | the dispatched method on the array returns Accepts of its value |
| Rules.NeverOwnSquare | src/chess/Piece.java:34 | no piece accepts its own square |
| Rules.AcceptsMonotone | src/chess/King.java:29-34 | with the same colours and fewer unmoved rooks, no move becomes legal |
| BoardSpec.InitialGrid | src/chess/Board.java:15-39 | every cell holds the opening piece of that square |
| BoardSpec.InitialPosition | src/chess/Board.java:15-39 | back ranks R N B Q K B N R with pawns in front, rows 2-5 empty, all pieces unmoved and consistent, the two sides mirror images in opposite colours |
| BoardSpec.InitialKings | src/chess/Board.java:21-33 | the only kings stand on (7, 4) and (0, 4), and the king search finds them there |
| BoardSpec.LastKingBefore | src/chess/Board.java:133-142 | the partial king search gives (-1, -1) or an on-board square before the scan position holding a king of the asked colour |
| BoardSpec.LastKingBeforeSpec | src/chess/Board.java:133-142 | the partial scan reports (-1, -1) iff no king came before; otherwise it reports the last king of that colour seen |
| BoardSpec.KingSquare | src/chess/Board.java:133-142 | the king search lands on a king of the asked colour |
| BoardSpec.KingSquareIsLast | src/chess/Board.java:134-141 | no king of that colour follows it in row-major order |
| BoardSpec.KingSquareOfOnlyKing | src/chess/Board.java:133-142 | a lone king is the one found |
| BoardSpec.Relocate | src/chess/Board.java:91-94 | a trial move yields a well-formed 8x8 grid whose source cell is empty, whose destination holds the mover with its new square, and whose other cells are unchanged |
| BoardSpec.RelocateFacts | src/chess/Board.java:91-94 | a trial move onto a free or opposing square keeps every piece on its own square and keeps the mover's king |
| BoardSpec.AttacksFrom | src/chess/Board.java:219-229 | a piece that attacks a square is not on it, and the square is free or holds the other colour |
| BoardSpec.Attacked | src/chess/Board.java:219-229 | an attacked square is free or holds a piece of the other colour than the attacker |
| BoardSpec.InCheck | src/chess/Board.java:132-153 | a side in check has an opposing piece on the board |
| BoardSpec.Escapes | src/chess/Board.java:163-173 | an escaping candidate move leaves its square and lands on a free or opposing square |
| BoardSpec.NoEscape | src/chess/Board.java:156-181 | when isCheckmate answers true, in particular no move of the king escapes |
| BoardSpec.Stalemate | src/chess/Board.java:184-212 | when isStalemate answers true, so does isCheckmate |
| BoardSpec.RelocateUndo | src/chess/Board.java:97-100 | writing back the two cells restores the grid exactly |
| BoardSpec.RowsStuckStep | src/chess/Board.java:157-180 | the row-by-row scan of isCheckmate grows one row at a time, covers the board after row 7 and fails on any row with an escape |
| BoardSpec.StalemateIsCheckmateVerdict | src/chess/Board.java:156-212 | every stalemate also answers true to isCheckmate; in check there is no stalemate; out of check the two agree |
| BoardSpec.TransitClear | src/chess/Board.java:65-72 | for a two-column castle the loop passes iff the one square between is empty and not attacked by the opponent |
| BoardSpec.Castled | src/chess/Board.java:74-82 | the four castle writes give a well-formed grid and keep pieces on their own squares |
| BoardSpec.PromotedKind | src/chess/Board.java:110-123 | Rook, Bishop and Knight are taken as chosen; anything else becomes a Queen |
| BoardSpec.Landed | src/chess/Board.java:105-126 | on the last rank a pawn becomes a new, unmoved piece of the chosen kind; any other mover keeps its kind and is marked moved |
| BoardSpec.CastleOutcome | src/chess/Board.java:59-87 | the castling branch keeps the grid consistent; refused, it changes nothing; accepted, it passes the turn, and the corner held an unmoved Rook and the mover was not in check |
| BoardSpec.NormalOutcome | src/chess/Board.java:90-128 | the normal branch keeps the grid consistent; refused, it changes nothing; accepted, it passes the turn, empties the source and places the landed piece on the destination |
| BoardSpec.MoveSpec | src/chess/Board.java:45-129 | a rejected move leaves the grid and the turn unchanged; an accepted one passes the turn; the grid stays consistent |
| BoardLaws.MoveRejections | src/chess/Board.java:46-56 | an empty source, the wrong colour, a rejected destination or an own-coloured target: false and nothing changes |
| BoardLaws.MoveSpecCastleBranch | src/chess/Board.java:59 | past the checks, a castle attempt follows the castling branch |
| BoardLaws.MoveSpecNormalBranch | src/chess/Board.java:90-94 | past the checks, every other move follows the normal branch |
| BoardLaws.SelfCheckRefused | src/chess/Board.java:96-102 | a move leaving the mover's king in check is refused and leaves every cell and the turn as they were |
| BoardLaws.NormalMoveEffects | src/chess/Board.java:90-128 | a completed move is legal for the mover, empties the source, places the landed piece on the destination, changes no other cell and passes the turn |
| BoardLaws.PlainMoveMarksMoved | src/chess/Board.java:126 | a non-promoting mover stands on the destination marked moved |
| BoardLaws.PromotionEffects | src/chess/Board.java:105-124 | a promoting pawn is replaced by a new piece of its colour and the chosen kind, left unmoved |
| BoardLaws.CastleRequirements | src/chess/Board.java:59-72 | a castle attempt succeeds iff it is the mover's king, the target is not own-coloured, the corner holds an unmoved Rook, the mover is not in check, and the squares strictly between are empty and unattacked |
| BoardLaws.HomeColumnIsDistinct | src/chess/Board.java:60-61 | from column 4 the king, corner and landing columns are distinct |
| BoardLaws.CastleEffects | src/chess/Board.java:74-84 | after castling the king and rook stand on their new squares marked moved, their old squares are empty, nothing else changes and the turn passes |
| BoardLaws.InitialKingsHome | src/chess/Board.java:21-33 | in the opening position every unmoved king stands on column 4 |
| BoardLaws.MovePreservesKingsHome | src/chess/Board.java:45-129 | every move keeps unmoved kings on column 4: a king that moves is marked moved |
| BoardLaws.CastleFromHome | src/chess/Board.java:59-61 | when unmoved kings stand on column 4, a castle attempt starts from column 4, goes to column 2 or 6, and its king, corner and landing columns are distinct |
| BoardLaws.CastleInPlay | src/chess/Board.java:59-84 | with unmoved kings on column 4, a completed castle starts from column 4, puts the king moved on column 2 or 6 and the rook moved on column 3 or 5, empties the king's and the corner's squares, changes no other cell and passes the turn |
| BoardLaws.KingSquareFrame | src/chess/Board.java:133-142 | grids with the same kings give the same king square |
| BoardLaws.CheckMonotone | src/chess/Board.java:144-152 | with the same colours, kings and opposing pieces and fewer unmoved rooks, a king safe before is safe after |
| BoardLaws.NormalMoveLeavesKingSafe | src/chess/Board.java:90-128 | after a completed normal move, other than a promotion to Rook, the mover's king is not in check |
| Scenarios.OpeningDoublePush | src/chess/Board.java:45-129 | from the opening position white's e-pawn push to (4, 4) is accepted, marked moved, and passes the turn |
| Scenarios.AfterPushKingSafe | src/chess/Board.java:97 | after that trial push the white king is not in check |
| Scenarios.BlackHomeSparesE1 | src/chess/Board.java:144-152 | while black pieces stand on their opening squares, none of them accepts the white king square (7, 4) |
| Scenarios.RookPromotionChecksOwnKing | src/chess/Board.java:105-128 | in the position `PromotionTrap` (white king (0, 2), white pawn (1, 0), black king unmoved on (0, 4)), promoting to a Rook on (0, 0) is accepted, yet leaves the side that just moved in check |
| Scenarios.TrapSafeWithPawn | src/chess/Board.java:97 | with the pawn still in the corner, the trial move leaves the white king safe |
| Scenarios.TrapSprungByRook | src/chess/King.java:29-34 | with the new unmoved rook in the corner, the black king's castle clause reaches the white king |
| Scenarios.CastleIntoCheck | src/chess/Board.java:59-84 | in the position `CastleTrap`, white may castle short onto (7, 6), which the black bishop on (5, 4) attacks; afterwards white, who has just moved, is in check |
| Scenarios.CastleTrapSafe | src/chess/Board.java:64 | before the castle the white king is not in check |
| Scenarios.CastleTrapTransit | src/chess/Board.java:65-72 | the square (7, 5) the king crosses is empty and not attacked |
| Scenarios.CastleTrapCastled | src/chess/Board.java:74-82 | the four castle writes give the castled position, in which the bishop attacks the white king |
| Scenarios.BishopTakesKing | src/chess/Board.java:45-129 | black's bishop then captures the white king; the move is accepted and no white king is left |
| Scenarios.CaptureLeavesBlackSafe | src/chess/Board.java:97 | after that trial capture the black king is not in check |
| ChessBoard.Board.constructor | src/chess/Board.java:9-13 | a fresh array holding the opening position, white to move |
| ChessBoard.Board.Setup | src/chess/Board.java:15-39 | rows 0, 1, 6 and 7 hold the opening pieces; rows 2-5 are untouched |
| ChessBoard.Board.PlaceBackRank | src/chess/Board.java:17-24 | the eight back-rank pieces of a side are written, nothing else |
| ChessBoard.Board.PlacePawns | src/chess/Board.java:25-26 | the eight pawns of a side are written, nothing else |
| ChessBoard.Board.IsWhiteTurn | src/chess/Board.java:214-216 | returns the turn flag |
| ChessBoard.Board.SquareUnderAttack | src/chess/Board.java:219-229 | true iff some piece of that colour accepts the square |
| ChessBoard.Board.IsKingInCheck | src/chess/Board.java:132-153 | true iff the king found by the search is attacked by the other colour |
| ChessBoard.Board.Put | src/chess/Board.java:92 | the array write changes the grid value by Set |
| ChessBoard.Board.Shift | src/chess/Board.java:91-94 | the trial move changes the grid value by Relocate |
| ChessBoard.Board.Unshift | src/chess/Board.java:97-100 | the undo restores the grid from before the trial |
| ChessBoard.Board.TryMove | src/chess/Board.java:163-173 | the grid is restored, and the result is whether the candidate move escapes check |
| ChessBoard.Board.AnyEscape | src/chess/Board.java:157-180 | the grid is restored, and the result is true iff some move of that side escapes check |
| ChessBoard.Board.RowEscapes | src/chess/Board.java:158-177 | true iff a piece on that row has an escaping move; the grid is restored |
| ChessBoard.Board.PieceEscapes | src/chess/Board.java:161-176 | true iff that piece has an escaping move; the grid is restored |
| ChessBoard.Board.IsCheckmate | src/chess/Board.java:156-181 | true iff the side to move has no escaping move; the grid is unchanged |
| ChessBoard.Board.IsStalemate | src/chess/Board.java:184-212 | true iff the side to move is not in check and has no escaping move; the grid is unchanged |
| ChessBoard.Board.TransitIsClear | src/chess/Board.java:65-72 | true iff every square strictly between is empty and not attacked |
| ChessBoard.Board.PerformCastle | src/chess/Board.java:74-82 | the grid becomes Castled of the old grid and stays consistent |
| ChessBoard.Board.CastleAllowed | src/chess/Board.java:60-72 | true iff the corner holds an unmoved Rook, the mover is not in check, and the transit is clear |
| ChessBoard.Board.Castle | src/chess/Board.java:59-87 | the result and grid are those of the castling branch |
| ChessBoard.Board.NormalMove | src/chess/Board.java:90-128 | the result and grid are those of the normal branch |
| ChessBoard.Board.Land | src/chess/Board.java:105-126 | the destination receives the promoted piece or the mover marked moved |
| ChessBoard.Board.Screen | src/chess/Board.java:46-56 | passes iff the source holds a piece of the side to move, its predicate accepts the destination, and the target is free or opposing |
| ChessBoard.Board.MovePiece | src/chess/Board.java:45-129 | the result, the new grid and the new turn are exactly those of MoveSpec |
| ChessBoard.Board.UpdateGrid | src/chess/Board.java:46-124 | the result and new grid are those of MoveSpec |

## Left out

- **The GUI** (GUI.java), `getSymbol` and `getBoard`: presentation only. They are not part of this model.
- **The promotion dialog** (Board.java:106-108) is asked of the user. It is replaced by the `promotion` parameter, a `Kind`.
  - The dialog's `null` answer (cancelling the dialog) makes the `switch` throw. That path is not modelled.
- **En passant** and any other rule the source does not implement are absent from the model, as they are from the code.
- **Pieces as values:**
  - A piece is a value (`Pieces.Piece`) rather than a mutable object. The setters return updated copies, and the array holds them.
  - Every piece stands in exactly one cell, recording that cell (`Pieces.Consistent`). Every public operation keeps this: the constructor, `MovePiece` and the queries. The internal array writes `Put` and `Shift` neither require nor promise it; the operations that call them re-establish it.
  - So no piece object is shared between two cells. `getBoard` hands the array to the GUI, which only reads it. So a value model loses no behaviour.
  - One consequence: the call `piece.setMoved(true)` on a pawn that the promotion has already replaced (Board.java:126) has no visible effect, and the model does not write it.
- **Check queries need a king:**
  - `ChessBoard.Board.IsKingInCheck`, `IsCheckmate`, `IsStalemate`, `CastleAllowed`, `MovePiece` and the related specifications require a king of the asked colour on the board.
  - Without one the source passes (-1, -1) to `isValidMove`, and the pieces then index outside the array.
  - Play can reach such a position. A king castles onto an attacked square, and the opponent then captures it (`Scenarios.CastleIntoCheck`, `Scenarios.BishopTakesKing`).
- BoardLaws.NormalMoveLeavesKingSafe: excludes promotion to a Rook. In that case the mover's king can in fact end up in check, through the enemy king's castle clause (see `Scenarios.RookPromotionChecksOwnKing`).
- BoardLaws.CastleEffects: assumes the king, corner and landing columns are distinct. That holds for every castle reachable in play. Unmoved kings start on column 4 (`BoardLaws.InitialKingsHome`), every move keeps them there (`BoardLaws.MovePreservesKingsHome`), and from column 4 the columns are distinct (`BoardLaws.CastleFromHome`). The only case not described cell by cell is an unmoved king off column 4, which play never produces. `MoveSpec` still gives its grid.
- **Method splits:** `movePiece`, `isCheckmate` and `isStalemate` are split into helper methods (`Screen`, `Castle`, `NormalMove`, `AnyEscape`, `RowEscapes`, `PieceEscapes`, `TryMove`). These run the source's statements in the source's order.
  - `movePiece` passes the turn at the end of `MovePiece` rather than inside each branch. That can be told apart only if an exception interrupts the move.
- **Integer overflow:** Java `int` overflow is not modelled. Every index and offset here lies between -8 and 8.
- **Rejection reasons:** the source returns only `false` when it rejects a move, and the model does the same. It does not say why a move failed.
