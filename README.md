# topologic-go in Dafny

This project models the game logic of topologic-go, a collection of browser
board games played on boards whose edges are glued together. In rollover
(torus) mode the edges wrap. In mirror mode the board continues into a
reflected copy of itself. It proves properties of that logic. The model
covers the following parts of the repository:

- **src/main.ts** (modules `TsTopology`, `TsChess`, `TsGo`):
  - coordinate wrapping (`wrap`) and mirror folding (`wrapMirror`);
  - chess move legality on the classic, rollover and mirror board shapes;
  - the chess click handler;
  - Go neighbourhoods per board shape;
  - group and liberty search, captures, suicide and simple ko;
  - placing stones, passing and the two `init` functions.
- **go.js and game.js** (modules `GoEngine`, `GoGame`): the two Go game
  objects.
  - Their rules are identical line for line, so they are modelled once:
    the torus wrap, `isValidMove`, the recursive `hasLiberties` with its
    shared visited set, the stone-by-stone `removeDeadStones` and
    `countStonesToRemove`.
  - The state changes are methods of one class: `makeMove`, `pass`,
    `resetGame` and `changeBoardSize`.
  - A `Rules` field selects the only difference between the files: what
    the second pass does. go.js announces the winner; game.js starts over.
- **torus-chess.js and spherical-chess.js** (modules `TorusChess`,
  `SphericalChess`, sharing `TessMoves` and `ChessBoards`):
  - `getPossibleMoves` steps in unbounded tessellation coordinates and
    reads each square back through the file's normalisation.
  - The torus wraps both axes modulo 8.
  - The sphere wraps columns modulo 8 and folds rows with period 16.
  - Spherical pawns carry their own direction, which turns over when a
    pawn crosses into a reflected copy.
  - Modelled for both: the click handlers, king capture and game over.
- **chess.js** (module `ClassicChess`): the flat board. Its click handler
  moves a selected piece to any square without checking the move.
- **frontend/games/hexagon-chess/hexagon-chess.js** (module `HexChess`):
  - the 77-square hexagonal board and its two tables, the position set and
    the row structure, which are proved to agree;
  - algebraic notation and its round trip;
  - the three-colour shading;
  - Gliński's start position;
  - the click handler. Every move generator in the source is still a stub,
    so no piece ever has a move.
- Shared modules:
  - `JsMath`: JavaScript's truncating `%` and the `((n % m) + m) % m`
    wrap idiom.
  - `JsText`: number-to-string, `parseInt` and `indexOf`.
  - `Grid` (boards as lists of rows) and `Pieces`.

Boards that the source mutates in place are `seq<seq<_>>` (or `map`)
fields of a class, and the class's methods reassign them. The pure rules
are functions, and the JavaScript loops are methods, each proved against
the function that specifies it. Module-level variables in src/main.ts
become the fields of `TsChess.ChessSession` and `TsGo.GoSession`.

## Model

| member | source | states |
|---|---|---|
| TsTopology.Wrap | src/main.ts:72-74 | the wrapped coordinate lies in `0 .. size-1` and is `n` modulo `size`, negative `n` included |
| TsTopology.WrapCongruent | src/main.ts:72-74 | wrapping moves `n` by whole board widths only, and wrapping twice is wrapping once |
| TsTopology.WrapStep | src/main.ts:72-74 | stepping from a wrapped coordinate and wrapping again is wrapping the raw sum |
| TsTopology.WrapNear | src/main.ts:72-74 | one step off the board wraps to the opposite edge; on the board nothing changes |
| TsTopology.MirrorFold | src/main.ts:76-92 | the folded row and wrapped column always land on the board |
| TsTopology.ReflectStep | src/main.ts:81-89 | each reflection of the loop keeps the closed-form fold and toggles the flip flag |
| TsTopology.WrapMirror | src/main.ts:76-92 | the reflection loop terminates with the closed-form fold; a square on the board comes back unchanged and unflipped |
| TsTopology.InRangeUnfolded | src/main.ts:81 | a row already on the board is not reflected |
| TsTopology.MirrorNear | src/main.ts:81-89 | one row past an edge reflects onto the edge row itself, with the flag set |
| TsTopology.MirrorExamples | src/main.ts:76-92 | worked values on the 8-row board: row 8 to 7, row 9 to 6, row -1 to 0 (all flipped), row 16 to 0 unflipped, column -1 to 7 |
| TsTopology.MirrorPeriodic | src/main.ts:76-92 | folding repeats every `2 * size` rows and every `size` columns |
| TsChess.CreateInitialChessBoard | src/main.ts:95-107 | the board built is the start position: black's back rank on row 0 and pawns on row 1, white's pawns on row 6 and back rank on row 7 (rook, knight, bishop, queen, king, bishop, knight, rook), every other square empty |
| TsChess.OwnSquareNeverLegal | src/main.ts:109-117 | under every board shape a piece may not move onto its own square, because the target then holds a piece of its own colour |
| TsChess.IsPathClear | src/main.ts:372-386 | the walk answers true exactly when every square strictly between source and target is empty |
| TsChess.IsValidMoveClassic | src/main.ts:119-162 | the answer is the flat-board rule of the moving piece (pawn pushes and captures, sliding pieces with a clear path, knight, king); no piece on the source or an own piece on the target always gives false |
| TsChess.ClassicGeometry | src/main.ts:148-160 | on the flat board a knight move is legal exactly when the row and column distances are 1 and 2 in some order, and a king move exactly when both are at most 1 and the king moves |
| TsChess.WrappedRayNext | src/main.ts:364-365 | each step of a wrapped ray is one wrapped step from the previous square |
| TsChess.IsPathClearWrapped | src/main.ts:352-370 | true exactly when the target comes up within 8 wrapped steps and every square before it is empty |
| TsChess.IsReachableStraight | src/main.ts:332-342 | true exactly when a clear wrapped rank ray (rows equal) or file ray (columns equal) reaches the target |
| TsChess.IsReachableDiagonal | src/main.ts:344-350 | true exactly when one of the four wrapped diagonal rays reaches the target |
| TsChess.KnightReachesWrapped | src/main.ts:191-202 | true exactly when some knight offset, wrapped around the torus, lands on the target |
| TsChess.KingReachesWrapped | src/main.ts:204-214 | true exactly when some king offset other than (0, 0), wrapped, lands on the target |
| TsChess.PawnMoveWrapped | src/main.ts:172-189 | the pawn rule of the torus and mirror boards: pushes never wrap, a capture may cross the side edge |
| TsChess.IsValidMoveRollover | src/main.ts:164-226 | the answer is the torus rule of the moving piece; no piece or an own-colour target gives false |
| TsChess.RolloverKingIsTorusNeighbour | src/main.ts:204-214 | on the torus a king reaches exactly the other squares whose row and column distances around the board are at most 1 |
| TsChess.KingWrappedComplete | src/main.ts:204-214 | every torus neighbour of the king's square is among the squares the loops find |
| TsChess.TorusStep | src/main.ts:72-74 | one wrapped step `d` from `f` lands on `t` exactly when `t - f` is `d` modulo 8 |
| TsChess.IsPathClearMirror | src/main.ts:310-330 | true exactly when the target comes up within 16 steps, each folded by `wrapMirror`, with every square before it empty |
| TsChess.IsReachableStraightMirror | src/main.ts:294-300 | true exactly when one of the four straight mirrored rays reaches the target, whatever the source and target |
| TsChess.IsReachableDiagonalMirror | src/main.ts:302-308 | true exactly when one of the four diagonal mirrored rays reaches the target |
| TsChess.KnightReachesMirror | src/main.ts:255-266 | true exactly when some knight offset, folded by `wrapMirror`, lands on the target |
| TsChess.KingReachesMirror | src/main.ts:269-280 | true exactly when some king offset other than (0, 0), folded by `wrapMirror`, lands on the target |
| TsChess.IsValidMoveMirror | src/main.ts:228-292 | the answer is the mirrored-torus rule of the moving piece; no piece or an own-colour target gives false |
| TsChess.IsValidChessMove | src/main.ts:109-117 | the validator of the current board shape decides, and any accepted move starts from a piece and does not land on an own piece |
| TsChess.MoveRelocatesPiece | src/main.ts:396-411 | after an accepted move the source is empty, the target holds the mover's piece (or a queen of its colour when a pawn reached row 0 or 7), and no other square changes |
| TsChess.ChessSession.constructor | src/main.ts:939-963 | choosing a board shape starts a new game: the session holds the start position, white to move, nothing selected, game running |
| TsChess.ChessSession.InitChess | src/main.ts:887-895 | the same reset on an existing session; the board shape is kept |
| TsChess.ChessSession.HandleSquareClick | src/main.ts:388-428 | a finished game ignores clicks; without a selection an own piece is selected; the selected square deselects; an illegal target reselects an own piece or drops the selection; a legal move relocates the piece, ends the game when it took a king (the mover is recorded as winner, the turn stays) and otherwise promotes and passes the turn |
| TsGo.CreateInitialGoBoard | src/main.ts:431-433 | a 19 by 19 board with every point empty |
| TsGo.RowToString | src/main.ts:435-437 | one character per point, `b`, `w` or `.` for its content |
| TsGo.JoinInjective | src/main.ts:435-437 | joining rows of one fixed length with a separator loses nothing: equal strings come from equal rows |
| TsGo.BoardToStringInjective | src/main.ts:435-437 | two boards have the same string exactly when they are the same board, so the ko check compares boards |
| TsGo.GetNeighbors | src/main.ts:439-464 | every neighbour listed is a point of the board; the torus and mirror shapes always list four |
| TsGo.NeighborsUseWrap | src/main.ts:447-461 | the torus neighbours are the `wrap` of the four steps, and the mirror neighbours fold the row steps with `wrapMirror` and wrap the column steps |
| TsGo.NeighborsAreAdjacent | src/main.ts:439-464 | a point is listed exactly when it is a geometric neighbour on the current shape: orthogonal on the flat board, around both edges on the torus, around the sides on the mirror board, where the top and bottom rows meet themselves |
| TsGo.NeighborsSymmetric | src/main.ts:439-464 | on every shape `a` lists `c` exactly when `c` lists `a` |
| TsGo.NeighborsInRange | src/main.ts:439-464 | no shape lists a point off the board |
| TsGo.Group | src/main.ts:466-489 | the group of a stone holds the stone, lies on the board and has the stone's colour throughout |
| TsGo.ChainStaysInClosed | src/main.ts:477-485 | a chain of one colour starting inside a set that no same-coloured neighbour leaves stays inside it |
| TsGo.TreeConnected | src/main.ts:472-486 | every stone the search added is joined to the start by a chain of its colour |
| TsGo.GetGroup | src/main.ts:466-489 | the depth-first search returns exactly the group of the start point: empty for an empty point, otherwise every stone joined to it by a chain of its colour |
| TsGo.PushNeighbors | src/main.ts:481-485 | every same-coloured neighbour of the popped stone is then in the group or on the stack, and the search bookkeeping is kept |
| TsGo.GroupFound | src/main.ts:472-488 | when the stack runs out the set found is closed under same-coloured neighbours and joined to the start, so it is the whole group |
| TsGo.Liberties | src/main.ts:491-504 | the liberties are points of the board |
| TsGo.LibertiesAdd | src/main.ts:494-501 | each stone of the group adds its empty neighbours to the liberties |
| TsGo.NoLibertiesIffSurrounded | src/main.ts:491-504 | a group has no liberty exactly when every neighbour of every stone in it is occupied |
| TsGo.GetLiberties | src/main.ts:491-504 | the count is the number of distinct empty points next to the group |
| TsGo.AddEmptyAround | src/main.ts:495-500 | the inner loop adds exactly the empty neighbours of one stone |
| TsGo.ClearedCells | src/main.ts:506-514 | clearing empties exactly the points of the group and keeps every other point |
| TsGo.ClearedStep | src/main.ts:508-512 | emptying one more point extends the cleared set by that point |
| TsGo.RemoveGroup | src/main.ts:506-514 | the board loses exactly the group's stones and the count is the group's size |
| TsGo.CaptureFrom | src/main.ts:525-534 | capturing around a point keeps a well-formed board |
| TsGo.ClearedChanged | src/main.ts:525-534 | the points changed by a capture sequence are the first group plus, apart from it, those the later captures change |
| TsGo.CaptureOnlyEmpties | src/main.ts:525-534 | a capture only empties points that held an opponent stone |
| TsGo.CaptureCount | src/main.ts:525-534 | the count returned is exactly the number of points emptied, and something was captured exactly when it is positive |
| TsGo.CaptureWitness | src/main.ts:528-532 | when something was captured, a neighbour of the played point held an opponent stone and is now empty |
| TsGo.CaptureAround | src/main.ts:562-571 | the loop over the played point's neighbours computes the capture sequence |
| TsGo.Placement | src/main.ts:520-534 | the board after the stone and its captures is a well-formed board |
| TsGo.IsValidGoMove | src/main.ts:516-551 | accepted exactly when the point is empty, the new group has a liberty or something was captured, and the board string differs from the one recorded before the previous move |
| TsGo.PlacedStoneStays | src/main.ts:520-534 | the stone just played is never removed by its own captures |
| TsGo.ValidMoveLeavesLiberty | src/main.ts:537-541 | after an accepted move the group of the new stone has a liberty |
| TsGo.KoIsBoardRepeat | src/main.ts:543-548 | the ko test rejects a move exactly when the resulting board equals the board before the previous move |
| TsGo.PlayStone | src/main.ts:553-583 | a stone is placed exactly when the move is valid; then the board and the capture count are those of the placement and the ko string is the board before the move |
| TsGo.GoSession.constructor | src/main.ts:939-963 | choosing a board shape starts a fresh game with that shape's neighbours |
| TsGo.GoSession.InitGo | src/main.ts:897-909 | an empty board, black to move, no passes, no captures, no last move, no ko string, empty history |
| TsGo.GoSession.PlaceGoStone | src/main.ts:553-583 | an invalid move changes nothing; a valid one plays and captures, credits the captures to the mover, records the last move, the ko string and the history, clears the pass count and hands the turn over |
| TsGo.GoSession.PassGoTurn | src/main.ts:585-601 | a finished game ignores a pass; otherwise the pass count goes up, the last move is cleared, and the second pass ends the game with the turn unchanged while an earlier one hands the turn over |
| TsGo.GoSession.HandleIntersectionClick | src/main.ts:603-610 | a finished game ignores clicks; otherwise an invalid move changes nothing, and a valid one sets the board to the placement result, credits the mover with its captures, records the move, the ko string and the history, clears the passes and hands the turn over |
| GoEngine.TorusCoords | go.js:839-845 | in topologic mode the result is a board point congruent to the input modulo the board size in both coordinates; otherwise the input is returned unchanged |
| GoEngine.TorusCoordsPeriodic | go.js:839-845 | shifting either coordinate by whole board widths does not change the wrapped point, and a board point wraps to itself |
| GoEngine.IsValidMoveMeaning | go.js:613-621 | a move is accepted exactly when the point is empty: found through the wrap in topologic mode, and only inside the board otherwise |
| GoEngine.Step | go.js:744-756 | a neighbour in one direction, when present, is a board point |
| GoEngine.Neighbors | go.js:739-756 | every neighbour the liberty search visits is a board point |
| GoEngine.NeighborOfStep | go.js:739-756 | every present step in one of the four directions is among the neighbours |
| GoEngine.StepOfNeighbor | go.js:739-756 | every neighbour comes from a step in one of the four directions |
| GoEngine.TorusNeighbors | go.js:744-751 | in topologic mode a point's neighbours are exactly its four wrapped orthogonal neighbours |
| GoEngine.FlatNeighbors | go.js:752-756 | on a flat board a neighbour is exactly a board point one row or one column away, so edge and corner points have fewer |
| GoEngine.ConnectedSelf | go.js:733-769 | every stone belongs to its own group |
| GoEngine.ConnectedPrepend | go.js:762-765 | a group reached through a same-coloured neighbour is the stone's own group |
| GoEngine.VisitedGrows | go.js:742-766 | what the search knows about the directions already passed survives a recursive call that grows the shared visited set |
| GoEngine.AllDirectionsDone | go.js:742-768 | a stone whose four directions found no liberty is finished: all its neighbours occupied and its same-coloured neighbours visited |
| GoEngine.LibertyThroughNeighbor | go.js:762-765 | a liberty found through a same-coloured neighbour is a liberty of the stone's group |
| GoEngine.HasLibertiesFrom | go.js:733-769 | with a shared visited set: true only when the group has a liberty; false leaves every newly visited stone finished and the visited set grown to include the stone |
| GoEngine.ChainStaysVisited | go.js:733-769 | when the search finds nothing, its visited set holds every stone connected to the start |
| GoEngine.HasLiberties | go.js:733-769 | with a fresh visited set: true exactly when the stone's group has an empty neighbour |
| GoEngine.RemoveIfDead | go.js:726-728 | testing one point keeps the board's shape |
| GoEngine.RemoveDeadStones | go.js:723-731 | the double loop produces the row-major, stone-by-stone scan in which each test sees the removals made before it |
| GoEngine.ScanCellsOnlyClears | go.js:724-730 | scanning one row only empties points of that row, to the left of the scan position, that held the colour; every other point is kept |
| GoEngine.ScanRowsOnlyClears | go.js:723-731 | the whole scan only empties points that held the colour; every other point is kept |
| GoEngine.CountStonesToRemove | go.js:771-781 | the count is the number of stones of the colour whose group has no liberty on the unchanged board |
| GoEngine.CountCellsZero | go.js:773-779 | the count over one row is zero exactly when no stone in it is dead, and it is at most the row length |
| GoEngine.CountRowsZero | go.js:771-781 | the count over the first rows is zero exactly when no stone in them is dead |
| GoEngine.CountZero | go.js:771-781 | countStonesToRemove answers zero exactly when no stone of the colour is dead |
| GoEngine.NoDeadNoRemoval | go.js:723-731 | when no stone of the colour is dead, removeDeadStones leaves the board unchanged |
| GoEngine.NoDeadRowUnchanged | go.js:724-730 | when no stone of the colour is dead, scanning a row leaves the board unchanged |
| GoGame.Winner | go.js:675-680 | black wins exactly when black's counter is larger, white exactly when white's is, and a tie exactly when they are equal |
| GoGame.WinnerSwap | go.js:675-680 | swapping the two counters swaps the winner and keeps a tie |
| GoGame.Place | go.js:630 | the played point gets the mover's stone and every other point is kept |
| GoGame.PlayMove | go.js:623-647 | placing, counting the dead of both colours on the new board, removing the opponent's dead and then the mover's, and updating the counters yields a board of the same size |
| GoGame.PlayOnlyPlaces | go.js:623-647 | a move only adds the mover's stone on the played point: every other point keeps its content or is emptied, and the played point ends with the mover's stone or empty |
| GoGame.QuietMove | go.js:623-647 | a move that kills nothing just adds the stone and raises the mover's counter by one |
| GoGame.QuietScan | go.js:643-644 | when no stone of either colour is dead, both removal scans leave the board unchanged |
| GoGame.Game.constructor | go.js:1-16 | a 19 by 19 empty board in topologic mode, black to play, no passes and both counters at zero |
| GoGame.Game.ResetGame | go.js:696-713 | an empty board of the current size, black to play, no passes, both counters at zero |
| GoGame.Game.ChangeBoardSize | go.js:1157-1168 | the new size and a fresh empty game on it |
| GoGame.Game.MakeMove | go.js:623-659 | the board and counters become what a move on the wrapped point yields, the pass count is cleared and the turn passes to the opponent |
| GoGame.Game.HandleClick | go.js:608-610 | a click on a point isValidMove accepts plays it; any other click leaves the whole game unchanged |
| GoGame.Game.Pass | go.js:665-673 | the pass count goes up and the turn passes on; at the second pass go.js ends the game with the verdict and changes nothing else, while game.js resets to a new game |
| HexChess.FilesDistinct | frontend/games/hexagon-chess/hexagon-chess.js:15 | the twelve file letters are pairwise distinct |
| HexChess.AlgebraicRoundTrip | frontend/games/hexagon-chess/hexagon-chess.js:92-104 | writing coordinates in algebraic notation and reading them back gives the same coordinates, for every file index and every row |
| HexChess.AlgebraicNoFile | frontend/games/hexagon-chess/hexagon-chess.js:92-104 | a file index outside the twelve files is written as `undefined` and reads back with file index -1 |
| HexChess.CoordsRoundTrip | frontend/games/hexagon-chess/hexagon-chess.js:92-104 | a file letter followed by a written number reads back to coordinates that write out to the same string |
| HexChess.NameInjective | frontend/games/hexagon-chess/hexagon-chess.js:27-43 | distinct squares have distinct key strings, so keying the board by squares keys it as the string keys do |
| HexChess.RowStructureOrdered | frontend/games/hexagon-chess/hexagon-chess.js:51-63 | each rank of the row table lists its files in strictly increasing order, so no file twice |
| HexChess.SquaresOfMember | frontend/games/hexagon-chess/hexagon-chess.js:27-43 | a square is among one rank's listed squares exactly when it has that rank and one of the listed files |
| HexChess.ListedMember | frontend/games/hexagon-chess/hexagon-chess.js:27-43 | a square is among the squares listed for the first ranks exactly when its rank is one of them and its file is listed for that rank |
| HexChess.TablesAgree | frontend/games/hexagon-chess/hexagon-chess.js:27-63 | for every rank the position set and the row table list the same files |
| HexChess.ValidPositionsByRow | frontend/games/hexagon-chess/hexagon-chess.js:160-162 | a square is a valid position exactly when its rank is 1 to 11 and the row table lists its file for that rank |
| HexChess.ListedRanksMember | frontend/games/hexagon-chess/hexagon-chess.js:27-43 | the position set covers exactly ranks 1 to 11, each once |
| HexChess.SquaresOfCard | frontend/games/hexagon-chess/hexagon-chess.js:27-43 | one rank contributes as many squares as it lists distinct files |
| HexChess.ListedCard | frontend/games/hexagon-chess/hexagon-chess.js:27-43 | the squares of the first listed ranks are as many as their files together |
| HexChess.ValidPositionCount | frontend/games/hexagon-chess/hexagon-chess.js:27-43 | the board has 77 squares |
| HexChess.GetCellColor | frontend/games/hexagon-chess/hexagon-chess.js:212-227 | the fill is the one the switch picks for the file's place in its rank's row plus the rank, modulo 3 |
| HexChess.ShadeAt | frontend/games/hexagon-chess/hexagon-chess.js:212-227 | the square at place j of a rank gets the fill for j plus the rank, modulo 3 |
| HexChess.ShadeCycle | frontend/games/hexagon-chess/hexagon-chess.js:212-227 | along a row the three fills cycle with period three: consecutive places differ, places three apart agree |
| HexChess.ShadesAlternate | frontend/games/hexagon-chess/hexagon-chess.js:212-227 | within a rank, neighbouring squares have different fills and a square has the fill of the square three files further on |
| HexChess.RowIndexOf | frontend/games/hexagon-chess/hexagon-chess.js:217-218 | indexOf finds each file of a rank at its own place in the row |
| HexChess.SetupSquaresDistinct | frontend/games/hexagon-chess/hexagon-chess.js:111-151 | no square of the setup table receives two pieces |
| HexChess.PlacedKeys | frontend/games/hexagon-chess/hexagon-chess.js:154-157 | after placing the first entries in order, the occupied squares are exactly those entries' squares |
| HexChess.PlacedValues | frontend/games/hexagon-chess/hexagon-chess.js:154-157 | with distinct squares, each placed entry's square holds that entry's piece |
| HexChess.PlacedCard | frontend/games/hexagon-chess/hexagon-chess.js:154-157 | with distinct squares, the board holds one piece per placed entry and, per colour, as many as that colour has entries |
| HexChess.BlackSetupOnBoard | frontend/games/hexagon-chess/hexagon-chess.js:112-130 | every black piece of the setup stands on a square of the row table |
| HexChess.WhiteSetupOnBoard | frontend/games/hexagon-chess/hexagon-chess.js:132-150 | every white piece of the setup stands on a square of the row table |
| HexChess.SetupPieces | frontend/games/hexagon-chess/hexagon-chess.js:111-151 | the first eighteen entries are black, the last eighteen white, and only f11 and f5 hold kings |
| HexChess.SideCounts | frontend/games/hexagon-chess/hexagon-chess.js:111-151 | the first n entries hold min(n, 18) black pieces and max(0, n - 18) white ones |
| HexChess.StartCounts | frontend/games/hexagon-chess/hexagon-chess.js:106-158 | the start position holds 36 pieces, 18 of each colour |
| HexChess.StartOnBoard | frontend/games/hexagon-chess/hexagon-chess.js:106-162 | every piece of the start position stands on a valid position |
| HexChess.StartKings | frontend/games/hexagon-chess/hexagon-chess.js:106-158 | the white king starts on f5, the black king on f11, and no other square holds a king |
| HexChess.NoPossibleMoves | frontend/games/hexagon-chess/hexagon-chess.js:389-443 | with every move generator a stub, no square ever has a possible move |
| HexChess.HexGame.constructor | frontend/games/hexagon-chess/hexagon-chess.js:14-71 | the start position, white to move, nothing selected and no stored moves |
| HexChess.HexGame.InitializeBoard | frontend/games/hexagon-chess/hexagon-chess.js:106-158 | the board becomes the start position and nothing else changes |
| HexChess.HexGame.HandleClick | frontend/games/hexagon-chess/hexagon-chess.js:349-379 | with a selection, a click on a stored target moves the selected piece there, empties its square and passes the turn; the selection and stored moves are dropped either way; without a selection only a piece of the player to move is selected, with its generated moves |
| HexChess.GetPossibleMoves | frontend/games/hexagon-chess/hexagon-chess.js:389-410 | returns the moves the generator of the piece's kind gives, and none for an empty square |
| JsText.Digits | frontend/games/hexagon-chess/hexagon-chess.js:103 | a non-empty run of decimal digits with no leading zero |
| JsText.NumberToString | frontend/games/hexagon-chess/hexagon-chess.js:103 | a written number is never empty |
| JsText.DigitRun | frontend/games/hexagon-chess/hexagon-chess.js:94 | the length of the leading run of digits: everything before it is a digit and the character after it is not |
| JsText.IndexOf | frontend/games/hexagon-chess/hexagon-chess.js:96 | -1 exactly when the value is absent; otherwise an index holding the value |
| JsText.IndexOfFirst | frontend/games/hexagon-chess/hexagon-chess.js:96 | indexOf returns the first occurrence: no earlier index holds the value |
| JsText.IndexOfDistinct | frontend/games/hexagon-chess/hexagon-chess.js:96 | in a list without repeats, indexOf finds each entry at its own index |
| JsText.DigitsValueOf | frontend/games/hexagon-chess/hexagon-chess.js:94 | reading the digits of a natural number gives the number |
| JsText.ParseNumber | frontend/games/hexagon-chess/hexagon-chess.js:94 | parseInt reads back every integer that string concatenation writes, negative ones included |
| JsText.ParseStopsAtNonDigit | frontend/games/hexagon-chess/hexagon-chess.js:94 | parseInt stops at the first character that is not a digit |
| ChessBoards.MovedCells | torus-chess.js:295-296 | the move step leaves the moving piece on the target, empties the source and keeps every other square |
| ChessBoards.IsKingCaptured | torus-chess.js:1219-1234 | the scan with its found flag and early exits answers true exactly when no square holds the given king |
| ChessBoards.InitializeBoard | torus-chess.js:481-507 | white pawns on row 1 and black on row 6, the back ranks rook, knight, bishop, queen, king, bishop, knight, rook on rows 0 and 7, the middle empty |
| ChessBoards.StartLayoutKings | torus-chess.js:481-507 | in the start layout each side has a king, and its only king stands on column 4 of its back rank |
| TessMoves.WalkRay | torus-chess.js:1056-1073 | the eight-step walk with its break yields the ray: empty squares until the first occupied one, which is kept only when it holds an enemy |
| TessMoves.CollectRays | torus-chess.js:1055-1074 | the rays of all the piece's directions, in order |
| TessMoves.CollectJumps | torus-chess.js:1078-1098 | the open knight or king targets, in the order of the offsets |
| TessMoves.CollectPawn | torus-chess.js:1025-1050 | forward, double step and the two diagonal captures, in the source's order |
| TessMoves.CollectCaptures | torus-chess.js:1041-1049 | the diagonal targets that hold an enemy, in the order of the column offsets |
| TessMoves.CollectMoves | torus-chess.js:1024-1100 | the move list the switch on the piece type builds |
| TessMoves.RayShape | torus-chess.js:1056-1073 | a ray holds at most its step count of squares; all are board squares and empty, except possibly the last, which then holds an enemy |
| TessMoves.RaysOpen | torus-chess.js:1055-1074 | every square on the rays is a board square that is empty or holds an enemy |
| TessMoves.JumpsExactly | torus-chess.js:1078-1098 | a square is a knight or king target exactly when it is the normalised square of one of the offsets and it is empty or holds an enemy |
| TessMoves.PawnExactly | torus-chess.js:1025-1050 | a square is a pawn target exactly when it is the empty forward square, the double step from the starting row with both squares empty, or a forward diagonal holding an enemy |
| TessMoves.MovesOpen | torus-chess.js:995-1104 | every generated target is a board square that is empty or holds an enemy |
| TessMoves.OwnSquareNotTarget | torus-chess.js:995-1104 | no square holding a piece of the mover's side, the piece's own included, is ever a target |
| TorusChess.Normalize | torus-chess.js:1002-1006 | the result is a board square congruent to the input modulo 8 in both coordinates |
| TorusChess.NormalizePeriodic | torus-chess.js:1002-1006 | the torus has period 8 in both directions and every board square is its own normalisation |
| TorusChess.RayReturnsHome | torus-chess.js:1059-1073 | on the 8×8 torus the eighth step of every rook, bishop or queen ray lands back on the source square |
| TorusChess.NormalizeTotal | torus-chess.js:1002-1006 | the normalisation sends every tessellation coordinate to a board square |
| TorusChess.PawnDirection | torus-chess.js:1016 | +1 exactly for white and -1 for black |
| TorusChess.GetPossibleMoves | torus-chess.js:995-1104 | the targets of the piece standing on the square, none for an empty square |
| TorusChess.PossibleMovesOpen | torus-chess.js:995-1104 | only an occupied square has targets, and every target is a board square that is empty or holds a piece of the other colour |
| TorusChess.MoveStep | torus-chess.js:293-296 | a played target is a board square other than the source, empty or holding an enemy; the piece lands there, its square empties and nothing else changes |
| TorusChess.TorusGame.constructor | torus-chess.js:2-12 | the start layout, white to move, nothing selected, clicks accepted |
| TorusChess.TorusGame.ResetGame | torus-chess.js:968-981 | a fresh start layout, white to move, nothing selected, clicks accepted again |
| TorusChess.TorusGame.HandleClick | torus-chess.js:246-320 | an off-board click or one after the game ended changes nothing; a piece of the mover is selected with its generated targets; with a selection a generated target is played and the turn passes, unless the opponent's king is gone, which ends the game with the mover as winner; any other square drops the selection |
| TorusChess.TorusGame.HandleGameOver | torus-chess.js:1173-1182 | records the winner and stops accepting clicks, leaving the board and turn as they are |
| SphericalChess.Normalize | spherical-chess.js:921-935 | a board square whose column wraps modulo 8 and whose row is the mirror fold of period 16, the same fold as the shared topology helper's for an 8 by 8 board |
| SphericalChess.IsPositionReflected | spherical-chess.js:938-941 | true exactly when the row lies in the mirrored half of its period of 16 |
| SphericalChess.NormalizeSymmetries | spherical-chess.js:921-941 | reading a row through the mirror reaches the same square with the reflection flag turned over; a whole period changes nothing; board squares are fixed points and unreflected |
| SphericalChess.NormalizeTotal | spherical-chess.js:921-935 | the normalisation sends every tessellation coordinate to a board square |
| SphericalChess.LightSquareMirror | spherical-chess.js:944-949 | a square and its mirror image have the same shade, while neighbouring rows within one copy alternate |
| SphericalChess.RowsAlternate | spherical-chess.js:944-949 | inside the board's own copy, squares in neighbouring rows of the same column have different shades |
| SphericalChess.PawnDirection | spherical-chess.js:1007-1013 | 0 for pieces other than pawns; for a pawn its own direction, turned over exactly when the clicked copy is reflected |
| SphericalChess.GetPossibleMoves | spherical-chess.js:995-1148 | the targets of the piece on the square as generated in the clicked copy, none for an empty square |
| SphericalChess.PossibleMovesOpen | spherical-chess.js:995-1148 | only an occupied square has targets, and every target is a board square that is empty or holds a piece of the other colour |
| SphericalChess.InitializeSphericalBoard | spherical-chess.js:521-545 | black pawns with direction 1 on row 6, white pawns with direction -1 on row 1, the back ranks on rows 7 and 0, the middle empty |
| SphericalChess.StartPawnsBlocked | spherical-chess.js:524-527 | the start directions point each pawn at its own back rank, so in the unreflected copy no pawn has a move in the start position |
| SphericalChess.PawnRankBlocked | spherical-chess.js:1039-1082 | a pawn whose forward row is filled with its own pieces has no target |
| SphericalChess.SphericalGame.constructor | spherical-chess.js:2-12 | the start layout, white to move, nothing selected |
| SphericalChess.SphericalGame.ResetGame | spherical-chess.js:891-904 | the start layout, white to move, nothing selected |
| SphericalChess.SphericalGame.HandleClick | spherical-chess.js:236-341 | a piece of the mover is selected together with the clicked copy's reflection flag and its generated targets; with a selection a stored target is played as the move branch says, and the turn passes only after a completed move; any other click drops the selection |
| SphericalChess.SphericalGame.Select | spherical-chess.js:263-274 | the selection is stored with the targets generated for it; board and turn are kept |
| SphericalChess.SphericalGame.Deselect | spherical-chess.js:335-337 | the selection and the stored targets are dropped; board and turn are kept |
| SphericalChess.SphericalGame.MoveSelected | spherical-chess.js:280-332 | the board and outcome are those of the move branch; after a completed move the turn passes and the selection is cleared, otherwise turn and selection are kept |
| SphericalChess.PlayEffects | spherical-chess.js:280-326 | the move branch faults exactly when the selected square is empty; it stops for promotion only for a pawn reaching its promotion row, changing nothing but that pawn's direction, which is turned over exactly when the move crosses between a normal and a reflected copy; otherwise the same piece stands on the target, with a pawn's direction turned over in the same case, its square is empty, nothing else changes, and the game ends exactly when the opponent has no king left, with the mover as winner |
| SphericalChess.PlaySelected | spherical-chess.js:280-326 | computes the outcome and board of the move branch |
| SphericalChess.Turned | spherical-chess.js:290-301 | a crossing turns a pawn's direction over; kind and colour are kept, and the direction changes only for a pawn whose copy changes |
| SphericalChess.TurnedTwice | spherical-chess.js:290-301 | a pawn that crosses the seam and comes back keeps its original direction |
| ClassicChess.ClassicGame.constructor | chess.js:2-10 | the start layout, white to move, nothing selected |
| ClassicChess.ClassicGame.ResetGame | chess.js:996-1002 | the start layout, white to move, nothing selected |
| ClassicChess.ClassicGame.HandleClick | chess.js:343-361 | an off-board click changes nothing; a piece of the mover is selected; with a selection any other square receives the selected piece without a rule check, the source square empties and the turn passes |
| ClassicChess.UncheckedMove | chess.js:348-354 | the unchecked move takes the selected piece to any square not held by its own side, whatever the distance; the piece taken, if any, is an enemy; nothing else changes |
| JsMath.PosModIsMod | go.js:842-843 | the wrap idiom `((n % m) + m) % m`, with JavaScript's truncating remainder, computes the mathematical remainder and lands in 0 to m - 1 |
| Pieces.Color.Opponent | go.js:661-663 | the opposite colour differs from the given one |

## Left out

- Rendering of every kind is not modelled, because none of it affects the game state. This covers the canvas and DOM drawing, Three.js torus views, pan, zoom, sliding animation, piece images, popups, status text and `alert`.
- Converting cursor positions to board squares is not modelled. This covers `handleClick`'s screen arithmetic, `screenToHex` and `hexToScreen`, and `handleTorusClick`/`pointToTorusCoords`. Each click handler takes the resulting square (or tessellation coordinate) as its argument.
- The backend (backend/main.go, backend/db/db.go) is not part of this model: it stores data and holds no game rules.
- `setGame` and `init` in src/main.ts only choose which game to start. They are modelled by constructing a `ChessSession` or `GoSession`. `setGameMode` likewise becomes a new session with the given `Mode`, because it resets the game.
- TsGo.GoSession: the board shape is a constant of the session. The source reads the global `gameMode` on every call, but that global changes only through `setGameMode`, which also resets the game.
- The `isTopologicMode` flag of go.js and game.js is a parameter. The source only ever sets it to true.
- `goMoveHistory` in src/main.ts is recorded, but nothing in the source reads it. Only the simple-ko rule, which compares against `goPreviousBoardState`, is enforced.
- The spherical `promotePawn` and `handleGameOver` calls are stop points. `SphericalGame.HandleClick` returns an outcome that names them, and leaves the state exactly as the source leaves it before the call. The promotion dialog is not modelled.
- In spherical-chess.js the range check in `handleClick` always passes, because the square is already normalised. The model states this rather than branching on it.
- SphericalChess.PlayEffects: the Fault outcome models the TypeError the source raises when the selected square is empty; there is no recovery from it.
- JsText.ParseNumber: `parseInt`'s skipping of leading whitespace and its `0x` prefix are not modelled, because the strings it reads here always begin with a digit or a sign.
- GoGame.Game.ChangeBoardSize: requires a positive size. The source passes the value of a select element holding fixed sizes, so NaN and zero never reach it.
- HexChess.GetCellColor: requires a rank of 1 to 11. For any other rank the row lookup is undefined and the source throws a TypeError.
- GoEngine.RemoveDeadStones: the source removes dead stones one by one in row-major order, while countStonesToRemove counts them on the unchanged board. The two can disagree, and the counters then drift from the real stone counts. The model states both behaviours as written and does not claim that they agree.
- Numbers are unbounded integers; JavaScript's floating-point coordinates never leave the small integer range here.
