/** torus-chess.js: chess on a flat torus.  Both coordinates wrap modulo 8,
    move generation walks in tessellation coordinates, and a click selects
    one of the mover's pieces or plays one of the selected piece's
    generated targets. */
module TorusChess {
  import opened Util
  import opened Grid
  import JsMath
  import opened Pieces
  import opened ChessBoards
  import opened TessMoves

  /** `normalizePosition`: both coordinates by `((x % 8) + 8) % 8`. */
  function Normalize(row: int, col: int): (c: Cell)
    ensures InRange(c, 8)
    ensures c == Cell(row % 8, col % 8)
  {
    JsMath.PosModIsMod(row, 8);
    JsMath.PosModIsMod(col, 8);
    Cell(JsMath.PosMod(row, 8), JsMath.PosMod(col, 8))
  }

  /** The torus has period 8 in both directions, and the board's own squares
      are fixed points of the normalisation. */
  lemma NormalizePeriodic(row: int, col: int, i: int, j: int)
    ensures Normalize(row + 8 * i, col + 8 * j) == Normalize(row, col)
    ensures 0 <= row < 8 && 0 <= col < 8 ==> Normalize(row, col) == Cell(row, col)
  {
    JsMath.ModShift(row, 8, i);
    JsMath.ModShift(col, 8, j);
    if 0 <= row < 8 && 0 <= col < 8 {
      JsMath.ModUnique(row, 8, 0, row);
      JsMath.ModUnique(col, 8, 0, col);
    }
  }

  /** Eight steps along any ray direction bring a piece back to its own
      square, so the last step of the eight-step walk meets the moving piece
      itself and the ray stops there. */
  lemma RayReturnsHome(row: int, col: int, i: int)
    requires 0 <= row < 8 && 0 <= col < 8 && 0 <= i < |QueenDirs|
    ensures Normalize(row + 8 * QueenDirs[i].0, col + 8 * QueenDirs[i].1) == Cell(row, col)
  {
    NormalizePeriodic(row, col, QueenDirs[i].0, QueenDirs[i].1);
  }

  lemma NormalizeTotal()
    ensures Normalizes(Normalize)
  {
  }

  function ColorOf(p: Piece): Color
  {
    p.color
  }

  /** `directions.pawn`: white pawns move toward higher rows, black toward lower. */
  function PawnDirection(c: Color): (d: int)
    ensures d == 1 || d == -1
    ensures (d == 1) <==> (c == White)
  {
    if c == White then 1 else -1
  }

  /** `getPossibleMoves(row, col)`: nothing for an empty square, otherwise
      the targets of the piece standing there. */
  function PossibleMoves(b: Board<Option<Piece>>, row: int, col: int): seq<Cell>
    requires Is8(b) && InRange(Cell(row, col), 8)
  {
    NormalizeTotal();
    match b[row][col]
    case None => []
    case Some(p) => Moves(b, ColorOf, Normalize, p.kind, p.color, row, col, PawnDirection(p.color))
  }

  method GetPossibleMoves(b: Board<Option<Piece>>, row: int, col: int) returns (moves: seq<Cell>)
    requires Is8(b) && InRange(Cell(row, col), 8)
    ensures moves == PossibleMoves(b, row, col)
  {
    NormalizeTotal();
    var piece := b[row][col];
    if piece == None {
      return [];
    }
    var p := piece.value;
    moves := CollectMoves(b, ColorOf, Normalize, p.kind, p.color, row, col, PawnDirection(p.color));
  }

  /** Every target is a board square that is empty or holds a piece of the
      other colour; in particular no piece may land on its own side. */
  lemma PossibleMovesOpen(b: Board<Option<Piece>>, row: int, col: int, m: Cell)
    requires Is8(b) && InRange(Cell(row, col), 8)
    requires m in PossibleMoves(b, row, col)
    ensures InRange(m, 8) && b[row][col].Some?
    ensures b[m.row][m.col] == None || b[m.row][m.col].value.color != b[row][col].value.color
  {
    NormalizeTotal();
    var p := b[row][col].value;
    MovesOpen(b, ColorOf, Normalize, p.kind, p.color, row, col, PawnDirection(p.color));
  }

  /** The game object's state (`board`, `currentPlayer`, `selectedPiece`,
      `possibleMoves`) and whether the canvas still takes clicks
      (the canvas style that disables clicks). */
  class TorusGame {
    var board: Board<Option<Piece>>
    var currentPlayer: Color
    var selectedPiece: Option<Cell>
    var possibleMoves: seq<Cell>
    var acceptsClicks: bool
    /** The colour announced by `handleGameOver`, if any. */
    var winner: Option<Color>

    /** While play goes on, a selection is one of the mover's pieces and the
        stored targets are that piece's current moves; without a selection
        there are none. */
    ghost predicate Valid()
      reads this
    {
      Is8(board) &&
      (selectedPiece.None? ==> possibleMoves == []) &&
      (selectedPiece.Some? ==> InRange(selectedPiece.value, 8)) &&
      (acceptsClicks ==> winner == None) &&
      (acceptsClicks && selectedPiece.Some? ==>
        var s := selectedPiece.value;
        board[s.row][s.col].Some? && board[s.row][s.col].value.color == currentPlayer &&
        possibleMoves == PossibleMoves(board, s.row, s.col))
    }

    /** The constructor's game state: the start layout, white to move. */
    constructor ()
      ensures Valid() && IsStartLayout(board) && currentPlayer == White
      ensures selectedPiece == None && possibleMoves == [] && acceptsClicks && winner == None
    {
      var start := InitializeBoard();
      board := start;
      currentPlayer := White;
      selectedPiece := None;
      possibleMoves := [];
      acceptsClicks := true;
      winner := None;
    }

    /** `resetGame`: a fresh start layout, white to move, clicks re-enabled. */
    method ResetGame()
      modifies this
      ensures Valid() && IsStartLayout(board) && currentPlayer == White
      ensures selectedPiece == None && possibleMoves == [] && acceptsClicks && winner == None
    {
      board := InitializeBoard();
      currentPlayer := White;
      selectedPiece := None;
      possibleMoves := [];
      acceptsClicks := true;
      winner := None;
    }

    /** The select/move branch of `handleClick` for the board square
        (row, col) under the cursor.  Off-board squares and clicks after the
        game is over change nothing. */
    method HandleClick(row: int, col: int)
      requires Valid()
      modifies this
      ensures Valid()
      ensures !old(acceptsClicks) || !InRange(Cell(row, col), 8) ==>
        board == old(board) && currentPlayer == old(currentPlayer) && selectedPiece == old(selectedPiece) &&
        possibleMoves == old(possibleMoves) && acceptsClicks == old(acceptsClicks) && winner == old(winner)
      // selecting one of the mover's pieces
      ensures old(acceptsClicks) && InRange(Cell(row, col), 8) &&
              old(board)[row][col].Some? && old(board)[row][col].value.color == old(currentPlayer) ==>
        board == old(board) && currentPlayer == old(currentPlayer) && acceptsClicks && winner == None &&
        selectedPiece == Some(Cell(row, col)) && possibleMoves == PossibleMoves(board, row, col)
      // a click elsewhere with a selection: play it if generated, else deselect
      ensures old(acceptsClicks) && InRange(Cell(row, col), 8) &&
              !(old(board)[row][col].Some? && old(board)[row][col].value.color == old(currentPlayer)) ==>
        if old(selectedPiece).None? then
          board == old(board) && currentPlayer == old(currentPlayer) && selectedPiece == None &&
          possibleMoves == [] && acceptsClicks && winner == None
        else if Cell(row, col) !in old(possibleMoves) then
          board == old(board) && currentPlayer == old(currentPlayer) && selectedPiece == None &&
          possibleMoves == [] && acceptsClicks && winner == None
        else
          var from := old(selectedPiece).value;
          board == Moved(old(board), from, Cell(row, col), old(board)[from.row][from.col]) &&
          if HasKing(board, KingOf(old(currentPlayer).Opponent())) then
            currentPlayer == old(currentPlayer).Opponent() && selectedPiece == None &&
            possibleMoves == [] && acceptsClicks && winner == None
          else
            currentPlayer == old(currentPlayer) && selectedPiece == old(selectedPiece) &&
            possibleMoves == old(possibleMoves) && !acceptsClicks && winner == Some(old(currentPlayer))
    {
      if !acceptsClicks || !(0 <= row < 8 && 0 <= col < 8) {
        return;
      }
      var piece := board[row][col];
      if piece.Some? && piece.value.color == currentPlayer {
        selectedPiece := Some(Cell(row, col));
        possibleMoves := GetPossibleMoves(board, row, col);
      } else if selectedPiece.Some? {
        var target := Cell(row, col);
        if target in possibleMoves {
          var from := selectedPiece.value;
          MoveStep(board, from, target);
          board := Moved(board, from, target, board[from.row][from.col]);
          var captured := IsKingCaptured(board, KingOf(currentPlayer.Opponent()));
          if captured {
            HandleGameOver(currentPlayer);
            return;
          }
          currentPlayer := currentPlayer.Opponent();
          selectedPiece := None;
          possibleMoves := [];
        } else {
          selectedPiece := None;
          possibleMoves := [];
        }
      }
    }

    /** `handleGameOver(winner)`: announce the winner and stop taking clicks. */
    method HandleGameOver(w: Color)
      requires Is8(board) && winner == None
      requires selectedPiece.None? ==> possibleMoves == []
      requires selectedPiece.Some? ==> InRange(selectedPiece.value, 8)
      modifies this
      ensures Valid()
      ensures board == old(board) && currentPlayer == old(currentPlayer) && selectedPiece == old(selectedPiece)
      ensures possibleMoves == old(possibleMoves) && !acceptsClicks && winner == Some(w)
    {
      acceptsClicks := false;
      winner := Some(w);
    }
  }

  /** The move step of a click: the selected piece lands on the target, its
      square empties, nothing else changes, and the piece taken (if any) was
      an enemy. */
  lemma MoveStep(b: Board<Option<Piece>>, from: Cell, to: Cell)
    requires Is8(b) && InRange(from, 8)
    requires b[from.row][from.col].Some?
    requires to in PossibleMoves(b, from.row, from.col)
    ensures InRange(to, 8) && to != from
    ensures b[to.row][to.col] == None || b[to.row][to.col].value.color != b[from.row][from.col].value.color
    ensures var m := Moved(b, from, to, b[from.row][from.col]);
      Is8(m) && m[to.row][to.col] == b[from.row][from.col] && m[from.row][from.col] == None &&
      forall r, c :: 0 <= r < 8 && 0 <= c < 8 && Cell(r, c) != from && Cell(r, c) != to ==> m[r][c] == b[r][c]
  {
    PossibleMovesOpen(b, from.row, from.col, to);
    MovedCells(b, from, to, b[from.row][from.col]);
  }
}
