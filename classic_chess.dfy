/** chess.js: the flat 8 by 8 board.  A click on one of the mover's pieces
    selects it; a click anywhere else with a piece selected moves it there
    without any rule check, capturing whatever stood there, and passes the
    turn. */
module ClassicChess {
  import opened Util
  import opened Grid
  import opened Pieces
  import opened ChessBoards

  /** The game object's state: `board`, `currentPlayer`, `selectedPiece`. */
  class ClassicGame {
    var board: Board<Option<Piece>>
    var currentPlayer: Color
    var selectedPiece: Option<Cell>

    /** A selection is always a square holding one of the mover's pieces. */
    ghost predicate Valid()
      reads this
    {
      Is8(board) &&
      (selectedPiece.Some? ==>
        var s := selectedPiece.value;
        InRange(s, 8) && board[s.row][s.col].Some? && board[s.row][s.col].value.color == currentPlayer)
    }

    constructor ()
      ensures Valid() && IsStartLayout(board) && currentPlayer == White && selectedPiece == None
    {
      var start := InitializeBoard();
      board := start;
      currentPlayer := White;
      selectedPiece := None;
    }

    /** `resetGame`. */
    method ResetGame()
      modifies this
      ensures Valid() && IsStartLayout(board) && currentPlayer == White && selectedPiece == None
    {
      board := InitializeBoard();
      currentPlayer := White;
      selectedPiece := None;
    }

    /** The select/move branch of `handleClick` for board square (row, col). */
    method HandleClick(row: int, col: int)
      requires Valid()
      modifies this
      ensures Valid()
      ensures !InRange(Cell(row, col), 8) ==>
        board == old(board) && currentPlayer == old(currentPlayer) && selectedPiece == old(selectedPiece)
      ensures InRange(Cell(row, col), 8) && old(board)[row][col].Some? && old(board)[row][col].value.color == old(currentPlayer) ==>
        board == old(board) && currentPlayer == old(currentPlayer) && selectedPiece == Some(Cell(row, col))
      ensures InRange(Cell(row, col), 8) && !(old(board)[row][col].Some? && old(board)[row][col].value.color == old(currentPlayer)) ==>
        if old(selectedPiece).None? then
          board == old(board) && currentPlayer == old(currentPlayer) && selectedPiece == None
        else
          var from := old(selectedPiece).value;
          board == Moved(old(board), from, Cell(row, col), old(board)[from.row][from.col]) &&
          currentPlayer == old(currentPlayer).Opponent() && selectedPiece == None
    {
      if !(0 <= row < 8 && 0 <= col < 8) {
        return;
      }
      var piece := board[row][col];
      if piece.Some? && piece.value.color == currentPlayer {
        selectedPiece := Some(Cell(row, col));
      } else if selectedPiece.Some? {
        var from := selectedPiece.value;
        board := Moved(board, from, Cell(row, col), board[from.row][from.col]);
        MovedCells(old(board), from, Cell(row, col), old(board)[from.row][from.col]);
        currentPlayer := currentPlayer.Opponent();
        selectedPiece := None;
      }
    }
  }

  /** The unchecked move: the selected piece reaches any square not held by
      its own side, whatever the distance or the piece kind; the piece on
      the target, if any, is an enemy and is removed; no other square
      changes. */
  lemma UncheckedMove(b: Board<Option<Piece>>, from: Cell, to: Cell, mover: Color)
    requires Is8(b) && InRange(from, 8) && InRange(to, 8)
    requires b[from.row][from.col].Some? && b[from.row][from.col].value.color == mover
    requires !(b[to.row][to.col].Some? && b[to.row][to.col].value.color == mover)
    ensures from != to
    ensures var m := Moved(b, from, to, b[from.row][from.col]);
      Is8(m) && m[to.row][to.col] == b[from.row][from.col] && m[from.row][from.col] == None &&
      (b[to.row][to.col].Some? ==> b[to.row][to.col].value.color == mover.Opponent()) &&
      forall r, c :: 0 <= r < 8 && 0 <= c < 8 && Cell(r, c) != from && Cell(r, c) != to ==> m[r][c] == b[r][c]
  {
    MovedCells(b, from, to, b[from.row][from.col]);
  }
}
