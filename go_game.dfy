/** The game objects of go.js and game.js: a board of `boardSize` points,
    the player to move, the pass count and the two stone counters.  The two
    files differ only in what the second consecutive pass does. */
module GoGame {
  import opened Util
  import opened Grid
  import opened Pieces
  import opened GoEngine

  /** Which file's `pass` is in force: go.js announces a winner, game.js
      alerts and starts over. */
  datatype Rules = GoJs | GameJs

  /** The three messages of `showGameOver`. */
  datatype Verdict = BlackWins | WhiteWins | Tie

  /** What a pass led to. */
  datatype PassOutcome = Passed | GameOver(verdict: Verdict) | GameOverReset

  /** `showGameOver`: the side with more stones on its counter wins. */
  function Winner(blackStones: int, whiteStones: int): (v: Verdict)
    ensures v == BlackWins <==> blackStones > whiteStones
    ensures v == WhiteWins <==> whiteStones > blackStones
    ensures v == Tie <==> blackStones == whiteStones
  {
    if blackStones > whiteStones then BlackWins
    else if whiteStones > blackStones then WhiteWins
    else Tie
  }

  /** Swapping the counters swaps the winner. */
  lemma WinnerSwap(blackStones: int, whiteStones: int)
    ensures Winner(whiteStones, blackStones) ==
      match Winner(blackStones, whiteStones)
      case BlackWins => WhiteWins
      case WhiteWins => BlackWins
      case Tie => Tie
  {
  }

  /** The stone of `mover` put on point `t`, nothing else changed. */
  function Place(b: GoBoard, size: nat, t: Cell, mover: Color): (placed: GoBoard)
    requires WellFormed(b, size) && InRange(t, size)
    ensures WellFormed(placed, size) && placed[t.row][t.col] == Some(mover)
    ensures forall r, c :: 0 <= r < size && 0 <= c < size && Cell(r, c) != t ==> placed[r][c] == b[r][c]
  {
    PutCells(b, t, Some(mover));
    Put(b, t, Some(mover))
  }

  /** `makeMove` on values, from the wrapped point `t` on: the stone goes
      on `t`, the mover's counter goes up, the dead stones of both colours
      are counted on the board with the new stone, the opponent's dead
      stones and then the mover's are removed, and the counts are taken off
      the counters. */
  ghost function Play(b: GoBoard, size: nat, topologic: bool, mover: Color, t: Cell,
                      blackStones: int, whiteStones: int): (GoBoard, int, int)
    requires WellFormed(b, size) && InRange(t, size)
  {
    var placed := Place(b, size, t, mover);
    var capturedBlack := CountRows(placed, size, topologic, Black, size);
    var capturedWhite := CountRows(placed, size, topologic, White, size);
    var cleared := ScanRows(placed, size, topologic, mover.Opponent(), size);
    (ScanRows(cleared, size, topologic, mover, size),
     blackStones + (if mover == Black then 1 else 0) - capturedBlack,
     whiteStones + (if mover == White then 1 else 0) - capturedWhite)
  }

  /** The steps of `makeMove` that change the board and the counters. */
  method PlayMove(b: GoBoard, size: nat, topologic: bool, mover: Color, t: Cell,
                  blackStones: int, whiteStones: int)
    returns (b': GoBoard, black': int, white': int)
    requires WellFormed(b, size) && InRange(t, size)
    ensures (b', black', white') == Play(b, size, topologic, mover, t, blackStones, whiteStones)
    ensures WellFormed(b', size)
  {
    b' := Place(b, size, t, mover);
    black', white' := blackStones, whiteStones;
    if mover == Black {
      black' := black' + 1;
    } else {
      white' := white' + 1;
    }
    var capturedBlack := CountStonesToRemove(b', size, topologic, Black);
    var capturedWhite := CountStonesToRemove(b', size, topologic, White);
    b' := RemoveDeadStones(b', size, topologic, mover.Opponent());
    b' := RemoveDeadStones(b', size, topologic, mover);
    black' := black' - capturedBlack;
    white' := white' - capturedWhite;
  }

  /** A move only ever adds the mover's stone on the played point: every
      other point keeps its content or loses its stone, and the played point
      ends with the mover's stone or (when it was captured at once) empty. */
  lemma PlayOnlyPlaces(b: GoBoard, size: nat, topologic: bool, mover: Color, t: Cell,
                       blackStones: int, whiteStones: int)
    requires WellFormed(b, size) && InRange(t, size)
    ensures var after := Play(b, size, topologic, mover, t, blackStones, whiteStones).0;
      WellFormed(after, size) &&
      (after[t.row][t.col] == Some(mover) || after[t.row][t.col] == None) &&
      forall r, c :: 0 <= r < size && 0 <= c < size && Cell(r, c) != t ==>
        after[r][c] == b[r][c] || after[r][c] == None
  {
    var placed := Place(b, size, t, mover);
    var cleared := ScanRows(placed, size, topologic, mover.Opponent(), size);
    ScanRowsOnlyClears(placed, size, topologic, mover.Opponent(), size);
    ScanRowsOnlyClears(cleared, size, topologic, mover, size);
  }

  /** A move that kills nothing just adds the stone: the board gains the
      mover's stone on the played point and the mover's counter goes up by
      one. */
  lemma QuietMove(b: GoBoard, size: nat, topologic: bool, mover: Color, t: Cell,
                  blackStones: int, whiteStones: int)
    requires WellFormed(b, size) && InRange(t, size)
    requires NoneDead(Place(b, size, t, mover), size, topologic, Black)
    requires NoneDead(Place(b, size, t, mover), size, topologic, White)
    ensures Play(b, size, topologic, mover, t, blackStones, whiteStones) ==
      (Place(b, size, t, mover),
       blackStones + (if mover == Black then 1 else 0),
       whiteStones + (if mover == White then 1 else 0))
  {
    var placed := Place(b, size, t, mover);
    QuietScan(placed, size, topologic, mover);
    CountZero(placed, size, topologic, Black);
    CountZero(placed, size, topologic, White);
    var p := Play(b, size, topologic, mover, t, blackStones, whiteStones);
    assert p.0 == placed;
    assert p.1 == blackStones + (if mover == Black then 1 else 0);
    assert p.2 == whiteStones + (if mover == White then 1 else 0);
  }

  lemma QuietScan(placed: GoBoard, size: nat, topologic: bool, mover: Color)
    requires WellFormed(placed, size)
    requires NoneDead(placed, size, topologic, Black) && NoneDead(placed, size, topologic, White)
    ensures ScanRows(ScanRows(placed, size, topologic, mover.Opponent(), size), size, topologic, mover, size) == placed
  {
    NoDeadNoRemoval(placed, size, topologic, mover.Opponent(), size);
    NoDeadNoRemoval(placed, size, topologic, mover, size);
  }

  /** The state of a `GoGame` object. */
  class Game {
    const rules: Rules
    var board: GoBoard
    var boardSize: nat
    /** `isTopologicMode`: set by the constructor and never changed. */
    const topologic: bool
    var currentPlayer: Color
    var passes: nat
    var blackStones: int
    var whiteStones: int

    ghost predicate Valid()
      reads this
    {
      WellFormed(board, boardSize)
    }

    /** The constructor: a 19 by 19 empty board in topologic mode, black to
        play, nothing counted. */
    constructor (rules: Rules)
      ensures Valid() && this.rules == rules && topologic
      ensures boardSize == 19 && board == Filled(19, None)
      ensures currentPlayer == Black && passes == 0 && blackStones == 0 && whiteStones == 0
    {
      this.rules := rules;
      topologic := true;
      boardSize := 19;
      board := Filled(19, None);
      currentPlayer := Black;
      passes := 0;
      blackStones := 0;
      whiteStones := 0;
    }

    /** `resetGame`: an empty board of the current size, black to play. */
    method ResetGame()
      requires boardSize > 0
      modifies this
      ensures Valid() && boardSize == old(boardSize) && board == Filled(boardSize, None)
      ensures currentPlayer == Black && passes == 0 && blackStones == 0 && whiteStones == 0
    {
      board := Filled(boardSize, None);
      currentPlayer := Black;
      passes := 0;
      blackStones := 0;
      whiteStones := 0;
    }

    /** The game-state part of `changeBoardSize(newSize)`: the new size and a
        fresh game on it. */
    method ChangeBoardSize(newSize: nat)
      requires newSize > 0
      modifies this
      ensures Valid() && boardSize == newSize && board == Filled(newSize, None)
      ensures currentPlayer == Black && passes == 0 && blackStones == 0 && whiteStones == 0
    {
      boardSize := newSize;
      ResetGame();
    }

    /** `makeMove(row, col)`: the stone, the captures and the counters as
        `Play` says, the pass count cleared and the turn passed on. */
    method MakeMove(row: int, col: int)
      requires Valid() && InRange(TorusCoords(row, col, boardSize, topologic), boardSize)
      modifies this
      ensures Valid() && boardSize == old(boardSize)
      ensures (board, blackStones, whiteStones) ==
        Play(old(board), boardSize, topologic, old(currentPlayer), TorusCoords(row, col, boardSize, topologic),
             old(blackStones), old(whiteStones))
      ensures currentPlayer == old(currentPlayer).Opponent() && passes == 0
    {
      var t := TorusCoords(row, col, boardSize, topologic);
      var b, black, white := PlayMove(board, boardSize, topologic, currentPlayer, t, blackStones, whiteStones);
      board, blackStones, whiteStones := b, black, white;
      passes := 0;
      currentPlayer := currentPlayer.Opponent();
    }

    /** The end of `handleClick`: the point under the cursor is played when
        `isValidMove` accepts it and the click is ignored otherwise. */
    method HandleClick(row: int, col: int)
      requires Valid()
      modifies this
      ensures Valid() && boardSize == old(boardSize)
      ensures IsValidMove(old(board), boardSize, topologic, row, col) ==>
        (board, blackStones, whiteStones) ==
          Play(old(board), boardSize, topologic, old(currentPlayer), TorusCoords(row, col, boardSize, topologic),
             old(blackStones), old(whiteStones)) &&
        currentPlayer == old(currentPlayer).Opponent() && passes == 0
      ensures !IsValidMove(old(board), boardSize, topologic, row, col) ==>
        board == old(board) && currentPlayer == old(currentPlayer) && passes == old(passes) &&
        blackStones == old(blackStones) && whiteStones == old(whiteStones)
    {
      var t := TorusCoords(row, col, boardSize, topologic);
      if InRange(t, boardSize) && board[t.row][t.col] == None {
        MakeMove(row, col);
      }
    }

    /** `pass`: the pass count goes up; exactly at two the game is over
        (go.js shows the verdict and leaves the state as it is, game.js
        starts a new game), otherwise the turn passes on. */
    method Pass() returns (outcome: PassOutcome)
      requires Valid()
      modifies this
      ensures Valid() && boardSize == old(boardSize)
      ensures old(passes) + 1 != 2 ==>
        outcome == Passed && passes == old(passes) + 1 && currentPlayer == old(currentPlayer).Opponent() &&
        board == old(board) && blackStones == old(blackStones) && whiteStones == old(whiteStones)
      ensures old(passes) + 1 == 2 && rules == GoJs ==>
        outcome == GameOver(Winner(old(blackStones), old(whiteStones))) && passes == 2 &&
        currentPlayer == old(currentPlayer) &&
        board == old(board) && blackStones == old(blackStones) && whiteStones == old(whiteStones)
      ensures old(passes) + 1 == 2 && rules == GameJs ==>
        outcome == GameOverReset && board == Filled(boardSize, None) &&
        currentPlayer == Black && passes == 0 && blackStones == 0 && whiteStones == 0
    {
      passes := passes + 1;
      if passes == 2 {
        if rules == GoJs {
          outcome := GameOver(Winner(blackStones, whiteStones));
        } else {
          ResetGame();
          outcome := GameOverReset;
        }
        return;
      }
      currentPlayer := currentPlayer.Opponent();
      outcome := Passed;
    }
  }
}
