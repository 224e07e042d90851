/** spherical-chess.js: chess on a board whose columns wrap modulo 8 and
    whose rows continue into a mirrored copy (rows 8..15 read rows 7..0
    backwards), repeated with period 16.  Pawns carry their own direction,
    which turns over whenever a pawn crosses between a normal and a
    reflected copy. */
module SphericalChess {
  import opened Util
  import opened Grid
  import JsMath
  import opened Pieces
  import opened ChessBoards
  import opened TessMoves
  import TsTopology

  /** A piece `{ type, color, direction }`; only pawns carry a direction
      (the others carry 0 here, which is never read). */
  datatype SPiece = SPiece(kind: Kind, color: Color, direction: int)

  function ColorOf(p: SPiece): Color
  {
    p.color
  }

  /** `normalizePosition`: the column by `((col % 8) + 8) % 8`, the row by
      `((row % 16) + 16) % 16`, folded back with `15 - r` from 8 on.  It is
      the fold of `wrapMirror` in src/main.ts for an 8 by 8 board. */
  function Normalize(row: int, col: int): (c: Cell)
    ensures InRange(c, 8)
    ensures c.row == TsTopology.FoldRow(row, 8) && c.col == TsTopology.Wrap(col, 8)
  {
    JsMath.PosModIsMod(row, 16);
    JsMath.PosModIsMod(col, 8);
    var r := JsMath.PosMod(row, 16);
    Cell(if r >= 8 then 15 - r else r, JsMath.PosMod(col, 8))
  }

  /** `isPositionReflected`: the row lies in the mirrored half of its period. */
  function IsPositionReflected(row: int, col: int): (reflected: bool)
    ensures reflected == TsTopology.Reflected(row, 8)
  {
    JsMath.PosModIsMod(row, 16);
    JsMath.PosMod(row, 16) >= 8
  }

  /** Reading a row through the mirror (`15 - row`) reaches the same square
      with the reflection flag turned over; moving a whole period (16 rows,
      8 columns) changes nothing; the board's own squares are fixed points. */
  lemma NormalizeSymmetries(row: int, col: int, k: int, j: int)
    ensures Normalize(15 - row, col) == Normalize(row, col)
    ensures IsPositionReflected(15 - row, col) == !IsPositionReflected(row, col)
    ensures Normalize(row + 16 * k, col + 8 * j) == Normalize(row, col)
    ensures IsPositionReflected(row + 16 * k, col) == IsPositionReflected(row, col)
    ensures 0 <= row < 8 && 0 <= col < 8 ==> Normalize(row, col) == Cell(row, col) && !IsPositionReflected(row, col)
  {
    TsTopology.ReflectStep(row, 8, 15 - row);
    JsMath.ModShift(row, 16, k);
    JsMath.ModShift(col, 8, j);
    if 0 <= row < 8 && 0 <= col < 8 {
      TsTopology.InRangeUnfolded(row, 8);
      JsMath.ModUnique(col, 8, 0, col);
    }
  }

  lemma NormalizeTotal()
    ensures Normalizes(Normalize)
  {
  }

  /** `isLightSquare`: the colour of the real square a tessellation
      coordinate shows. */
  function IsLightSquare(tessRow: int, tessCol: int): bool
  {
    var c := Normalize(tessRow, tessCol);
    (c.row + c.col) % 2 == 0
  }

  /** A square and its mirror image have the same colour (so across the seam
      between rows 7 and 8 = 15 - 7 the pattern repeats a row), while inside
      one copy neighbouring rows alternate. */
  lemma LightSquareMirror(tessRow: int, tessCol: int)
    ensures IsLightSquare(15 - tessRow, tessCol) == IsLightSquare(tessRow, tessCol)
    ensures 0 <= tessRow < 7 ==> IsLightSquare(tessRow + 1, tessCol) != IsLightSquare(tessRow, tessCol)
  {
    var here := Normalize(tessRow, tessCol);
    assert Normalize(15 - tessRow, tessCol) == here by {
      NormalizeSymmetries(tessRow, tessCol, 0, 0);
    }
    if 0 <= tessRow < 7 {
      RowsAlternate(tessRow, tessCol);
    }
  }

  /** Inside the board's own copy, moving one row down flips the shade. */
  lemma RowsAlternate(row: int, col: int)
    requires 0 <= row < 7
    ensures IsLightSquare(row + 1, col) != IsLightSquare(row, col)
  {
    var here, next := Normalize(row, col), Normalize(row + 1, col);
    TsTopology.InRangeUnfolded(row, 8);
    TsTopology.InRangeUnfolded(row + 1, 8);
    assert here.row == row && next.row == row + 1 && next.col == here.col;
    ParityStep(here.row + here.col);
  }

  lemma ParityStep(n: int)
    ensures ((n + 1) % 2 == 0) == (n % 2 != 0)
  {
    JsMath.ModUnique(n, 2, n / 2, n % 2);
    if n % 2 == 0 {
      JsMath.ModUnique(n + 1, 2, n / 2, 1);
    } else {
      JsMath.ModUnique(n + 1, 2, n / 2 + 1, 0);
    }
  }

  /** The direction getPossibleMoves uses: the pawn's own, turned over when
      the clicked copy is reflected; 0 for the other pieces. */
  function PawnDirection(p: SPiece, isReflected: bool): (d: int)
    ensures p.kind != Pawn ==> d == 0
    ensures p.kind == Pawn ==> d == p.direction || d == -p.direction
    ensures p.kind == Pawn && p.direction != 0 ==> (d == p.direction <==> !isReflected)
  {
    if p.kind != Pawn then 0 else if isReflected then -p.direction else p.direction
  }

  /** `getPossibleMoves(row, col, isReflected)`. */
  function PossibleMoves(b: Board<Option<SPiece>>, row: int, col: int, isReflected: bool): seq<Cell>
    requires Is8(b) && InRange(Cell(row, col), 8)
  {
    NormalizeTotal();
    match b[row][col]
    case None => []
    case Some(p) => Moves(b, ColorOf, Normalize, p.kind, p.color, row, col, PawnDirection(p, isReflected))
  }

  method GetPossibleMoves(b: Board<Option<SPiece>>, row: int, col: int, isReflected: bool) returns (moves: seq<Cell>)
    requires Is8(b) && InRange(Cell(row, col), 8)
    ensures moves == PossibleMoves(b, row, col, isReflected)
  {
    NormalizeTotal();
    var piece := b[row][col];
    if piece == None {
      return [];
    }
    var p := piece.value;
    var dir := 0;
    if p.kind == Pawn {
      dir := p.direction;
      if isReflected {
        dir := -dir;
      }
    }
    assert dir == PawnDirection(p, isReflected);
    moves := CollectMoves(b, ColorOf, Normalize, p.kind, p.color, row, col, dir);
  }

  /** Every target is a board square that is empty or holds an enemy piece. */
  lemma PossibleMovesOpen(b: Board<Option<SPiece>>, row: int, col: int, isReflected: bool, m: Cell)
    requires Is8(b) && InRange(Cell(row, col), 8)
    requires m in PossibleMoves(b, row, col, isReflected)
    ensures InRange(m, 8) && b[row][col].Some?
    ensures b[m.row][m.col] == None || b[m.row][m.col].value.color != b[row][col].value.color
  {
    NormalizeTotal();
    var p := b[row][col].value;
    MovesOpen(b, ColorOf, Normalize, p.kind, p.color, row, col, PawnDirection(p, isReflected));
  }

  /** The start layout of this file: black pawns (direction 1) on row 6,
      white pawns (direction -1) on row 1, the back ranks on rows 7 and 0. */
  ghost predicate IsStart(b: Board<Option<SPiece>>)
  {
    Is8(b) &&
    (forall c :: 0 <= c < 8 ==>
      b[0][c] == Some(SPiece(BackRank(c), White, 0)) && b[1][c] == Some(SPiece(Pawn, White, -1)) &&
      b[6][c] == Some(SPiece(Pawn, Black, 1)) && b[7][c] == Some(SPiece(BackRank(c), Black, 0))) &&
    (forall r, c :: 2 <= r < 6 && 0 <= c < 8 ==> b[r][c] == None)
  }

  /** `initializeBoard`: the pawn rows first, then the back ranks. */
  method InitializeSphericalBoard() returns (b: Board<Option<SPiece>>)
    ensures IsStart(b)
  {
    b := Filled(8, None);
    for i := 0 to 8
      invariant Is8(b)
      invariant forall c :: 0 <= c < 8 ==> b[6][c] == (if c < i then Some(SPiece(Pawn, Black, 1)) else None)
      invariant forall c :: 0 <= c < 8 ==> b[1][c] == (if c < i then Some(SPiece(Pawn, White, -1)) else None)
      invariant forall r, c :: 0 <= r < 8 && r != 1 && r != 6 && 0 <= c < 8 ==> b[r][c] == None
    {
      b := b[6 := b[6][i := Some(SPiece(Pawn, Black, 1))]];
      b := b[1 := b[1][i := Some(SPiece(Pawn, White, -1))]];
    }
    for i := 0 to 8
      invariant Is8(b)
      invariant forall c :: 0 <= c < 8 ==> b[1][c] == Some(SPiece(Pawn, White, -1)) && b[6][c] == Some(SPiece(Pawn, Black, 1))
      invariant forall c :: 0 <= c < 8 ==> b[7][c] == (if c < i then Some(SPiece(BackRank(c), Black, 0)) else None)
      invariant forall c :: 0 <= c < 8 ==> b[0][c] == (if c < i then Some(SPiece(BackRank(c), White, 0)) else None)
      invariant forall r, c :: 2 <= r < 6 && 0 <= c < 8 ==> b[r][c] == None
    {
      b := b[7 := b[7][i := Some(SPiece(BackRank(i), Black, 0))]];
      b := b[0 := b[0][i := Some(SPiece(BackRank(i), White, 0))]];
    }
  }

  /** The start directions point each pawn at its own back rank: seen from
      the board's own (unreflected) copy no pawn has a move in the start
      position. */
  lemma StartPawnsBlocked(b: Board<Option<SPiece>>, c: int)
    requires IsStart(b) && 0 <= c < 8
    ensures PossibleMoves(b, 1, c, false) == []
    ensures PossibleMoves(b, 6, c, false) == []
  {
    var white, black := PossibleMoves(b, 1, c, false), PossibleMoves(b, 6, c, false);
    if white != [] {
      PawnRankBlocked(b, 1, c, -1, White, 0, white[0]);
      assert false;
    }
    if black != [] {
      PawnRankBlocked(b, 6, c, 1, Black, 7, black[0]);
      assert false;
    }
  }

  /** A pawn whose forward row is filled with its own pieces has no target. */
  lemma PawnRankBlocked(b: Board<Option<SPiece>>, row: int, col: int, dir: int, me: Color, ahead: int, m: Cell)
    requires Is8(b) && 0 <= row < 8 && 0 <= col < 8 && 0 <= ahead < 8 && row + dir == ahead
    requires b[row][col] == Some(SPiece(Pawn, me, dir))
    requires forall c :: 0 <= c < 8 ==> b[ahead][c].Some? && b[ahead][c].value.color == me
    ensures m !in PossibleMoves(b, row, col, false)
  {
    NormalizeTotal();
    PawnExactly(b, ColorOf, Normalize, me, row, col, dir, m);
    NormalizeSymmetries(ahead, col, 0, 0);
    assert Normalize(ahead, col - 1).row == ahead by { NormalizeSymmetries(ahead, 0, 0, 0); }
    assert Normalize(ahead, col + 1).row == ahead by { NormalizeSymmetries(ahead, 0, 0, 0); }
  }

  /** `selectedPiece`: the real square, the clicked tessellation coordinate
      and whether that copy is reflected. */
  datatype Selection = Selection(row: int, col: int, tessRow: int, tessCol: int, isReflected: bool)

  /** How a click ended: normally, at the promotion call, at the game-over
      call, or with a run-time error on an emptied selected square. */
  datatype Outcome = Continue | Promotion(square: Cell) | KingCaptured(winner: Color) | Fault

  /** The game object's state. */
  class SphericalGame {
    var board: Board<Option<SPiece>>
    var currentPlayer: Color
    var selectedPiece: Option<Selection>
    var possibleMoves: seq<Cell>

    /** A selection names a real square and the copy it was clicked in;
        without a selection there are no stored targets. */
    ghost predicate Valid()
      reads this
    {
      Is8(board) &&
      (selectedPiece.None? ==> possibleMoves == []) &&
      (selectedPiece.Some? ==>
        var s := selectedPiece.value;
        Normalize(s.tessRow, s.tessCol) == Cell(s.row, s.col) &&
        s.isReflected == IsPositionReflected(s.tessRow, s.tessCol))
    }

    constructor ()
      ensures Valid() && IsStart(board) && currentPlayer == White
      ensures selectedPiece == None && possibleMoves == []
    {
      var start := InitializeSphericalBoard();
      board := start;
      currentPlayer := White;
      selectedPiece := None;
      possibleMoves := [];
    }

    /** `resetGame`. */
    method ResetGame()
      modifies this
      ensures Valid() && IsStart(board) && currentPlayer == White
      ensures selectedPiece == None && possibleMoves == []
    {
      board := InitializeSphericalBoard();
      currentPlayer := White;
      selectedPiece := None;
      possibleMoves := [];
    }

    /** The select/move branch of `handleClick` for the tessellation
        coordinate (actualRow, actualCol).  The normalised square is always
        on the board, so the source's range check always passes. */
    method HandleClick(actualRow: int, actualCol: int) returns (outcome: Outcome)
      requires Valid()
      modifies this
      ensures Valid()
      // selecting one of the mover's pieces, in the clicked copy
      ensures var sq := Normalize(actualRow, actualCol);
        old(board)[sq.row][sq.col].Some? && old(board)[sq.row][sq.col].value.color == old(currentPlayer) ==>
          outcome == Continue && board == old(board) && currentPlayer == old(currentPlayer) &&
          selectedPiece == Some(Selection(sq.row, sq.col, actualRow, actualCol, IsPositionReflected(actualRow, actualCol))) &&
          possibleMoves == PossibleMoves(board, sq.row, sq.col, IsPositionReflected(actualRow, actualCol))
      // no selection, or a square that is not a stored target: deselect
      ensures var sq := Normalize(actualRow, actualCol);
        !(old(board)[sq.row][sq.col].Some? && old(board)[sq.row][sq.col].value.color == old(currentPlayer)) &&
        (old(selectedPiece).None? || sq !in old(possibleMoves)) ==>
          outcome == Continue && board == old(board) && currentPlayer == old(currentPlayer) &&
          selectedPiece == None && possibleMoves == []
      // a stored target: the move, possibly stopped at promotion or game over
      ensures var sq := Normalize(actualRow, actualCol);
        !(old(board)[sq.row][sq.col].Some? && old(board)[sq.row][sq.col].value.color == old(currentPlayer)) &&
        old(selectedPiece).Some? && sq in old(possibleMoves) ==>
          (outcome, board) == Play(old(board), old(selectedPiece).value, sq, IsPositionReflected(actualRow, actualCol), old(currentPlayer)) &&
          if outcome == Continue then
            currentPlayer == old(currentPlayer).Opponent() && selectedPiece == None && possibleMoves == []
          else
            currentPlayer == old(currentPlayer) && selectedPiece == old(selectedPiece) && possibleMoves == old(possibleMoves)
    {
      var sq := Normalize(actualRow, actualCol);
      var isReflected := IsPositionReflected(actualRow, actualCol);
      outcome := Continue;
      var piece := board[sq.row][sq.col];
      if piece.Some? && piece.value.color == currentPlayer {
        Select(Selection(sq.row, sq.col, actualRow, actualCol, isReflected));
      } else if selectedPiece.Some? {
        if sq in possibleMoves {
          outcome := MoveSelected(sq, isReflected);
        } else {
          Deselect();
        }
      }
    }

    /** `selectedPiece = {...}; possibleMoves = getPossibleMoves(...)`. */
    method Select(s: Selection)
      requires Valid()
      requires Normalize(s.tessRow, s.tessCol) == Cell(s.row, s.col)
      requires s.isReflected == IsPositionReflected(s.tessRow, s.tessCol)
      modifies this
      ensures Valid() && board == old(board) && currentPlayer == old(currentPlayer)
      ensures selectedPiece == Some(s) && possibleMoves == PossibleMoves(board, s.row, s.col, s.isReflected)
    {
      selectedPiece := Some(s);
      possibleMoves := GetPossibleMoves(board, s.row, s.col, s.isReflected);
    }

    /** `selectedPiece = null; possibleMoves = []`. */
    method Deselect()
      requires Valid()
      modifies this
      ensures Valid() && board == old(board) && currentPlayer == old(currentPlayer)
      ensures selectedPiece == None && possibleMoves == []
    {
      selectedPiece := None;
      possibleMoves := [];
    }

    /** Playing the selected piece to `sq`; after a completed move the turn
        passes and the selection is cleared. */
    method MoveSelected(sq: Cell, nowReflected: bool) returns (outcome: Outcome)
      requires Valid() && selectedPiece.Some? && InRange(sq, 8)
      modifies this
      ensures Valid()
      ensures (outcome, board) == Play(old(board), old(selectedPiece).value, sq, nowReflected, old(currentPlayer))
      ensures if outcome == Continue then
          currentPlayer == old(currentPlayer).Opponent() && selectedPiece == None && possibleMoves == []
        else
          currentPlayer == old(currentPlayer) && selectedPiece == old(selectedPiece) && possibleMoves == old(possibleMoves)
    {
      var next;
      outcome, next := PlaySelected(board, selectedPiece.value, sq, nowReflected, currentPlayer);
      board := next;
      if outcome == Continue {
        currentPlayer := currentPlayer.Opponent();
        selectedPiece := None;
        possibleMoves := [];
      }
    }
  }

  /** The move branch of a click on target `sq` with selection `s`, the
      target copy being reflected or not: the outcome and the board after
      it.  An emptied selected square faults; a pawn first has its direction
      turned over where it stands if the move crosses the seam, then stops
      at the promotion call on its promotion row; otherwise the piece moves
      and the click ends the game if the opponent's king is gone. */
  ghost function Play(b: Board<Option<SPiece>>, s: Selection, sq: Cell, nowReflected: bool, mover: Color): (Outcome, Board<Option<SPiece>>)
    requires Is8(b) && InRange(Cell(s.row, s.col), 8) && InRange(sq, 8)
  {
    var from := Cell(s.row, s.col);
    var moving := b[s.row][s.col];
    if moving.None? then (Fault, b)
    else
      var p := Turned(moving.value, s.isReflected, nowReflected);
      var turned := if moving.value.kind == Pawn && s.isReflected != nowReflected then Put(b, from, Some(p)) else b;
      if p.kind == Pawn && PromotionRow(p.color, sq.row) then (Promotion(sq), turned)
      else
        var next := Moved(turned, from, sq, Some(p));
        (if HasKing(next, KingOfColor(mover.Opponent())) then Continue else KingCaptured(mover), next)
  }

  /** What each outcome of the move branch means: a fault exactly when the
      selected square is empty; a promotion stop only for a pawn on its
      promotion row, with the board unchanged but for that pawn's
      direction; otherwise the same piece (kind and colour) is on the
      target, its direction turned over exactly when a pawn crosses between
      a normal and a reflected copy, its square is empty, every other square is unchanged, and the
      game ends exactly when the opponent has no king left. */
  lemma PlayEffects(b: Board<Option<SPiece>>, s: Selection, sq: Cell, nowReflected: bool, mover: Color)
    requires Is8(b) && InRange(Cell(s.row, s.col), 8) && InRange(sq, 8) && Cell(s.row, s.col) != sq
    ensures var (outcome, next) := Play(b, s, sq, nowReflected, mover);
      var from := Cell(s.row, s.col);
      Is8(next) &&
      (outcome == Fault <==> b[s.row][s.col].None?) &&
      (outcome.Promotion? ==>
        outcome.square == sq && b[s.row][s.col].Some? && b[s.row][s.col].value.kind == Pawn &&
        PromotionRow(b[s.row][s.col].value.color, sq.row) &&
        next[s.row][s.col].Some? && next[s.row][s.col].value.kind == Pawn &&
        next[s.row][s.col].value.color == b[s.row][s.col].value.color &&
        next[s.row][s.col] == Some(Turned(b[s.row][s.col].value, s.isReflected, nowReflected)) &&
        forall r, c :: 0 <= r < 8 && 0 <= c < 8 && Cell(r, c) != from ==> next[r][c] == b[r][c]) &&
      ((outcome == Continue || outcome.KingCaptured?) ==>
        b[s.row][s.col].Some? && next[s.row][s.col] == None &&
        next[sq.row][sq.col].Some? && next[sq.row][sq.col].value.kind == b[s.row][s.col].value.kind &&
        next[sq.row][sq.col].value.color == b[s.row][s.col].value.color &&
        next[sq.row][sq.col] == Some(Turned(b[s.row][s.col].value, s.isReflected, nowReflected)) &&
        (forall r, c :: 0 <= r < 8 && 0 <= c < 8 && Cell(r, c) != from && Cell(r, c) != sq ==> next[r][c] == b[r][c]) &&
        (outcome == Continue <==> HasKing(next, KingOfColor(mover.Opponent()))) &&
        (outcome.KingCaptured? ==> outcome.winner == mover))
  {
    var from := Cell(s.row, s.col);
    var moving := b[s.row][s.col];
    if moving.Some? {
      var p := Turned(moving.value, s.isReflected, nowReflected);
      var turned := if moving.value.kind == Pawn && s.isReflected != nowReflected then Put(b, from, Some(p)) else b;
      PutCells(b, from, Some(p));
      assert Is8(turned);
      assert forall r, c :: 0 <= r < 8 && 0 <= c < 8 && Cell(r, c) != from ==> turned[r][c] == b[r][c];
      if !(p.kind == Pawn && PromotionRow(p.color, sq.row)) {
        MovedCells(turned, from, sq, Some(p));
      }
    }
  }

  /** The move branch of `handleClick`, on the board value. */
  method PlaySelected(b: Board<Option<SPiece>>, s: Selection, sq: Cell, nowReflected: bool, mover: Color)
    returns (outcome: Outcome, next: Board<Option<SPiece>>)
    requires Is8(b) && InRange(Cell(s.row, s.col), 8) && InRange(sq, 8)
    ensures (outcome, next) == Play(b, s, sq, nowReflected, mover)
  {
    var from := Cell(s.row, s.col);
    next := b;
    var moving := next[s.row][s.col];
    if moving.None? {
      // `movingPiece.type` on null
      return Fault, next;
    }
    var p := moving.value;
    if p.kind == Pawn {
      if s.isReflected != nowReflected {
        // the moving piece object is updated where it stands
        p := p.(direction := -p.direction);
        next := Put(next, from, Some(p));
      }
      if (p.color == White && sq.row == 7) || (p.color == Black && sq.row == 0) {
        return Promotion(sq), next;
      }
    }
    next := Moved(next, from, sq, Some(p));
    var captured := IsKingCaptured(next, KingOfColor(mover.Opponent()));
    outcome := if captured then KingCaptured(mover) else Continue;
  }

  /** The moving piece after the boundary check: a pawn whose move crosses
      between a normal and a reflected copy has its direction turned over. */
  function Turned(p: SPiece, wasReflected: bool, isNowReflected: bool): (q: SPiece)
    ensures q.kind == p.kind && q.color == p.color
    ensures q.direction == p.direction <==> (p.kind != Pawn || wasReflected == isNowReflected || p.direction == 0)
    ensures q.direction == p.direction || q.direction == -p.direction
  {
    if p.kind == Pawn && wasReflected != isNowReflected then p.(direction := -p.direction) else p
  }

  /** `piece.type === "king" && piece.color === color`. */
  function KingOfColor(color: Color): SPiece -> bool
  {
    (p: SPiece) => p.kind == King && p.color == color
  }

  /** White pawns promote on row 7, black pawns on row 0. */
  predicate PromotionRow(c: Color, row: int)
  {
    (c == White && row == 7) || (c == Black && row == 0)
  }

  /** Turning a pawn over twice restores it, so a pawn that crosses the seam
      and comes back keeps its original direction. */
  lemma TurnedTwice(p: SPiece, a: bool, b: bool)
    ensures Turned(Turned(p, a, b), b, a) == p
  {
  }
}
