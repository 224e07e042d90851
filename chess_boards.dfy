/** Helpers shared by the 8 by 8 chess files (chess.js, torus-chess.js and
    spherical-chess.js): the move step on the board array, the king scan
    and the common starting layout. */
module ChessBoards {
  import opened Util
  import opened Grid
  import opened Pieces

  /** An 8 by 8 board of optional pieces. */
  ghost predicate Is8<T>(b: Board<Option<T>>)
  {
    IsSquare(b, 8)
  }

  /** `board[to] = board[from]; board[from] = null`. */
  function Moved<T>(b: Board<Option<T>>, from: Cell, to: Cell, piece: Option<T>): (m: Board<Option<T>>)
    requires Is8(b) && InRange(from, 8) && InRange(to, 8)
  {
    Put(Put(b, to, piece), from, None)
  }

  /** The move step leaves `piece` on the target, empties the source and
      keeps every other square. */
  lemma MovedCells<T>(b: Board<Option<T>>, from: Cell, to: Cell, piece: Option<T>)
    requires Is8(b) && InRange(from, 8) && InRange(to, 8) && from != to
    ensures var m := Moved(b, from, to, piece);
      Is8(m) && At(m, to) == piece && At(m, from) == None &&
      forall r, c :: 0 <= r < 8 && 0 <= c < 8 && Cell(r, c) != from && Cell(r, c) != to ==> m[r][c] == b[r][c]
  {
    PutCells(b, to, piece);
    PutCells(Put(b, to, piece), from, None);
  }

  /** Some square holds a piece `isKing` accepts. */
  ghost predicate HasKing<T>(b: Board<Option<T>>, isKing: T -> bool)
    requires Is8(b)
  {
    exists r, c :: 0 <= r < 8 && 0 <= c < 8 && b[r][c].Some? && isKing(b[r][c].value)
  }

  /** `piece.type === "king" && piece.color === color`. */
  function KingOf(color: Color): Piece -> bool
  {
    p => p == Piece(King, color)
  }

  /** `isKingCaptured`: a row-by-row scan with a found flag and early exit. */
  method IsKingCaptured<T>(b: Board<Option<T>>, isKing: T -> bool) returns (captured: bool)
    requires Is8(b)
    ensures captured <==> !HasKing(b, isKing)
  {
    var kingFound := false;
    var row := 0;
    while row < 8
      invariant 0 <= row <= 8
      invariant !kingFound ==> forall r, c :: 0 <= r < row && 0 <= c < 8 ==> !(b[r][c].Some? && isKing(b[r][c].value))
      invariant kingFound ==> HasKing(b, isKing)
      decreases 8 - row
    {
      var col := 0;
      while col < 8
        invariant 0 <= col <= 8
        invariant !kingFound ==> forall c :: 0 <= c < col ==> !(b[row][c].Some? && isKing(b[row][c].value))
        invariant kingFound ==> HasKing(b, isKing)
        decreases 8 - col
      {
        var piece := b[row][col];
        if piece.Some? && isKing(piece.value) {
          kingFound := true;
          break;
        }
        col := col + 1;
      }
      if kingFound {
        break;
      }
      row := row + 1;
    }
    captured := !kingFound;
  }

  /** The starting position of chess.js and torus-chess.js: white on rows 0
      and 1, black on rows 6 and 7, the middle empty. */
  ghost predicate IsStartLayout(b: Board<Option<Piece>>)
  {
    Is8(b) &&
    (forall c :: 0 <= c < 8 ==>
      b[0][c] == Some(Piece(BackRank(c), White)) && b[1][c] == Some(Piece(Pawn, White)) &&
      b[6][c] == Some(Piece(Pawn, Black)) && b[7][c] == Some(Piece(BackRank(c), Black))) &&
    (forall r, c :: 2 <= r < 6 && 0 <= c < 8 ==> b[r][c] == None)
  }

  /** `initializeBoard` of chess.js and torus-chess.js: pawns first, then
      the back ranks. */
  method InitializeBoard() returns (b: Board<Option<Piece>>)
    ensures IsStartLayout(b)
  {
    b := Filled(8, None);
    for i := 0 to 8
      invariant Is8(b)
      invariant forall c :: 0 <= c < 8 ==> b[1][c] == (if c < i then Some(Piece(Pawn, White)) else None)
      invariant forall c :: 0 <= c < 8 ==> b[6][c] == (if c < i then Some(Piece(Pawn, Black)) else None)
      invariant forall r, c :: 0 <= r < 8 && r != 1 && r != 6 && 0 <= c < 8 ==> b[r][c] == None
    {
      b := b[1 := b[1][i := Some(Piece(Pawn, White))]];
      b := b[6 := b[6][i := Some(Piece(Pawn, Black))]];
    }
    for i := 0 to 8
      invariant Is8(b)
      invariant forall c :: 0 <= c < 8 ==> b[1][c] == Some(Piece(Pawn, White)) && b[6][c] == Some(Piece(Pawn, Black))
      invariant forall c :: 0 <= c < 8 ==> b[0][c] == (if c < i then Some(Piece(BackRank(c), White)) else None)
      invariant forall c :: 0 <= c < 8 ==> b[7][c] == (if c < i then Some(Piece(BackRank(c), Black)) else None)
      invariant forall r, c :: 2 <= r < 6 && 0 <= c < 8 ==> b[r][c] == None
    {
      b := b[0 := b[0][i := Some(Piece(BackRank(i), White))]];
      b := b[7 := b[7][i := Some(Piece(BackRank(i), Black))]];
    }
  }

  /** Each side starts with sixteen pieces and exactly one king. */
  lemma StartLayoutKings(b: Board<Option<Piece>>, color: Color)
    requires IsStartLayout(b)
    ensures HasKing(b, KingOf(color))
    ensures forall r, c :: 0 <= r < 8 && 0 <= c < 8 && b[r][c] == Some(Piece(King, color)) ==>
      c == 4 && r == (if color == White then 0 else 7)
  {
    var r := if color == White then 0 else 7;
    assert b[r][4] == Some(Piece(King, color));
  }
}
