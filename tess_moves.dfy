/** Move generation on a tessellated 8 by 8 board, as `getPossibleMoves` in
    torus-chess.js and spherical-chess.js does it: every step is taken in
    unbounded tessellation coordinates and read back through the file's
    own normalisation.  The two files differ only in that normalisation and
    in the pawn direction, which are parameters here. */
module TessMoves {
  import opened Util
  import opened Grid
  import opened Pieces
  import opened ChessBoards

  /** A normalisation sends every tessellation coordinate to a board square. */
  ghost predicate Normalizes(norm: (int, int) -> Cell)
  {
    forall r, c :: InRange(norm(r, c), 8)
  }

  /** The square can be moved to by a piece of colour `mover`: it is empty or
      holds an enemy piece. */
  predicate Open<T>(t: Option<T>, colorOf: T -> Color, mover: Color)
  {
    t == None || colorOf(t.value) != mover
  }

  /** The square holds an enemy piece. */
  predicate Enemy<T>(t: Option<T>, colorOf: T -> Color, mover: Color)
  {
    t.Some? && colorOf(t.value) != mover
  }

  const StraightDirs: seq<(int, int)> := [(0, 1), (1, 0), (0, -1), (-1, 0)]
  const DiagonalDirs: seq<(int, int)> := [(1, 1), (1, -1), (-1, 1), (-1, -1)]
  const QueenDirs: seq<(int, int)> := StraightDirs + DiagonalDirs
  const KnightDeltas: seq<(int, int)> := [(-2, -1), (-2, 1), (-1, -2), (-1, 2), (1, -2), (1, 2), (2, -1), (2, 1)]
  const KingDeltas: seq<(int, int)> := QueenDirs

  /** `for (let steps = 0; steps < 8; steps++)`: the longest ray. */
  const RaySteps: nat := 8

  /** The squares a sliding piece reaches in at most `k` more steps, starting
      at tessellation coordinate (r, c): empty squares are added and the walk
      goes on, an occupied square ends it and is added only if it holds an
      enemy. */
  function Ray<T>(b: Board<Option<T>>, colorOf: T -> Color, norm: (int, int) -> Cell, mover: Color,
                  r: int, c: int, dr: int, dc: int, k: nat): seq<Cell>
    requires Is8(b) && Normalizes(norm)
    decreases k
  {
    if k == 0 then []
    else
      var sq := norm(r, c);
      var t := At(b, sq);
      if t == None then [sq] + Ray(b, colorOf, norm, mover, r + dr, c + dc, dr, dc, k - 1)
      else if colorOf(t.value) != mover then [sq]
      else []
  }

  /** The 8-step rays from (row, col) in the first `n` directions of `dirs`, in order. */
  function Rays<T>(b: Board<Option<T>>, colorOf: T -> Color, norm: (int, int) -> Cell, mover: Color,
                   row: int, col: int, dirs: seq<(int, int)>, n: nat): seq<Cell>
    requires Is8(b) && Normalizes(norm) && n <= |dirs|
  {
    if n == 0 then []
    else
      var d := dirs[n - 1];
      Rays(b, colorOf, norm, mover, row, col, dirs, n - 1) +
      Ray(b, colorOf, norm, mover, row + d.0, col + d.1, d.0, d.1, RaySteps)
  }

  /** The single-step targets of a knight or king for the first `n` offsets
      of `deltas`, in order, kept when open. */
  function Jumps<T>(b: Board<Option<T>>, colorOf: T -> Color, norm: (int, int) -> Cell, mover: Color,
                    row: int, col: int, deltas: seq<(int, int)>, n: nat): seq<Cell>
    requires Is8(b) && Normalizes(norm) && n <= |deltas|
  {
    if n == 0 then []
    else
      var d := deltas[n - 1];
      var sq := norm(row + d.0, col + d.1);
      Jumps(b, colorOf, norm, mover, row, col, deltas, n - 1) +
      (if Open(At(b, sq), colorOf, mover) then [sq] else [])
  }

  /** The pawn's starting row: white on row 1, black on row 6. */
  predicate PawnStart(mover: Color, row: int)
  {
    (mover == White && row == 1) || (mover == Black && row == 6)
  }

  /** Pawn targets for direction `dir`: one step forward onto an empty square,
      two from the starting row when both squares are empty, and the two
      forward diagonals onto an enemy piece. */
  function PawnMoves<T>(b: Board<Option<T>>, colorOf: T -> Color, norm: (int, int) -> Cell, mover: Color,
                        row: int, col: int, dir: int): seq<Cell>
    requires Is8(b) && Normalizes(norm)
  {
    var fwd := norm(row + dir, col);
    var dbl := norm(row + 2 * dir, col);
    (if At(b, fwd) == None then [fwd] + (if PawnStart(mover, row) && At(b, dbl) == None then [dbl] else []) else []) +
    PawnCaptures(b, colorOf, norm, mover, row + dir, col, [-1, 1], 2)
  }

  /** The diagonal pawn captures onto row `r`, for the first `n` column
      offsets of `dcs`. */
  function PawnCaptures<T>(b: Board<Option<T>>, colorOf: T -> Color, norm: (int, int) -> Cell, mover: Color,
                           r: int, col: int, dcs: seq<int>, n: nat): seq<Cell>
    requires Is8(b) && Normalizes(norm) && n <= |dcs|
  {
    if n == 0 then []
    else
      var sq := norm(r, col + dcs[n - 1]);
      PawnCaptures(b, colorOf, norm, mover, r, col, dcs, n - 1) +
      (if Enemy(At(b, sq), colorOf, mover) then [sq] else [])
  }

  /** The list `getPossibleMoves` builds for a piece of `kind` and colour
      `mover` standing at (row, col). */
  function Moves<T>(b: Board<Option<T>>, colorOf: T -> Color, norm: (int, int) -> Cell,
                    kind: Kind, mover: Color, row: int, col: int, pawnDir: int): seq<Cell>
    requires Is8(b) && Normalizes(norm)
  {
    match kind
    case Pawn => PawnMoves(b, colorOf, norm, mover, row, col, pawnDir)
    case Rook => Rays(b, colorOf, norm, mover, row, col, StraightDirs, 4)
    case Bishop => Rays(b, colorOf, norm, mover, row, col, DiagonalDirs, 4)
    case Queen => Rays(b, colorOf, norm, mover, row, col, QueenDirs, 8)
    case Knight => Jumps(b, colorOf, norm, mover, row, col, KnightDeltas, 8)
    case King => Jumps(b, colorOf, norm, mover, row, col, KingDeltas, 8)
  }

  // ---------------------------------------------------------------------------
  // The loops of getPossibleMoves

  lemma AppendAssoc<X>(a: seq<X>, b: seq<X>, c: seq<X>)
    ensures (a + b) + c == a + (b + c)
  {
  }

  /** One `for (steps = 0; steps < 8; steps++)` walk with its `break`. */
  method WalkRay<T>(b: Board<Option<T>>, colorOf: T -> Color, norm: (int, int) -> Cell, mover: Color,
                    row: int, col: int, dr: int, dc: int) returns (moves: seq<Cell>)
    requires Is8(b) && Normalizes(norm)
    ensures moves == Ray(b, colorOf, norm, mover, row + dr, col + dc, dr, dc, RaySteps)
  {
    moves := [];
    var currentRow, currentCol := row + dr, col + dc;
    for steps := 0 to RaySteps
      invariant moves + Ray(b, colorOf, norm, mover, currentRow, currentCol, dr, dc, RaySteps - steps) ==
                Ray(b, colorOf, norm, mover, row + dr, col + dc, dr, dc, RaySteps)
    {
      var sq := norm(currentRow, currentCol);
      var target := b[sq.row][sq.col];
      if target == None {
        AppendAssoc(moves, [sq], Ray(b, colorOf, norm, mover, currentRow + dr, currentCol + dc, dr, dc, RaySteps - steps - 1));
        moves := moves + [sq];
      } else {
        if colorOf(target.value) != mover {
          moves := moves + [sq];
        }
        return;
      }
      currentRow, currentCol := currentRow + dr, currentCol + dc;
    }
  }

  /** `directions[type].forEach` for a sliding piece. */
  method CollectRays<T>(b: Board<Option<T>>, colorOf: T -> Color, norm: (int, int) -> Cell, mover: Color,
                        row: int, col: int, dirs: seq<(int, int)>) returns (moves: seq<Cell>)
    requires Is8(b) && Normalizes(norm)
    ensures moves == Rays(b, colorOf, norm, mover, row, col, dirs, |dirs|)
  {
    moves := [];
    for i := 0 to |dirs|
      invariant moves == Rays(b, colorOf, norm, mover, row, col, dirs, i)
    {
      var ray := WalkRay(b, colorOf, norm, mover, row, col, dirs[i].0, dirs[i].1);
      moves := moves + ray;
    }
  }

  /** `directions.knight.forEach` / `directions.king.forEach`. */
  method CollectJumps<T>(b: Board<Option<T>>, colorOf: T -> Color, norm: (int, int) -> Cell, mover: Color,
                         row: int, col: int, deltas: seq<(int, int)>) returns (moves: seq<Cell>)
    requires Is8(b) && Normalizes(norm)
    ensures moves == Jumps(b, colorOf, norm, mover, row, col, deltas, |deltas|)
  {
    moves := [];
    for i := 0 to |deltas|
      invariant moves == Jumps(b, colorOf, norm, mover, row, col, deltas, i)
    {
      var sq := norm(row + deltas[i].0, col + deltas[i].1);
      var target := b[sq.row][sq.col];
      if target == None || colorOf(target.value) != mover {
        moves := moves + [sq];
      }
    }
  }

  /** The pawn case: forward, double step, then `[-1, 1].forEach` captures. */
  method CollectPawn<T>(b: Board<Option<T>>, colorOf: T -> Color, norm: (int, int) -> Cell, mover: Color,
                        row: int, col: int, dir: int) returns (moves: seq<Cell>)
    requires Is8(b) && Normalizes(norm)
    ensures moves == PawnMoves(b, colorOf, norm, mover, row, col, dir)
  {
    moves := [];
    var forward := norm(row + dir, col);
    if b[forward.row][forward.col] == None {
      moves := moves + [forward];
      if (mover == White && row == 1) || (mover == Black && row == 6) {
        var double := norm(row + 2 * dir, col);
        if b[double.row][double.col] == None {
          moves := moves + [double];
        }
      }
    }
    var captures := CollectCaptures(b, colorOf, norm, mover, row + dir, col, [-1, 1]);
    moves := moves + captures;
  }

  /** `[-1, 1].forEach`: the diagonal captures onto row `r`. */
  method CollectCaptures<T>(b: Board<Option<T>>, colorOf: T -> Color, norm: (int, int) -> Cell, mover: Color,
                            r: int, col: int, dcs: seq<int>) returns (moves: seq<Cell>)
    requires Is8(b) && Normalizes(norm)
    ensures moves == PawnCaptures(b, colorOf, norm, mover, r, col, dcs, |dcs|)
  {
    moves := [];
    for i := 0 to |dcs|
      invariant moves == PawnCaptures(b, colorOf, norm, mover, r, col, dcs, i)
    {
      var sq := norm(r, col + dcs[i]);
      var target := b[sq.row][sq.col];
      if target.Some? && colorOf(target.value) != mover {
        moves := moves + [sq];
      }
    }
  }

  /** The `switch (piece.type)` of getPossibleMoves. */
  method CollectMoves<T>(b: Board<Option<T>>, colorOf: T -> Color, norm: (int, int) -> Cell,
                         kind: Kind, mover: Color, row: int, col: int, pawnDir: int) returns (moves: seq<Cell>)
    requires Is8(b) && Normalizes(norm)
    ensures moves == Moves(b, colorOf, norm, kind, mover, row, col, pawnDir)
  {
    match kind
    case Pawn => moves := CollectPawn(b, colorOf, norm, mover, row, col, pawnDir);
    case Rook => moves := CollectRays(b, colorOf, norm, mover, row, col, StraightDirs);
    case Bishop => moves := CollectRays(b, colorOf, norm, mover, row, col, DiagonalDirs);
    case Queen => moves := CollectRays(b, colorOf, norm, mover, row, col, QueenDirs);
    case Knight => moves := CollectJumps(b, colorOf, norm, mover, row, col, KnightDeltas);
    case King => moves := CollectJumps(b, colorOf, norm, mover, row, col, KingDeltas);
  }

  // ---------------------------------------------------------------------------
  // What the generated lists contain

  /** A ray holds at most `k` squares; every square on it is empty except
      possibly the last, which then holds an enemy. */
  lemma {:induction false} RayShape<T>(b: Board<Option<T>>, colorOf: T -> Color, norm: (int, int) -> Cell, mover: Color,
                                       r: int, c: int, dr: int, dc: int, k: nat)
    requires Is8(b) && Normalizes(norm)
    ensures var ray := Ray(b, colorOf, norm, mover, r, c, dr, dc, k);
      |ray| <= k &&
      forall i :: 0 <= i < |ray| ==>
        InRange(ray[i], 8) && (At(b, ray[i]) == None || (i == |ray| - 1 && Enemy(At(b, ray[i]), colorOf, mover)))
    decreases k
  {
    if k > 0 {
      RayShape(b, colorOf, norm, mover, r + dr, c + dc, dr, dc, k - 1);
    }
  }

  /** Every square on the rays is a board square that is empty or holds an
      enemy piece. */
  lemma {:induction false} RaysOpen<T>(b: Board<Option<T>>, colorOf: T -> Color, norm: (int, int) -> Cell, mover: Color,
                                       row: int, col: int, dirs: seq<(int, int)>, n: nat)
    requires Is8(b) && Normalizes(norm) && n <= |dirs|
    ensures forall m :: m in Rays(b, colorOf, norm, mover, row, col, dirs, n) ==>
      InRange(m, 8) && Open(At(b, m), colorOf, mover)
    decreases n
  {
    if n > 0 {
      var d := dirs[n - 1];
      var ray := Ray(b, colorOf, norm, mover, row + d.0, col + d.1, d.0, d.1, RaySteps);
      var prefix := Rays(b, colorOf, norm, mover, row, col, dirs, n - 1);
      assert Rays(b, colorOf, norm, mover, row, col, dirs, n) == prefix + ray;
      RayShape(b, colorOf, norm, mover, row + d.0, col + d.1, d.0, d.1, RaySteps);
      RaysOpen(b, colorOf, norm, mover, row, col, dirs, n - 1);
      forall m | m in prefix + ray
        ensures InRange(m, 8) && Open(At(b, m), colorOf, mover)
      {
        if m !in prefix {
          var i :| 0 <= i < |ray| && ray[i] == m;
        }
      }
    }
  }

  /** A knight or king target is kept exactly when it is open. */
  lemma {:induction false} JumpsExactly<T>(b: Board<Option<T>>, colorOf: T -> Color, norm: (int, int) -> Cell, mover: Color,
                                           row: int, col: int, deltas: seq<(int, int)>, n: nat, m: Cell)
    requires Is8(b) && Normalizes(norm) && n <= |deltas|
    ensures m in Jumps(b, colorOf, norm, mover, row, col, deltas, n) <==>
      InRange(m, 8) && Open(At(b, m), colorOf, mover) &&
      exists i :: 0 <= i < n && m == norm(row + deltas[i].0, col + deltas[i].1)
    decreases n
  {
    if n > 0 {
      JumpsExactly(b, colorOf, norm, mover, row, col, deltas, n - 1, m);
      var d := deltas[n - 1];
      var sq := norm(row + d.0, col + d.1);
      if m == sq && Open(At(b, m), colorOf, mover) {
        assert m in Jumps(b, colorOf, norm, mover, row, col, deltas, n);
      }
    }
  }

  /** The pawn targets are exactly: the forward square when empty, the double
      step from the starting row when both squares are empty, and a forward
      diagonal holding an enemy. */
  lemma PawnExactly<T>(b: Board<Option<T>>, colorOf: T -> Color, norm: (int, int) -> Cell, mover: Color,
                       row: int, col: int, dir: int, m: Cell)
    requires Is8(b) && Normalizes(norm)
    ensures var fwd, dbl := norm(row + dir, col), norm(row + 2 * dir, col);
      var left, right := norm(row + dir, col - 1), norm(row + dir, col + 1);
      m in PawnMoves(b, colorOf, norm, mover, row, col, dir) <==>
        (m == fwd && At(b, fwd) == None) ||
        (m == dbl && PawnStart(mover, row) && At(b, fwd) == None && At(b, dbl) == None) ||
        (m == left && Enemy(At(b, left), colorOf, mover)) ||
        (m == right && Enemy(At(b, right), colorOf, mover))
  {
    var r, dcs := row + dir, [-1, 1];
    var left, right := norm(r, col - 1), norm(r, col + 1);
    assert dcs[0] == -1 && dcs[1] == 1;
    var one := if Enemy(At(b, left), colorOf, mover) then [left] else [];
    assert PawnCaptures(b, colorOf, norm, mover, r, col, dcs, 1) == one;
    assert PawnCaptures(b, colorOf, norm, mover, r, col, dcs, 2) ==
      one + (if Enemy(At(b, right), colorOf, mover) then [right] else []);
  }

  /** Every generated target is a board square that is empty or holds an
      enemy piece. */
  lemma MovesOpen<T>(b: Board<Option<T>>, colorOf: T -> Color, norm: (int, int) -> Cell,
                     kind: Kind, mover: Color, row: int, col: int, pawnDir: int)
    requires Is8(b) && Normalizes(norm)
    ensures forall m :: m in Moves(b, colorOf, norm, kind, mover, row, col, pawnDir) ==>
      InRange(m, 8) && Open(At(b, m), colorOf, mover)
  {
    match kind
    case Pawn =>
      forall m | m in Moves(b, colorOf, norm, kind, mover, row, col, pawnDir)
        ensures InRange(m, 8) && Open(At(b, m), colorOf, mover)
      {
        PawnExactly(b, colorOf, norm, mover, row, col, pawnDir, m);
      }
    case Rook => RaysOpen(b, colorOf, norm, mover, row, col, StraightDirs, 4);
    case Bishop => RaysOpen(b, colorOf, norm, mover, row, col, DiagonalDirs, 4);
    case Queen => RaysOpen(b, colorOf, norm, mover, row, col, QueenDirs, 8);
    case Knight =>
      forall m | m in Moves(b, colorOf, norm, kind, mover, row, col, pawnDir)
        ensures InRange(m, 8) && Open(At(b, m), colorOf, mover)
      {
        JumpsExactly(b, colorOf, norm, mover, row, col, KnightDeltas, 8, m);
      }
    case King =>
      forall m | m in Moves(b, colorOf, norm, kind, mover, row, col, pawnDir)
        ensures InRange(m, 8) && Open(At(b, m), colorOf, mover)
      {
        JumpsExactly(b, colorOf, norm, mover, row, col, KingDeltas, 8, m);
      }
  }

  /** Hence a piece's own square, or any square of its own side, is never
      among its targets. */
  lemma OwnSquareNotTarget<T>(b: Board<Option<T>>, colorOf: T -> Color, norm: (int, int) -> Cell,
                              kind: Kind, mover: Color, row: int, col: int, pawnDir: int, sq: Cell)
    requires Is8(b) && Normalizes(norm) && InRange(sq, 8)
    requires At(b, sq).Some? && colorOf(At(b, sq).value) == mover
    ensures sq !in Moves(b, colorOf, norm, kind, mover, row, col, pawnDir)
  {
    MovesOpen(b, colorOf, norm, kind, mover, row, col, pawnDir);
  }
}
