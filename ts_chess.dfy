/** The chess half of src/main.ts: the initial board, the legal-move
    predicates for the three board shapes and the click handler that
    applies a move. */
module TsChess {
  import opened Util
  import opened Grid
  import opened Pieces
  import opened TsTopology
  import JsMath

  type Square = Option<Piece>
  type ChessBoard = Board<Square>

  ghost predicate WellFormed(b: ChessBoard)
  {
    IsSquare(b, 8)
  }

  predicate OnBoard(r: int, c: int)
  {
    0 <= r < 8 && 0 <= c < 8
  }

  function Abs(x: int): nat
  {
    if x < 0 then -x else x
  }

  function Max(x: int, y: int): int
  {
    if x < y then y else x
  }

  /** `createInitialChessBoard`: black on rows 0 and 1, white on rows 6 and 7. */
  method CreateInitialChessBoard() returns (b: ChessBoard)
    ensures IsInitial(b)
  {
    b := Filled(8, None);
    for col := 0 to 8
      invariant WellFormed(b)
      invariant forall c :: 0 <= c < col ==>
        b[0][c] == Some(Piece(BackRank(c), Black)) && b[1][c] == Some(Piece(Pawn, Black)) &&
        b[6][c] == Some(Piece(Pawn, White)) && b[7][c] == Some(Piece(BackRank(c), White))
      invariant forall r, c :: 0 <= r < 8 && col <= c < 8 ==> b[r][c] == None
      invariant forall r, c :: 2 <= r < 6 && 0 <= c < 8 ==> b[r][c] == None
    {
      b := b[0 := b[0][col := Some(Piece(BackRank(col), Black))]];
      b := b[1 := b[1][col := Some(Piece(Pawn, Black))]];
      b := b[6 := b[6][col := Some(Piece(Pawn, White))]];
      b := b[7 := b[7][col := Some(Piece(BackRank(col), White))]];
    }
  }

  /** The starting position of src/main.ts. */
  ghost predicate IsInitial(b: ChessBoard)
  {
    WellFormed(b) &&
    (forall c :: 0 <= c < 8 ==>
      b[0][c] == Some(Piece(BackRank(c), Black)) && b[1][c] == Some(Piece(Pawn, Black)) &&
      b[6][c] == Some(Piece(Pawn, White)) && b[7][c] == Some(Piece(BackRank(c), White))) &&
    (forall r, c :: 2 <= r < 6 && 0 <= c < 8 ==> b[r][c] == None)
  }

  // ---------------------------------------------------------------------------
  // Shared guard

  /** The check every validator starts with: a piece stands on the source and
      the target does not hold a piece of the same colour. */
  predicate MayLand(b: ChessBoard, fr: int, fc: int, tr: int, tc: int)
    requires WellFormed(b) && OnBoard(fr, fc) && OnBoard(tr, tc)
  {
    b[fr][fc].Some? && !(b[tr][tc].Some? && b[tr][tc].value.color == b[fr][fc].value.color)
  }

  /** A piece's own square is never a legal target, whatever the shape. */
  lemma OwnSquareNeverLegal(b: ChessBoard, mode: Mode, r: int, c: int)
    requires WellFormed(b) && OnBoard(r, c)
    ensures !LegalMove(b, mode, r, c, r, c)
  {
  }

  // ---------------------------------------------------------------------------
  // Classic board

  /** The `k`-th coordinate on the way from `f` towards `t` (`f + k * Math.sign(t - f)`). */
  function Toward(f: int, t: int, k: int): int
  {
    if f < t then f + k else if t < f then f - k else f
  }

  /** Source and target lie on one rank, file or diagonal and differ. */
  predicate OnLine(fr: int, fc: int, tr: int, tc: int)
  {
    (fr != tr || fc != tc) && (fr == tr || fc == tc || Abs(tr - fr) == Abs(tc - fc))
  }

  /** Every square strictly between source and target is empty. */
  ghost predicate ClearBetween(b: ChessBoard, fr: int, fc: int, tr: int, tc: int)
    requires WellFormed(b) && OnBoard(fr, fc) && OnBoard(tr, tc) && OnLine(fr, fc, tr, tc)
  {
    var n := Max(Abs(tr - fr), Abs(tc - fc));
    forall k :: 1 <= k < n ==> b[Toward(fr, tr, k)][Toward(fc, tc, k)] == None
  }

  /** `isPathClear`: walk from the source towards the target and fail on the
      first occupied square before it. */
  method IsPathClear(b: ChessBoard, fr: int, fc: int, tr: int, tc: int) returns (ok: bool)
    requires WellFormed(b) && OnBoard(fr, fc) && OnBoard(tr, tc) && OnLine(fr, fc, tr, tc)
    ensures ok == ClearBetween(b, fr, fc, tr, tc)
  {
    var rowStep := if tr > fr then 1 else if tr < fr then -1 else 0;
    var colStep := if tc > fc then 1 else if tc < fc then -1 else 0;
    var row, col := fr + rowStep, fc + colStep;
    ghost var n := Max(Abs(tr - fr), Abs(tc - fc));
    ghost var k := 1;
    while row != tr || col != tc
      invariant 1 <= k <= n
      invariant row == Toward(fr, tr, k) && col == Toward(fc, tc, k)
      invariant forall j :: 1 <= j < k ==> b[Toward(fr, tr, j)][Toward(fc, tc, j)] == None
      decreases n - k
    {
      if b[row][col].Some? {
        return false;
      }
      row, col := row + rowStep, col + colStep;
      k := k + 1;
    }
    return true;
  }

  /** The pawn rule of `isValidMoveClassic`: one step forward onto an empty
      square, two from the start row over an empty square, or one diagonal
      step onto an occupied square. */
  ghost predicate PawnClassic(b: ChessBoard, p: Piece, fr: int, fc: int, tr: int, tc: int)
    requires WellFormed(b) && OnBoard(fr, fc) && OnBoard(tr, tc)
  {
    var dir := if p.color == White then -1 else 1;
    var start := if p.color == White then 6 else 1;
    (tc == fc && b[tr][tc] == None &&
      (tr - fr == dir || (fr == start && tr - fr == 2 * dir && b[fr + dir][fc] == None))) ||
    (Abs(tc - fc) == 1 && tr - fr == dir && b[tr][tc].Some?)
  }

  /** The rules of `isValidMoveClassic`, piece by piece. */
  ghost predicate ClassicLegal(b: ChessBoard, fr: int, fc: int, tr: int, tc: int)
    requires WellFormed(b) && OnBoard(fr, fc) && OnBoard(tr, tc)
  {
    MayLand(b, fr, fc, tr, tc) &&
    var p := b[fr][fc].value;
    var dr, dc := tr - fr, tc - fc;
    match p.kind
    case Pawn => PawnClassic(b, p, fr, fc, tr, tc)
    case Rook => (dr == 0 || dc == 0) && ClearBetween(b, fr, fc, tr, tc)
    case Knight => (Abs(dr) == 2 && Abs(dc) == 1) || (Abs(dr) == 1 && Abs(dc) == 2)
    case Bishop => Abs(dr) == Abs(dc) && ClearBetween(b, fr, fc, tr, tc)
    case Queen => (dr == 0 || dc == 0 || Abs(dr) == Abs(dc)) && ClearBetween(b, fr, fc, tr, tc)
    case King => Abs(dr) <= 1 && Abs(dc) <= 1
  }

  /** `isValidMoveClassic`. */
  method IsValidMoveClassic(b: ChessBoard, fr: int, fc: int, tr: int, tc: int) returns (ok: bool)
    requires WellFormed(b) && OnBoard(fr, fc) && OnBoard(tr, tc)
    ensures ok == ClassicLegal(b, fr, fc, tr, tc)
    ensures b[fr][fc] == None ==> !ok
    ensures b[fr][fc].Some? && b[tr][tc].Some? && b[tr][tc].value.color == b[fr][fc].value.color ==> !ok
  {
    if b[fr][fc] == None {
      return false;
    }
    var piece := b[fr][fc].value;
    var target := b[tr][tc];
    if target.Some? && target.value.color == piece.color {
      return false;
    }
    var rowDiff, colDiff := tr - fr, tc - fc;
    var absRowDiff, absColDiff := Abs(rowDiff), Abs(colDiff);
    match piece.kind {
      case Pawn =>
        var direction := if piece.color == White then -1 else 1;
        var startRow := if piece.color == White then 6 else 1;
        if colDiff == 0 && target == None {
          if rowDiff == direction {
            return true;
          }
          if fr == startRow && rowDiff == 2 * direction && b[fr + direction][fc] == None {
            return true;
          }
        }
        if absColDiff == 1 && rowDiff == direction && target.Some? {
          return true;
        }
        return false;
      case Rook =>
        if rowDiff != 0 && colDiff != 0 {
          return false;
        }
        ok := IsPathClear(b, fr, fc, tr, tc);
      case Knight =>
        return (absRowDiff == 2 && absColDiff == 1) || (absRowDiff == 1 && absColDiff == 2);
      case Bishop =>
        if absRowDiff != absColDiff {
          return false;
        }
        ok := IsPathClear(b, fr, fc, tr, tc);
      case Queen =>
        if rowDiff != 0 && colDiff != 0 && absRowDiff != absColDiff {
          return false;
        }
        ok := IsPathClear(b, fr, fc, tr, tc);
      case King =>
        return absRowDiff <= 1 && absColDiff <= 1;
    }
  }

  /** On the flat board the knight and king rules are exactly the usual
      geometric ones, and no move leaves the board. */
  lemma ClassicGeometry(b: ChessBoard, fr: int, fc: int, tr: int, tc: int)
    requires WellFormed(b) && OnBoard(fr, fc) && OnBoard(tr, tc) && MayLand(b, fr, fc, tr, tc)
    ensures b[fr][fc].value.kind == Knight ==>
      (ClassicLegal(b, fr, fc, tr, tc) <==> {Abs(tr - fr), Abs(tc - fc)} == {1, 2})
    ensures b[fr][fc].value.kind == King ==>
      (ClassicLegal(b, fr, fc, tr, tc) <==> Abs(tr - fr) <= 1 && Abs(tc - fc) <= 1 && (tr, tc) != (fr, fc))
  {
    var dr, dc := Abs(tr - fr), Abs(tc - fc);
    if {dr, dc} == {1, 2} {
      assert dr in {1, 2} && dc in {1, 2} && dr != dc;
    }
    if (dr == 2 && dc == 1) || (dr == 1 && dc == 2) {
      assert {dr, dc} == {1, 2};
    }
  }

  // ---------------------------------------------------------------------------
  // Rollover (torus) board

  /** The square reached after `k` wrapped steps along direction (dr, dc). */
  function WrappedRayCell(fr: int, fc: int, dr: int, dc: int, k: int): Cell
  {
    Cell(Wrap(fr + k * dr, 8), Wrap(fc + k * dc, 8))
  }

  /** One more wrapped step from the `k`-th square gives the `k + 1`-th. */
  lemma WrappedRayNext(fr: int, fc: int, dr: int, dc: int, k: int, row: int, col: int)
    requires Cell(row, col) == WrappedRayCell(fr, fc, dr, dc, k)
    ensures WrappedRayCell(fr, fc, dr, dc, k + 1) == Cell(Wrap(row + dr, 8), Wrap(col + dc, 8))
  {
    WrapStep(fr + k * dr, dr, 8);
    WrapStep(fc + k * dc, dc, 8);
    assert fr + k * dr + dr == fr + (k + 1) * dr;
    assert fc + k * dc + dc == fc + (k + 1) * dc;
  }

  /** The target is reached within 8 wrapped steps, with every square before it empty. */
  ghost predicate RayWrapped(b: ChessBoard, fr: int, fc: int, tr: int, tc: int, dr: int, dc: int)
    requires WellFormed(b)
  {
    exists k :: 1 <= k <= 8 && WrappedRayCell(fr, fc, dr, dc, k) == Cell(tr, tc) &&
      forall j :: 1 <= j < k ==> At(b, WrappedRayCell(fr, fc, dr, dc, j)) == None
  }

  /** The first `n` wrapped squares are empty and none is the target. */
  ghost predicate PassedWrapped(b: ChessBoard, fr: int, fc: int, tr: int, tc: int, dr: int, dc: int, n: int)
    requires WellFormed(b)
  {
    forall j :: 1 <= j <= n ==>
      WrappedRayCell(fr, fc, dr, dc, j) != Cell(tr, tc) && At(b, WrappedRayCell(fr, fc, dr, dc, j)) == None
  }

  /** `isPathClearWrapped`: at most 8 wrapped steps; true when the target
      comes up before any occupied square. */
  method IsPathClearWrapped(b: ChessBoard, fr: int, fc: int, tr: int, tc: int, dr: int, dc: int) returns (ok: bool)
    requires WellFormed(b)
    ensures ok == RayWrapped(b, fr, fc, tr, tc, dr, dc)
  {
    var row, col := Wrap(fr + dr, 8), Wrap(fc + dc, 8);
    var steps := 0;
    while steps < 8
      invariant 0 <= steps <= 8
      invariant Cell(row, col) == WrappedRayCell(fr, fc, dr, dc, steps + 1)
      invariant PassedWrapped(b, fr, fc, tr, tc, dr, dc, steps)
    {
      if row == tr && col == tc {
        RayWrappedFound(b, fr, fc, tr, tc, dr, dc, steps + 1);
        return true;
      }
      if b[row][col].Some? {
        RayWrappedBlocked(b, fr, fc, tr, tc, dr, dc, steps + 1);
        return false;
      }
      PassedWrappedStep(b, fr, fc, tr, tc, dr, dc, steps);
      WrappedRayNext(fr, fc, dr, dc, steps + 1, row, col);
      row, col := Wrap(row + dr, 8), Wrap(col + dc, 8);
      steps := steps + 1;
    }
    RayWrappedMissed(b, fr, fc, tr, tc, dr, dc);
    return false;
  }

  lemma RayWrappedFound(b: ChessBoard, fr: int, fc: int, tr: int, tc: int, dr: int, dc: int, n: int)
    requires WellFormed(b) && 1 <= n <= 8 && PassedWrapped(b, fr, fc, tr, tc, dr, dc, n - 1)
    requires WrappedRayCell(fr, fc, dr, dc, n) == Cell(tr, tc)
    ensures RayWrapped(b, fr, fc, tr, tc, dr, dc)
  {
  }

  lemma RayWrappedBlocked(b: ChessBoard, fr: int, fc: int, tr: int, tc: int, dr: int, dc: int, n: int)
    requires WellFormed(b) && 1 <= n <= 8 && PassedWrapped(b, fr, fc, tr, tc, dr, dc, n - 1)
    requires WrappedRayCell(fr, fc, dr, dc, n) != Cell(tr, tc) && At(b, WrappedRayCell(fr, fc, dr, dc, n)) != None
    ensures !RayWrapped(b, fr, fc, tr, tc, dr, dc)
  {
  }

  lemma PassedWrappedStep(b: ChessBoard, fr: int, fc: int, tr: int, tc: int, dr: int, dc: int, n: int)
    requires WellFormed(b) && PassedWrapped(b, fr, fc, tr, tc, dr, dc, n)
    requires WrappedRayCell(fr, fc, dr, dc, n + 1) != Cell(tr, tc) && At(b, WrappedRayCell(fr, fc, dr, dc, n + 1)) == None
    ensures PassedWrapped(b, fr, fc, tr, tc, dr, dc, n + 1)
  {
  }

  lemma RayWrappedMissed(b: ChessBoard, fr: int, fc: int, tr: int, tc: int, dr: int, dc: int)
    requires WellFormed(b) && PassedWrapped(b, fr, fc, tr, tc, dr, dc, 8)
    ensures !RayWrapped(b, fr, fc, tr, tc, dr, dc)
  {
  }

  /** `isReachableStraight`: rank rays when the rows agree, file rays when the columns agree. */
  ghost predicate StraightWrapped(b: ChessBoard, fr: int, fc: int, tr: int, tc: int)
    requires WellFormed(b)
  {
    (fr == tr && (RayWrapped(b, fr, fc, tr, tc, 0, 1) || RayWrapped(b, fr, fc, tr, tc, 0, -1))) ||
    (fc == tc && (RayWrapped(b, fr, fc, tr, tc, 1, 0) || RayWrapped(b, fr, fc, tr, tc, -1, 0)))
  }

  method IsReachableStraight(b: ChessBoard, fr: int, fc: int, tr: int, tc: int) returns (ok: bool)
    requires WellFormed(b)
    ensures ok == StraightWrapped(b, fr, fc, tr, tc)
  {
    if fr == tr {
      ok := IsPathClearWrapped(b, fr, fc, tr, tc, 0, 1);
      if ok {
        return;
      }
      ok := IsPathClearWrapped(b, fr, fc, tr, tc, 0, -1);
      if ok {
        return;
      }
    }
    if fc == tc {
      ok := IsPathClearWrapped(b, fr, fc, tr, tc, 1, 0);
      if ok {
        return;
      }
      ok := IsPathClearWrapped(b, fr, fc, tr, tc, -1, 0);
      if ok {
        return;
      }
    }
    return false;
  }

  /** The four diagonal directions `[[1, 1], [1, -1], [-1, 1], [-1, -1]]`. */
  const DiagonalDirs: seq<(int, int)> := [(1, 1), (1, -1), (-1, 1), (-1, -1)]

  /** The four orthogonal directions of `isReachableStraightMirror`. */
  const StraightDirs: seq<(int, int)> := [(0, 1), (0, -1), (1, 0), (-1, 0)]

  ghost predicate DiagonalWrapped(b: ChessBoard, fr: int, fc: int, tr: int, tc: int)
    requires WellFormed(b)
  {
    exists i :: 0 <= i < 4 && RayWrapped(b, fr, fc, tr, tc, DiagonalDirs[i].0, DiagonalDirs[i].1)
  }

  /** `isReachableDiagonal`: any of the four wrapped diagonal rays reaches the target. */
  method IsReachableDiagonal(b: ChessBoard, fr: int, fc: int, tr: int, tc: int) returns (ok: bool)
    requires WellFormed(b)
    ensures ok == DiagonalWrapped(b, fr, fc, tr, tc)
  {
    for i := 0 to 4
      invariant forall j :: 0 <= j < i ==> !RayWrapped(b, fr, fc, tr, tc, DiagonalDirs[j].0, DiagonalDirs[j].1)
    {
      ok := IsPathClearWrapped(b, fr, fc, tr, tc, DiagonalDirs[i].0, DiagonalDirs[i].1);
      if ok {
        return;
      }
    }
    return false;
  }

  /** The knight deltas of src/main.ts. */
  const KnightDeltas: seq<(int, int)> := [(-2, -1), (-2, 1), (-1, -2), (-1, 2), (1, -2), (1, 2), (2, -1), (2, 1)]

  /** Some knight delta, wrapped, lands on the target. */
  ghost predicate KnightWrapped(fr: int, fc: int, tr: int, tc: int)
  {
    exists i :: 0 <= i < 8 && Wrap(fr + KnightDeltas[i].0, 8) == tr && Wrap(fc + KnightDeltas[i].1, 8) == tc
  }

  /** Some king step (both deltas in -1..1, not both 0), wrapped, lands on the target. */
  ghost predicate KingWrapped(fr: int, fc: int, tr: int, tc: int)
  {
    exists dr, dc :: -1 <= dr <= 1 && -1 <= dc <= 1 && (dr, dc) != (0, 0) &&
      Wrap(fr + dr, 8) == tr && Wrap(fc + dc, 8) == tc
  }

  /** The knight loop of `isValidMoveRollover`. */
  method KnightReachesWrapped(fr: int, fc: int, tr: int, tc: int) returns (ok: bool)
    ensures ok == KnightWrapped(fr, fc, tr, tc)
  {
    for i := 0 to 8
      invariant forall j :: 0 <= j < i ==>
        !(Wrap(fr + KnightDeltas[j].0, 8) == tr && Wrap(fc + KnightDeltas[j].1, 8) == tc)
    {
      var (dr, dc) := KnightDeltas[i];
      if Wrap(fr + dr, 8) == tr && Wrap(fc + dc, 8) == tc {
        return true;
      }
    }
    return false;
  }

  /** The nested king loops of `isValidMoveRollover`. */
  method KingReachesWrapped(fr: int, fc: int, tr: int, tc: int) returns (ok: bool)
    ensures ok == KingWrapped(fr, fc, tr, tc)
  {
    for dr := -1 to 2
      invariant forall r, c :: -1 <= r < dr && -1 <= c <= 1 && (r, c) != (0, 0) ==>
        !(Wrap(fr + r, 8) == tr && Wrap(fc + c, 8) == tc)
    {
      for dc := -1 to 2
        invariant forall r, c :: ((-1 <= r < dr && -1 <= c <= 1) || (r == dr && -1 <= c < dc)) && (r, c) != (0, 0) ==>
          !(Wrap(fr + r, 8) == tr && Wrap(fc + c, 8) == tc)
      {
        if dr == 0 && dc == 0 {
          continue;
        }
        if Wrap(fr + dr, 8) == tr && Wrap(fc + dc, 8) == tc {
          assert -1 <= dr <= 1 && -1 <= dc <= 1 && (dr, dc) != (0, 0);
          return true;
        }
      }
    }
    return false;
  }

  /** The pawn rule shared by `isValidMoveRollover` and `isValidMoveMirror`:
      rows never wrap, and a diagonal capture may cross the side edge. */
  ghost predicate PawnWrapped(b: ChessBoard, p: Piece, fr: int, fc: int, tr: int, tc: int)
    requires WellFormed(b) && OnBoard(fr, fc) && OnBoard(tr, tc)
  {
    var dir := if p.color == White then -1 else 1;
    var start := if p.color == White then 6 else 1;
    var rowDiff, direct := tr - fr, tc - fc;
    var wrapped := if direct > 0 then direct - 8 else direct + 8;
    (direct == 0 && b[tr][tc] == None &&
      (rowDiff == dir || (fr == start && rowDiff == 2 * dir && b[fr + dir][fc] == None))) ||
    (rowDiff == dir && b[tr][tc].Some? && (Abs(direct) == 1 || Abs(wrapped) == 1))
  }

  /** The pawn branch shared by the rollover and mirror validators. */
  method PawnMoveWrapped(b: ChessBoard, p: Piece, fr: int, fc: int, tr: int, tc: int) returns (ok: bool)
    requires WellFormed(b) && OnBoard(fr, fc) && OnBoard(tr, tc)
    ensures ok == PawnWrapped(b, p, fr, fc, tr, tc)
  {
    var direction := if p.color == White then -1 else 1;
    var startRow := if p.color == White then 6 else 1;
    var rowDiff := tr - fr;
    var directColDiff := tc - fc;
    var wrappedColDiff := if directColDiff > 0 then directColDiff - 8 else directColDiff + 8;
    var target := b[tr][tc];
    if directColDiff == 0 && target == None {
      if rowDiff == direction {
        return true;
      }
      if fr == startRow && rowDiff == 2 * direction && b[fr + direction][fc] == None {
        return true;
      }
    }
    if rowDiff == direction && target.Some? {
      if Abs(directColDiff) == 1 || Abs(wrappedColDiff) == 1 {
        return true;
      }
    }
    return false;
  }

  /** The rules of `isValidMoveRollover`. */
  ghost predicate RolloverLegal(b: ChessBoard, fr: int, fc: int, tr: int, tc: int)
    requires WellFormed(b) && OnBoard(fr, fc) && OnBoard(tr, tc)
  {
    MayLand(b, fr, fc, tr, tc) &&
    var p := b[fr][fc].value;
    match p.kind
    case Pawn => PawnWrapped(b, p, fr, fc, tr, tc)
    case Knight => KnightWrapped(fr, fc, tr, tc)
    case King => KingWrapped(fr, fc, tr, tc)
    case Rook => StraightWrapped(b, fr, fc, tr, tc)
    case Bishop => DiagonalWrapped(b, fr, fc, tr, tc)
    case Queen => StraightWrapped(b, fr, fc, tr, tc) || DiagonalWrapped(b, fr, fc, tr, tc)
  }

  /** `isValidMoveRollover`. */
  method IsValidMoveRollover(b: ChessBoard, fr: int, fc: int, tr: int, tc: int) returns (ok: bool)
    requires WellFormed(b) && OnBoard(fr, fc) && OnBoard(tr, tc)
    ensures ok == RolloverLegal(b, fr, fc, tr, tc)
    ensures b[fr][fc] == None ==> !ok
    ensures b[fr][fc].Some? && b[tr][tc].Some? && b[tr][tc].value.color == b[fr][fc].value.color ==> !ok
  {
    if b[fr][fc] == None {
      return false;
    }
    var piece := b[fr][fc].value;
    var target := b[tr][tc];
    if target.Some? && target.value.color == piece.color {
      return false;
    }
    match piece.kind {
      case Pawn =>
        ok := PawnMoveWrapped(b, piece, fr, fc, tr, tc);
      case Knight =>
        ok := KnightReachesWrapped(fr, fc, tr, tc);
      case King =>
        ok := KingReachesWrapped(fr, fc, tr, tc);
      case Rook =>
        ok := IsReachableStraight(b, fr, fc, tr, tc);
      case Bishop =>
        ok := IsReachableDiagonal(b, fr, fc, tr, tc);
      case Queen =>
        ok := IsReachableStraight(b, fr, fc, tr, tc);
        if !ok {
          ok := IsReachableDiagonal(b, fr, fc, tr, tc);
        }
    }
  }

  /** On the torus a king reaches exactly the squares whose row and column
      distances, taken around the board, are at most one. */
  lemma RolloverKingIsTorusNeighbour(fr: int, fc: int, tr: int, tc: int)
    requires OnBoard(fr, fc) && OnBoard(tr, tc)
    ensures KingWrapped(fr, fc, tr, tc) <==>
      (tr - fr) % 8 in {0, 1, 7} && (tc - fc) % 8 in {0, 1, 7} && (tr, tc) != (fr, fc)
  {
    if KingWrapped(fr, fc, tr, tc) {
      KingWrappedSound(fr, fc, tr, tc);
    }
    if (tr - fr) % 8 in {0, 1, 7} && (tc - fc) % 8 in {0, 1, 7} && (tr, tc) != (fr, fc) {
      KingWrappedComplete(fr, fc, tr, tc);
    }
  }

  lemma KingWrappedSound(fr: int, fc: int, tr: int, tc: int)
    requires OnBoard(fr, fc) && OnBoard(tr, tc) && KingWrapped(fr, fc, tr, tc)
    ensures (tr - fr) % 8 in {0, 1, 7} && (tc - fc) % 8 in {0, 1, 7} && (tr, tc) != (fr, fc)
  {
    var dr, dc :| -1 <= dr <= 1 && -1 <= dc <= 1 && (dr, dc) != (0, 0) &&
      Wrap(fr + dr, 8) == tr && Wrap(fc + dc, 8) == tc;
    TorusStep(fr, dr, tr);
    TorusStep(fc, dc, tc);
    StepResidue(dr);
    StepResidue(dc);
  }

  /** A step of -1, 0 or 1 leaves residue 7, 0 or 1, and only the zero step
      leaves 0. */
  lemma StepResidue(d: int)
    requires -1 <= d <= 1
    ensures d % 8 in {0, 1, 7} && (d % 8 == 0 <==> d == 0)
  {
  }

  lemma KingWrappedComplete(fr: int, fc: int, tr: int, tc: int)
    requires OnBoard(fr, fc) && OnBoard(tr, tc)
    requires (tr - fr) % 8 in {0, 1, 7} && (tc - fc) % 8 in {0, 1, 7} && (tr, tc) != (fr, fc)
    ensures KingWrapped(fr, fc, tr, tc)
  {
    var dr := StepOf(fr, tr);
    var dc := StepOf(fc, tc);
    TorusStep(fr, dr, tr);
    TorusStep(fc, dc, tc);
    assert -1 <= dr <= 1 && -1 <= dc <= 1 && (dr, dc) != (0, 0);
    assert Wrap(fr + dr, 8) == tr && Wrap(fc + dc, 8) == tc;
  }

  /** The step in -1..1 that leads from `f` to `t` around an 8-cycle, if any. */
  function StepOf(f: int, t: int): int
  {
    var d := t - f;
    if d == 0 then 0 else if d == 1 || d == -7 then 1 else -1
  }

  /** One wrapped step `d` from `f` lands on `t` exactly when `t - f` is `d`
      around the 8-cycle. */
  lemma TorusStep(f: int, d: int, t: int)
    requires 0 <= f < 8 && 0 <= t < 8 && -1 <= d <= 1
    ensures Wrap(f + d, 8) == t <==> (t - f) % 8 == d % 8
    ensures (t - f) % 8 in {0, 1, 7} ==> -1 <= StepOf(f, t) <= 1 && (t - f) % 8 == StepOf(f, t) % 8
    ensures (t - f) % 8 == 0 <==> t == f
  {
    SmallMod(f + d);
    SmallMod(t - f);
    SmallMod(d);
    SmallMod(StepOf(f, t));
  }

  /** `x % 8` for the small offsets that arise between two squares. */
  lemma SmallMod(x: int)
    requires -8 <= x < 16
    ensures x % 8 == if x < 0 then x + 8 else if x < 8 then x else x - 8
  {
    if x < 0 {
      JsMath.ModUnique(x, 8, -1, x + 8);
    } else if x < 8 {
      JsMath.ModUnique(x, 8, 0, x);
    } else {
      JsMath.ModUnique(x, 8, 1, x - 8);
    }
  }

  // ---------------------------------------------------------------------------
  // Mirror board

  /** The square reached after `k` raw steps along (dr, dc), folded by wrapMirror. */
  function MirrorRayCell(fr: int, fc: int, dr: int, dc: int, k: int): Cell
  {
    var f := MirrorFold(fr + k * dr, fc + k * dc, 8);
    Cell(f.0, f.1)
  }

  /** The target is reached within 16 mirrored steps, with every square before it empty. */
  ghost predicate RayMirror(b: ChessBoard, fr: int, fc: int, tr: int, tc: int, dr: int, dc: int)
    requires WellFormed(b)
  {
    exists k :: 1 <= k <= 16 && MirrorRayCell(fr, fc, dr, dc, k) == Cell(tr, tc) &&
      forall j :: 1 <= j < k ==> At(b, MirrorRayCell(fr, fc, dr, dc, j)) == None
  }

  /** The first `n` mirrored squares are empty and none is the target. */
  ghost predicate PassedMirror(b: ChessBoard, fr: int, fc: int, tr: int, tc: int, dr: int, dc: int, n: int)
    requires WellFormed(b)
  {
    forall j :: 1 <= j <= n ==>
      MirrorRayCell(fr, fc, dr, dc, j) != Cell(tr, tc) && At(b, MirrorRayCell(fr, fc, dr, dc, j)) == None
  }

  /** `isPathClearMirror`: at most 16 raw steps, each folded by wrapMirror. */
  method IsPathClearMirror(b: ChessBoard, fr: int, fc: int, tr: int, tc: int, dr: int, dc: int) returns (ok: bool)
    requires WellFormed(b)
    ensures ok == RayMirror(b, fr, fc, tr, tc, dr, dc)
  {
    var row, col := fr + dr, fc + dc;
    var steps := 0;
    while steps < 16
      invariant 0 <= steps <= 16
      invariant row == fr + (steps + 1) * dr && col == fc + (steps + 1) * dc
      invariant PassedMirror(b, fr, fc, tr, tc, dr, dc, steps)
    {
      var newRow, newCol, _ := WrapMirror(row, col, 8);
      assert Cell(newRow, newCol) == MirrorRayCell(fr, fc, dr, dc, steps + 1);
      if newRow == tr && newCol == tc {
        RayMirrorFound(b, fr, fc, tr, tc, dr, dc, steps + 1);
        return true;
      }
      if b[newRow][newCol].Some? {
        RayMirrorBlocked(b, fr, fc, tr, tc, dr, dc, steps + 1);
        return false;
      }
      PassedMirrorStep(b, fr, fc, tr, tc, dr, dc, steps);
      assert row + dr == fr + ((steps + 1) + 1) * dr && col + dc == fc + ((steps + 1) + 1) * dc;
      row, col := row + dr, col + dc;
      steps := steps + 1;
    }
    RayMirrorMissed(b, fr, fc, tr, tc, dr, dc);
    return false;
  }

  lemma RayMirrorFound(b: ChessBoard, fr: int, fc: int, tr: int, tc: int, dr: int, dc: int, n: int)
    requires WellFormed(b) && 1 <= n <= 16 && PassedMirror(b, fr, fc, tr, tc, dr, dc, n - 1)
    requires MirrorRayCell(fr, fc, dr, dc, n) == Cell(tr, tc)
    ensures RayMirror(b, fr, fc, tr, tc, dr, dc)
  {
  }

  lemma RayMirrorBlocked(b: ChessBoard, fr: int, fc: int, tr: int, tc: int, dr: int, dc: int, n: int)
    requires WellFormed(b) && 1 <= n <= 16 && PassedMirror(b, fr, fc, tr, tc, dr, dc, n - 1)
    requires MirrorRayCell(fr, fc, dr, dc, n) != Cell(tr, tc) && At(b, MirrorRayCell(fr, fc, dr, dc, n)) != None
    ensures !RayMirror(b, fr, fc, tr, tc, dr, dc)
  {
  }

  lemma PassedMirrorStep(b: ChessBoard, fr: int, fc: int, tr: int, tc: int, dr: int, dc: int, n: int)
    requires WellFormed(b) && PassedMirror(b, fr, fc, tr, tc, dr, dc, n)
    requires MirrorRayCell(fr, fc, dr, dc, n + 1) != Cell(tr, tc) && At(b, MirrorRayCell(fr, fc, dr, dc, n + 1)) == None
    ensures PassedMirror(b, fr, fc, tr, tc, dr, dc, n + 1)
  {
  }

  lemma RayMirrorMissed(b: ChessBoard, fr: int, fc: int, tr: int, tc: int, dr: int, dc: int)
    requires WellFormed(b) && PassedMirror(b, fr, fc, tr, tc, dr, dc, 16)
    ensures !RayMirror(b, fr, fc, tr, tc, dr, dc)
  {
  }

  ghost predicate StraightMirror(b: ChessBoard, fr: int, fc: int, tr: int, tc: int)
    requires WellFormed(b)
  {
    exists i :: 0 <= i < 4 && RayMirror(b, fr, fc, tr, tc, StraightDirs[i].0, StraightDirs[i].1)
  }

  ghost predicate DiagonalMirror(b: ChessBoard, fr: int, fc: int, tr: int, tc: int)
    requires WellFormed(b)
  {
    exists i :: 0 <= i < 4 && RayMirror(b, fr, fc, tr, tc, DiagonalDirs[i].0, DiagonalDirs[i].1)
  }

  /** `isReachableStraightMirror`: unlike the torus version it tries all four
      directions whatever the source and target. */
  method IsReachableStraightMirror(b: ChessBoard, fr: int, fc: int, tr: int, tc: int) returns (ok: bool)
    requires WellFormed(b)
    ensures ok == StraightMirror(b, fr, fc, tr, tc)
  {
    for i := 0 to 4
      invariant forall j :: 0 <= j < i ==> !RayMirror(b, fr, fc, tr, tc, StraightDirs[j].0, StraightDirs[j].1)
    {
      ok := IsPathClearMirror(b, fr, fc, tr, tc, StraightDirs[i].0, StraightDirs[i].1);
      if ok {
        return;
      }
    }
    return false;
  }

  /** `isReachableDiagonalMirror`. */
  method IsReachableDiagonalMirror(b: ChessBoard, fr: int, fc: int, tr: int, tc: int) returns (ok: bool)
    requires WellFormed(b)
    ensures ok == DiagonalMirror(b, fr, fc, tr, tc)
  {
    for i := 0 to 4
      invariant forall j :: 0 <= j < i ==> !RayMirror(b, fr, fc, tr, tc, DiagonalDirs[j].0, DiagonalDirs[j].1)
    {
      ok := IsPathClearMirror(b, fr, fc, tr, tc, DiagonalDirs[i].0, DiagonalDirs[i].1);
      if ok {
        return;
      }
    }
    return false;
  }

  ghost predicate KnightMirror(fr: int, fc: int, tr: int, tc: int)
  {
    exists i :: 0 <= i < 8 &&
      MirrorFold(fr + KnightDeltas[i].0, fc + KnightDeltas[i].1, 8).0 == tr &&
      MirrorFold(fr + KnightDeltas[i].0, fc + KnightDeltas[i].1, 8).1 == tc
  }

  ghost predicate KingMirror(fr: int, fc: int, tr: int, tc: int)
  {
    exists dr, dc :: -1 <= dr <= 1 && -1 <= dc <= 1 && (dr, dc) != (0, 0) &&
      MirrorFold(fr + dr, fc + dc, 8).0 == tr && MirrorFold(fr + dr, fc + dc, 8).1 == tc
  }

  /** The knight loop of `isValidMoveMirror`. */
  method KnightReachesMirror(fr: int, fc: int, tr: int, tc: int) returns (ok: bool)
    ensures ok == KnightMirror(fr, fc, tr, tc)
  {
    for i := 0 to 8
      invariant forall j :: 0 <= j < i ==>
        !(MirrorFold(fr + KnightDeltas[j].0, fc + KnightDeltas[j].1, 8).0 == tr &&
          MirrorFold(fr + KnightDeltas[j].0, fc + KnightDeltas[j].1, 8).1 == tc)
    {
      var (dr, dc) := KnightDeltas[i];
      var newRow, newCol, _ := WrapMirror(fr + dr, fc + dc, 8);
      if newRow == tr && newCol == tc {
        return true;
      }
    }
    return false;
  }

  /** The nested king loops of `isValidMoveMirror`. */
  method KingReachesMirror(fr: int, fc: int, tr: int, tc: int) returns (ok: bool)
    ensures ok == KingMirror(fr, fc, tr, tc)
  {
    for dr := -1 to 2
      invariant forall r, c :: -1 <= r < dr && -1 <= c <= 1 && (r, c) != (0, 0) ==>
        !(MirrorFold(fr + r, fc + c, 8).0 == tr && MirrorFold(fr + r, fc + c, 8).1 == tc)
    {
      for dc := -1 to 2
        invariant forall r, c :: ((-1 <= r < dr && -1 <= c <= 1) || (r == dr && -1 <= c < dc)) && (r, c) != (0, 0) ==>
          !(MirrorFold(fr + r, fc + c, 8).0 == tr && MirrorFold(fr + r, fc + c, 8).1 == tc)
      {
        if dr == 0 && dc == 0 {
          continue;
        }
        var newRow, newCol, _ := WrapMirror(fr + dr, fc + dc, 8);
        if newRow == tr && newCol == tc {
          assert -1 <= dr <= 1 && -1 <= dc <= 1 && (dr, dc) != (0, 0);
          return true;
        }
      }
    }
    return false;
  }

  /** The rules of `isValidMoveMirror`. */
  ghost predicate MirrorLegal(b: ChessBoard, fr: int, fc: int, tr: int, tc: int)
    requires WellFormed(b) && OnBoard(fr, fc) && OnBoard(tr, tc)
  {
    MayLand(b, fr, fc, tr, tc) &&
    var p := b[fr][fc].value;
    match p.kind
    case Pawn => PawnWrapped(b, p, fr, fc, tr, tc)
    case Knight => KnightMirror(fr, fc, tr, tc)
    case King => KingMirror(fr, fc, tr, tc)
    case Rook => StraightMirror(b, fr, fc, tr, tc)
    case Bishop => DiagonalMirror(b, fr, fc, tr, tc)
    case Queen => StraightMirror(b, fr, fc, tr, tc) || DiagonalMirror(b, fr, fc, tr, tc)
  }

  /** `isValidMoveMirror`. */
  method IsValidMoveMirror(b: ChessBoard, fr: int, fc: int, tr: int, tc: int) returns (ok: bool)
    requires WellFormed(b) && OnBoard(fr, fc) && OnBoard(tr, tc)
    ensures ok == MirrorLegal(b, fr, fc, tr, tc)
    ensures b[fr][fc] == None ==> !ok
    ensures b[fr][fc].Some? && b[tr][tc].Some? && b[tr][tc].value.color == b[fr][fc].value.color ==> !ok
  {
    if b[fr][fc] == None {
      return false;
    }
    var piece := b[fr][fc].value;
    var target := b[tr][tc];
    if target.Some? && target.value.color == piece.color {
      return false;
    }
    match piece.kind {
      case Pawn =>
        ok := PawnMoveWrapped(b, piece, fr, fc, tr, tc);
      case Knight =>
        ok := KnightReachesMirror(fr, fc, tr, tc);
      case King =>
        ok := KingReachesMirror(fr, fc, tr, tc);
      case Rook =>
        ok := IsReachableStraightMirror(b, fr, fc, tr, tc);
      case Bishop =>
        ok := IsReachableDiagonalMirror(b, fr, fc, tr, tc);
      case Queen =>
        ok := IsReachableStraightMirror(b, fr, fc, tr, tc);
        if !ok {
          ok := IsReachableDiagonalMirror(b, fr, fc, tr, tc);
        }
    }
  }

  // ---------------------------------------------------------------------------
  // Dispatch and the game session

  ghost predicate LegalMove(b: ChessBoard, mode: Mode, fr: int, fc: int, tr: int, tc: int)
    requires WellFormed(b) && OnBoard(fr, fc) && OnBoard(tr, tc)
  {
    match mode
    case Classic => ClassicLegal(b, fr, fc, tr, tc)
    case Rollover => RolloverLegal(b, fr, fc, tr, tc)
    case Mirror => MirrorLegal(b, fr, fc, tr, tc)
  }

  /** `isValidChessMove`: the validator of the current board shape. */
  method IsValidChessMove(b: ChessBoard, mode: Mode, fr: int, fc: int, tr: int, tc: int) returns (ok: bool)
    requires WellFormed(b) && OnBoard(fr, fc) && OnBoard(tr, tc)
    ensures ok == LegalMove(b, mode, fr, fc, tr, tc)
    ensures ok ==> MayLand(b, fr, fc, tr, tc)
  {
    match mode {
      case Rollover =>
        ok := IsValidMoveRollover(b, fr, fc, tr, tc);
      case Mirror =>
        ok := IsValidMoveMirror(b, fr, fc, tr, tc);
      case Classic =>
        ok := IsValidMoveClassic(b, fr, fc, tr, tc);
    }
  }

  /** The board after moving the piece on (fr, fc) to (tr, tc). */
  function Moved(b: ChessBoard, fr: int, fc: int, tr: int, tc: int): (m: ChessBoard)
    requires WellFormed(b) && OnBoard(fr, fc) && OnBoard(tr, tc)
    ensures WellFormed(m)
  {
    Put(Put(b, Cell(tr, tc), b[fr][fc]), Cell(fr, fc), None)
  }

  /** A pawn standing on row 0 or 7 is replaced by a queen of its colour. */
  function Promoted(b: ChessBoard, r: int, c: int): (m: ChessBoard)
    requires WellFormed(b) && OnBoard(r, c)
    ensures WellFormed(m)
  {
    match b[r][c]
    case Some(p) => if p.kind == Pawn && (r == 0 || r == 7) then Put(b, Cell(r, c), Some(Piece(Queen, p.color))) else b
    case None => b
  }

  /** The module-level chess state of src/main.ts. */
  class ChessSession {
    var board: ChessBoard
    var turn: Color
    var selected: Option<Cell>
    var gameOver: Option<Color>
    var mode: Mode

    /** The selection, when there is one, is a piece of the side to move. */
    ghost predicate Valid()
      reads this
    {
      WellFormed(board) &&
      (selected.Some? ==>
        OnBoard(selected.value.row, selected.value.col) &&
        OwnPiece(board, selected.value.row, selected.value.col, turn))
    }

    /** `setGameMode(mode)` followed by `initChess`. */
    constructor (mode: Mode)
      ensures Valid() && this.mode == mode
      ensures IsInitial(board) && turn == White && selected == None && gameOver == None
    {
      board := Filled(8, None);
      this.mode := mode;
      turn := White;
      selected := None;
      gameOver := None;
      new;
      InitChess();
    }

    /** `initChess`: starting board, white to move, no selection, game running. */
    method InitChess()
      modifies this
      ensures Valid() && mode == old(mode)
      ensures IsInitial(board) && turn == White && selected == None && gameOver == None
    {
      board := CreateInitialChessBoard();
      turn := White;
      selected := None;
      gameOver := None;
    }

    /** `handleChessSquareClick` on square (row, col). */
    method HandleSquareClick(row: int, col: int)
      requires Valid() && OnBoard(row, col)
      modifies this
      ensures Valid() && mode == old(mode)
      // a finished game ignores every click
      ensures old(gameOver).Some? ==>
        board == old(board) && turn == old(turn) && selected == old(selected) && gameOver == old(gameOver)
      // no selection: select an own piece, otherwise nothing happens
      ensures old(gameOver) == None && old(selected) == None ==>
        board == old(board) && turn == old(turn) && gameOver == None &&
        selected == (if OwnPiece(old(board), row, col, old(turn)) then Some(Cell(row, col)) else None)
      // clicking the selected square again deselects it
      ensures old(gameOver) == None && old(selected) == Some(Cell(row, col)) ==>
        board == old(board) && turn == old(turn) && gameOver == None && selected == None
      // an illegal target: reselect an own piece or drop the selection
      ensures old(gameOver) == None && old(selected).Some? && old(selected) != Some(Cell(row, col)) &&
              !LegalMove(old(board), mode, old(selected).value.row, old(selected).value.col, row, col) ==>
        board == old(board) && turn == old(turn) && gameOver == None &&
        selected == (if OwnPiece(old(board), row, col, old(turn)) then Some(Cell(row, col)) else None)
      // a legal move
      ensures old(gameOver) == None && old(selected).Some? && old(selected) != Some(Cell(row, col)) &&
              LegalMove(old(board), mode, old(selected).value.row, old(selected).value.col, row, col) ==>
        var moved := Moved(old(board), old(selected).value.row, old(selected).value.col, row, col);
        selected == None &&
        if old(board)[row][col].Some? && old(board)[row][col].value.kind == King then
          board == moved && gameOver == Some(old(turn)) && turn == old(turn)
        else
          board == Promoted(moved, row, col) && gameOver == None && turn == old(turn).Opponent()
    {
      if gameOver.Some? {
        return;
      }
      var piece := board[row][col];
      if selected.Some? {
        var from := selected.value;
        var legal := false;
        if from.row != row || from.col != col {
          legal := IsValidChessMove(board, mode, from.row, from.col, row, col);
        }
        if from.row == row && from.col == col {
          selected := None;
        } else if legal {
          var captured := board[row][col];
          board := Moved(board, from.row, from.col, row, col);
          if captured.Some? && captured.value.kind == King {
            gameOver := Some(turn);
            selected := None;
            return;
          }
          board := Promoted(board, row, col);
          turn := turn.Opponent();
          selected := None;
        } else if piece.Some? && piece.value.color == turn {
          selected := Some(Cell(row, col));
        } else {
          selected := None;
        }
      } else if piece.Some? && piece.value.color == turn {
        selected := Some(Cell(row, col));
      }
    }
  }

  /** The square holds a piece of colour `c`. */
  predicate OwnPiece(b: ChessBoard, r: int, k: int, c: Color)
    requires WellFormed(b) && OnBoard(r, k)
  {
    b[r][k].Some? && b[r][k].value.color == c
  }

  /** An accepted move leaves the mover's piece (or its promotion) on the target
      and empties the source. */
  lemma MoveRelocatesPiece(b: ChessBoard, fr: int, fc: int, tr: int, tc: int)
    requires WellFormed(b) && OnBoard(fr, fc) && OnBoard(tr, tc) && (fr, fc) != (tr, tc)
    requires b[fr][fc].Some?
    ensures var m := Promoted(Moved(b, fr, fc, tr, tc), tr, tc);
      m[fr][fc] == None && m[tr][tc].Some? && m[tr][tc].value.color == b[fr][fc].value.color &&
      (m[tr][tc].value.kind == b[fr][fc].value.kind ||
       (b[fr][fc].value.kind == Pawn && m[tr][tc].value.kind == Queen && (tr == 0 || tr == 7))) &&
      forall r, c :: OnBoard(r, c) && (r, c) != (fr, fc) && (r, c) != (tr, tc) ==> m[r][c] == b[r][c]
  {
  }
}
