/** The Go rules of go.js and game.js (the two files share them line for
    line): a `size` by `size` board whose edges wrap in topologic mode, a
    recursive liberty search that shares one visited set across its calls,
    stone-by-stone removal of dead stones and the dead-stone count. */
module GoEngine {
  import opened Util
  import opened Grid
  import JsMath
  import opened Pieces

  type Stone = Option<Color>
  type GoBoard = Board<Stone>

  /** A `size` by `size` board. */
  ghost predicate WellFormed(b: GoBoard, size: nat)
  {
    size > 0 && IsSquare(b, size)
  }

  /** `getTorusCoords`: both coordinates by `((x % size) + size) % size` in
      topologic mode, unchanged otherwise. */
  function TorusCoords(row: int, col: int, size: nat, topologic: bool): (c: Cell)
    requires size > 0
    ensures topologic ==> InRange(c, size) && c == Cell(row % size, col % size)
    ensures !topologic ==> c == Cell(row, col)
  {
    if !topologic then Cell(row, col)
    else
      JsMath.PosModIsMod(row, size);
      JsMath.PosModIsMod(col, size);
      Cell(JsMath.PosMod(row, size), JsMath.PosMod(col, size))
  }

  /** Wrapped coordinates differ from the input by whole board widths and
      a board point is its own wrap. */
  lemma TorusCoordsPeriodic(row: int, col: int, size: nat, i: int, j: int)
    requires size > 0
    ensures TorusCoords(row + i * size, col + j * size, size, true) == TorusCoords(row, col, size, true)
    ensures InRange(Cell(row, col), size) ==> TorusCoords(row, col, size, true) == Cell(row, col)
  {
    JsMath.ModShift(row, size, i);
    JsMath.ModShift(col, size, j);
    if InRange(Cell(row, col), size) {
      JsMath.ModUnique(row, size, 0, row);
      JsMath.ModUnique(col, size, 0, col);
    }
  }

  /** `isValidMove`: the (wrapped, or else bounds-checked) point is empty. */
  predicate IsValidMove(b: GoBoard, size: nat, topologic: bool, row: int, col: int)
    requires size > 0 && IsSquare(b, size)
  {
    var t := TorusCoords(row, col, size, topologic);
    InRange(t, size) && b[t.row][t.col] == None
  }

  /** isValidMove accepts exactly the empty points, found through the wrap in
      topologic mode and only on the board otherwise. */
  lemma IsValidMoveMeaning(b: GoBoard, size: nat, topologic: bool, row: int, col: int)
    requires size > 0 && IsSquare(b, size)
    ensures topologic ==>
      (IsValidMove(b, size, topologic, row, col) <==> b[row % size][col % size] == None)
    ensures !topologic ==>
      (IsValidMove(b, size, topologic, row, col) <==> InRange(Cell(row, col), size) && b[row][col] == None)
  {
  }

  // ---------------------------------------------------------------------------
  // Neighbours

  /** `directions` of hasLiberties, in order. */
  const Directions: seq<(int, int)> := [(-1, 0), (1, 0), (0, -1), (0, 1)]

  /** The neighbour in direction `d`: wrapped in topologic mode, absent when
      it falls off a flat board. */
  function Step(size: nat, topologic: bool, x: Cell, d: (int, int)): (s: Option<Cell>)
    requires size > 0
    ensures s.Some? ==> InRange(s.value, size)
  {
    var t := TorusCoords(x.row + d.0, x.col + d.1, size, topologic);
    if InRange(t, size) then Some(t) else None
  }

  /** The neighbour in direction `d`, as a set of at most one point. */
  function StepSet(size: nat, topologic: bool, x: Cell, d: (int, int)): set<Cell>
    requires size > 0
  {
    var s := Step(size, topologic, x, d);
    if s.Some? then {s.value} else {}
  }

  /** The neighbours hasLiberties visits. */
  function Neighbors(size: nat, topologic: bool, x: Cell): (ns: set<Cell>)
    requires size > 0
    ensures forall y :: y in ns ==> InRange(y, size)
  {
    StepSet(size, topologic, x, Directions[0]) + StepSet(size, topologic, x, Directions[1]) +
    StepSet(size, topologic, x, Directions[2]) + StepSet(size, topologic, x, Directions[3])
  }

  lemma NeighborOfStep(size: nat, topologic: bool, x: Cell, k: int)
    requires size > 0 && 0 <= k < 4 && Step(size, topologic, x, Directions[k]).Some?
    ensures Step(size, topologic, x, Directions[k]).value in Neighbors(size, topologic, x)
  {
  }

  lemma StepOfNeighbor(size: nat, topologic: bool, x: Cell, y: Cell)
    requires size > 0 && y in Neighbors(size, topologic, x)
    ensures exists k :: 0 <= k < 4 && Step(size, topologic, x, Directions[k]) == Some(y)
  {
  }

  /** In topologic mode every point has exactly its four wrapped
      neighbours. */
  lemma TorusNeighbors(size: nat, x: Cell, y: Cell)
    requires size > 0 && InRange(x, size)
    ensures y in Neighbors(size, true, x) <==>
      y == TorusCoords(x.row - 1, x.col, size, true) || y == TorusCoords(x.row + 1, x.col, size, true) ||
      y == TorusCoords(x.row, x.col - 1, size, true) || y == TorusCoords(x.row, x.col + 1, size, true)
  {
    var up, down := TorusCoords(x.row - 1, x.col, size, true), TorusCoords(x.row + 1, x.col, size, true);
    var left, right := TorusCoords(x.row, x.col - 1, size, true), TorusCoords(x.row, x.col + 1, size, true);
    assert Step(size, true, x, Directions[0]) == Some(up);
    assert Step(size, true, x, Directions[1]) == Some(down);
    assert Step(size, true, x, Directions[2]) == Some(left);
    assert Step(size, true, x, Directions[3]) == Some(right);
    NeighborOfStep(size, true, x, 0);
    NeighborOfStep(size, true, x, 1);
    NeighborOfStep(size, true, x, 2);
    NeighborOfStep(size, true, x, 3);
    if y in Neighbors(size, true, x) {
      StepOfNeighbor(size, true, x, y);
    }
  }

  /** On a flat board a neighbour is a board point one step away along a
      row or a column, so edge and corner points have fewer. */
  lemma FlatNeighbors(size: nat, x: Cell, y: Cell)
    requires size > 0 && InRange(x, size)
    ensures y in Neighbors(size, false, x) <==>
      InRange(y, size) && ((y.row == x.row && (y.col == x.col - 1 || y.col == x.col + 1)) ||
                           (y.col == x.col && (y.row == x.row - 1 || y.row == x.row + 1)))
  {
    if y in Neighbors(size, false, x) {
      StepOfNeighbor(size, false, x, y);
    }
    if InRange(y, size) {
      if y == Cell(x.row - 1, x.col) {
        NeighborOfStep(size, false, x, 0);
      } else if y == Cell(x.row + 1, x.col) {
        NeighborOfStep(size, false, x, 1);
      } else if y == Cell(x.row, x.col - 1) {
        NeighborOfStep(size, false, x, 2);
      } else if y == Cell(x.row, x.col + 1) {
        NeighborOfStep(size, false, x, 3);
      }
    }
  }

  // ---------------------------------------------------------------------------
  // Groups and liberties

  /** A path of stones of one colour, each step to a neighbour. */
  ghost predicate IsChain(b: GoBoard, size: nat, topologic: bool, p: seq<Cell>)
    requires WellFormed(b, size)
  {
    |p| > 0 && InRange(p[0], size) &&
    (forall i :: 0 <= i < |p| ==> InRange(p[i], size) && At(b, p[i]) == At(b, p[0])) &&
    (forall i, j :: 0 <= i < |p| - 1 && j == i + 1 ==> p[j] in Neighbors(size, topologic, p[i]))
  }

  /** `t` is in the same-coloured group as `s`. */
  ghost predicate Connected(b: GoBoard, size: nat, topologic: bool, s: Cell, t: Cell)
    requires WellFormed(b, size)
  {
    exists p {:trigger IsChain(b, size, topologic, p)} :: IsChain(b, size, topologic, p) && p[0] == s && p[|p| - 1] == t
  }

  /** The point `y` has an empty neighbour. */
  ghost predicate TouchesEmpty(b: GoBoard, size: nat, topologic: bool, y: Cell)
    requires WellFormed(b, size)
  {
    exists z :: z in Neighbors(size, topologic, y) && At(b, z) == None
  }

  /** The group of the stone on `s` has a liberty. */
  ghost predicate GroupHasLiberty(b: GoBoard, size: nat, topologic: bool, s: Cell)
    requires WellFormed(b, size)
  {
    exists y :: Connected(b, size, topologic, s, y) && TouchesEmpty(b, size, topologic, y)
  }

  lemma ConnectedSelf(b: GoBoard, size: nat, topologic: bool, s: Cell)
    requires WellFormed(b, size) && InRange(s, size)
    ensures Connected(b, size, topologic, s, s)
  {
    assert IsChain(b, size, topologic, [s]);
  }

  /** A group reached through a same-coloured neighbour is the same group. */
  lemma ConnectedPrepend(b: GoBoard, size: nat, topologic: bool, x: Cell, z: Cell, y: Cell)
    requires WellFormed(b, size) && InRange(x, size)
    requires z in Neighbors(size, topologic, x) && At(b, z) == At(b, x)
    requires Connected(b, size, topologic, z, y)
    ensures Connected(b, size, topologic, x, y)
  {
    var p :| IsChain(b, size, topologic, p) && p[0] == z && p[|p| - 1] == y;
    var q := [x] + p;
    assert q[1..] == p;
    assert IsChain(b, size, topologic, q);
  }

  /** A point the search has finished without finding a liberty: a stone of
      `color`, every neighbour occupied, every same-coloured neighbour
      visited. */
  ghost predicate Finished(b: GoBoard, size: nat, topologic: bool, color: Stone, y: Cell, visited: set<Cell>)
    requires WellFormed(b, size)
  {
    InRange(y, size) && At(b, y) == color &&
    forall z :: z in Neighbors(size, topologic, y) ==> At(b, z) != None && (At(b, z) == color ==> z in visited)
  }

  /** What the loop of hasLiberties knows about direction `k` once it has
      passed it. */
  ghost predicate DirectionDone(b: GoBoard, size: nat, topologic: bool, x: Cell, k: int, visited: set<Cell>)
    requires WellFormed(b, size) && InRange(x, size) && 0 <= k < 4
  {
    var s := Step(size, topologic, x, Directions[k]);
    s.Some? ==> At(b, s.value) != None && (At(b, s.value) == At(b, x) ==> s.value in visited)
  }

  /** Every point visited since `checked` has been finished. */
  ghost predicate ClosedOff(b: GoBoard, size: nat, topologic: bool, color: Stone, visited: set<Cell>, checked: set<Cell>)
    requires WellFormed(b, size)
  {
    forall y :: y in visited && y !in checked ==> Finished(b, size, topologic, color, y, visited)
  }

  /** The first `i` directions of `x` have been dealt with. */
  ghost predicate DirectionsDone(b: GoBoard, size: nat, topologic: bool, x: Cell, i: int, visited: set<Cell>)
    requires WellFormed(b, size) && InRange(x, size) && 0 <= i <= 4
  {
    forall k :: 0 <= k < i ==> DirectionDone(b, size, topologic, x, k, visited)
  }

  /** What the search knows stays true when its visited set grows by a
      finished part. */
  lemma VisitedGrows(b: GoBoard, size: nat, topologic: bool, x: Cell, i: int, checked: set<Cell>, s: set<Cell>, s': set<Cell>)
    requires WellFormed(b, size) && InRange(x, size) && 0 <= i < 4 && s <= s'
    requires DirectionsDone(b, size, topologic, x, i, s)
    requires ClosedOff(b, size, topologic, At(b, x), s, checked + {x})
    requires ClosedOff(b, size, topologic, At(b, x), s', s)
    requires DirectionDone(b, size, topologic, x, i, s')
    ensures DirectionsDone(b, size, topologic, x, i + 1, s')
    ensures ClosedOff(b, size, topologic, At(b, x), s', checked + {x})
  {
    forall k | 0 <= k < i + 1
      ensures DirectionDone(b, size, topologic, x, k, s')
    {
      if k < i {
        assert DirectionDone(b, size, topologic, x, k, s);
      }
    }
    forall y | y in s' && y !in checked + {x}
      ensures Finished(b, size, topologic, At(b, x), y, s')
    {
      if y in s {
        assert Finished(b, size, topologic, At(b, x), y, s);
        forall z | z in Neighbors(size, topologic, y)
          ensures At(b, z) != None && (At(b, z) == At(b, x) ==> z in s')
        {
        }
      } else {
        assert y !in s;
      }
    }
  }

  /** Once all four directions are dealt with, `x` itself is finished. */
  lemma AllDirectionsDone(b: GoBoard, size: nat, topologic: bool, x: Cell, checked: set<Cell>, s: set<Cell>)
    requires WellFormed(b, size) && InRange(x, size) && x in s
    requires DirectionsDone(b, size, topologic, x, 4, s)
    requires ClosedOff(b, size, topologic, At(b, x), s, checked + {x})
    ensures ClosedOff(b, size, topologic, At(b, x), s, checked)
  {
    forall z | z in Neighbors(size, topologic, x)
      ensures At(b, z) != None && (At(b, z) == At(b, x) ==> z in s)
    {
      StepOfNeighbor(size, topologic, x, z);
      var k :| 0 <= k < 4 && Step(size, topologic, x, Directions[k]) == Some(z);
      assert DirectionDone(b, size, topologic, x, k, s);
    }
    assert Finished(b, size, topologic, At(b, x), x, s);
  }

  /** A liberty of a same-coloured neighbour's group is one of `x`'s group. */
  lemma LibertyThroughNeighbor(b: GoBoard, size: nat, topologic: bool, x: Cell, z: Cell)
    requires WellFormed(b, size) && InRange(x, size)
    requires z in Neighbors(size, topologic, x) && At(b, z) == At(b, x)
    requires GroupHasLiberty(b, size, topologic, z)
    ensures GroupHasLiberty(b, size, topologic, x)
  {
    var y :| Connected(b, size, topologic, z, y) && TouchesEmpty(b, size, topologic, y);
    ConnectedPrepend(b, size, topologic, x, z, y);
  }

  /** The square the loop computes for direction `i` is that direction's
      neighbour. */
  lemma NeighborAt(size: nat, topologic: bool, x: Cell, i: int, t: Cell)
    requires size > 0 && 0 <= i < 4 && InRange(t, size)
    requires t == TorusCoords(x.row + Directions[i].0, x.col + Directions[i].1, size, topologic)
    ensures Step(size, topologic, x, Directions[i]) == Some(t) && t in Neighbors(size, topologic, x)
  {
    NeighborOfStep(size, topologic, x, i);
  }

  /** An empty neighbour is a liberty of the stone's own group. */
  lemma LibertyBeside(b: GoBoard, size: nat, topologic: bool, x: Cell, t: Cell)
    requires WellFormed(b, size) && InRange(x, size)
    requires t in Neighbors(size, topologic, x) && At(b, t) == None
    ensures GroupHasLiberty(b, size, topologic, x)
  {
    ConnectedSelf(b, size, topologic, x);
    assert TouchesEmpty(b, size, topologic, x);
  }

  /** `hasLiberties(row, col, checked)`: the visited set `checked` is shared
      by all the recursive calls, so it is passed in and handed back. */
  method HasLibertiesFrom(b: GoBoard, size: nat, topologic: bool, x: Cell, checked: set<Cell>)
    returns (found: bool, after: set<Cell>)
    requires WellFormed(b, size) && InRange(x, size) && At(b, x).Some? && checked <= AllCells(size)
    ensures checked <= after <= AllCells(size) && x in after
    ensures found ==> GroupHasLiberty(b, size, topologic, x)
    ensures !found ==> ClosedOff(b, size, topologic, At(b, x), after, checked)
    decreases AllCells(size) - checked
  {
    if x in checked {
      return false, checked;
    }
    after := checked + {x};
    var color := b[x.row][x.col];
    for i := 0 to 4
      invariant checked + {x} <= after <= AllCells(size)
      invariant DirectionsDone(b, size, topologic, x, i, after)
      invariant ClosedOff(b, size, topologic, color, after, checked + {x})
    {
      ghost var before := after;
      var t := TorusCoords(x.row + Directions[i].0, x.col + Directions[i].1, size, topologic);
      if 0 <= t.row < size && 0 <= t.col < size {
        NeighborAt(size, topologic, x, i, t);
        if b[t.row][t.col] == None {
          LibertyBeside(b, size, topologic, x, t);
          return true, after;
        }
        if b[t.row][t.col] == color {
          assert InRange(t, size) && At(b, t) == At(b, x);
          found, after := HasLibertiesFrom(b, size, topologic, t, after);
          if found {
            LibertyThroughNeighbor(b, size, topologic, x, t);
            return;
          }
        }
      }
      VisitedGrows(b, size, topologic, x, i, checked, before, after);
    }
    AllDirectionsDone(b, size, topologic, x, checked, after);
    found := false;
  }

  /** The visited set of a search that found nothing holds the whole group. */
  lemma {:induction false} ChainStaysVisited(b: GoBoard, size: nat, topologic: bool, p: seq<Cell>, visited: set<Cell>)
    requires WellFormed(b, size) && IsChain(b, size, topologic, p) && p[0] in visited
    requires ClosedOff(b, size, topologic, At(b, p[0]), visited, {})
    ensures p[|p| - 1] in visited
    decreases |p|
  {
    if |p| > 1 {
      var q := p[..|p| - 1];
      assert IsChain(b, size, topologic, q);
      ChainStaysVisited(b, size, topologic, q, visited);
      assert p[|p| - 1] in Neighbors(size, topologic, p[|p| - 2]);
    }
  }

  /** `hasLiberties(row, col)` with a fresh visited set: true exactly when
      the group of the stone has a liberty. */
  method HasLiberties(b: GoBoard, size: nat, topologic: bool, x: Cell) returns (found: bool)
    requires WellFormed(b, size) && InRange(x, size) && At(b, x).Some?
    ensures found <==> GroupHasLiberty(b, size, topologic, x)
  {
    var after;
    found, after := HasLibertiesFrom(b, size, topologic, x, {});
    if !found {
      forall y | Connected(b, size, topologic, x, y)
        ensures !TouchesEmpty(b, size, topologic, y)
      {
        var p :| IsChain(b, size, topologic, p) && p[0] == x && p[|p| - 1] == y;
        ChainStaysVisited(b, size, topologic, p, after);
      }
    }
  }

  // ---------------------------------------------------------------------------
  // removeDeadStones and countStonesToRemove

  /** A stone of `color` whose group has no liberty on board `b`. */
  ghost predicate IsDead(b: GoBoard, size: nat, topologic: bool, color: Color, x: Cell)
    requires WellFormed(b, size) && InRange(x, size)
  {
    At(b, x) == Some(color) && !GroupHasLiberty(b, size, topologic, x)
  }

  /** One test of the scan: the stone is removed if, on the board as it is
      by then, it is of `color` and its group has no liberty. */
  ghost function RemoveIfDead(b: GoBoard, size: nat, topologic: bool, color: Color, x: Cell): (b': GoBoard)
    requires WellFormed(b, size) && InRange(x, size)
    ensures WellFormed(b', size)
  {
    PutCells(b, x, None);
    if IsDead(b, size, topologic, color, x) then Put(b, x, None) else b
  }

  /** The scan of row `row` up to column `j`, in order. */
  ghost function ScanCells(b: GoBoard, size: nat, topologic: bool, color: Color, row: int, j: nat): (b': GoBoard)
    requires WellFormed(b, size) && 0 <= row < size && j <= size
    ensures WellFormed(b', size)
  {
    if j == 0 then b
    else RemoveIfDead(ScanCells(b, size, topologic, color, row, j - 1), size, topologic, color, Cell(row, j - 1))
  }

  /** The scan of the first `i` rows, in order. */
  ghost function ScanRows(b: GoBoard, size: nat, topologic: bool, color: Color, i: nat): (b': GoBoard)
    requires WellFormed(b, size) && i <= size
    ensures WellFormed(b', size)
  {
    if i == 0 then b
    else ScanCells(ScanRows(b, size, topologic, color, i - 1), size, topologic, color, i - 1, size)
  }

  /** `removeDeadStones(color)`: each stone of `color` is tested in row-major
      order on the board as it stands, so a removal gives the rest of its
      group a liberty before they are tested. */
  method RemoveDeadStones(b: GoBoard, size: nat, topologic: bool, color: Color) returns (b': GoBoard)
    requires WellFormed(b, size)
    ensures b' == ScanRows(b, size, topologic, color, size)
  {
    b' := b;
    for i := 0 to size
      invariant b' == ScanRows(b, size, topologic, color, i)
    {
      for j := 0 to size
        invariant b' == ScanCells(ScanRows(b, size, topologic, color, i), size, topologic, color, i, j)
      {
        var x := Cell(i, j);
        if b'[i][j] == Some(color) {
          var alive := HasLiberties(b', size, topologic, x);
          if !alive {
            b' := b'[i := b'[i][j := None]];
          }
        }
      }
    }
  }

  /** The scan only ever empties points that held `color`; every other point
      keeps its content. */
  lemma {:induction false} ScanCellsOnlyClears(b: GoBoard, size: nat, topologic: bool, color: Color, row: int, j: nat)
    requires WellFormed(b, size) && 0 <= row < size && j <= size
    ensures var b' := ScanCells(b, size, topologic, color, row, j);
      forall r, c :: 0 <= r < size && 0 <= c < size ==>
        b'[r][c] == b[r][c] || (b[r][c] == Some(color) && b'[r][c] == None && r == row && c < j)
    decreases j
  {
    if j > 0 {
      ScanCellsOnlyClears(b, size, topologic, color, row, j - 1);
      PutCells(ScanCells(b, size, topologic, color, row, j - 1), Cell(row, j - 1), None);
    }
  }

  lemma {:induction false} ScanRowsOnlyClears(b: GoBoard, size: nat, topologic: bool, color: Color, i: nat)
    requires WellFormed(b, size) && i <= size
    ensures var b' := ScanRows(b, size, topologic, color, i);
      forall r, c :: 0 <= r < size && 0 <= c < size ==>
        b'[r][c] == b[r][c] || (b[r][c] == Some(color) && b'[r][c] == None)
    decreases i
  {
    if i > 0 {
      ScanRowsOnlyClears(b, size, topologic, color, i - 1);
      ScanCellsOnlyClears(ScanRows(b, size, topologic, color, i - 1), size, topologic, color, i - 1, size);
    }
  }

  /** The number of dead stones of `color` in row `row` before column `j`. */
  ghost function CountCells(b: GoBoard, size: nat, topologic: bool, color: Color, row: int, j: nat): nat
    requires WellFormed(b, size) && 0 <= row < size && j <= size
  {
    if j == 0 then 0
    else CountCells(b, size, topologic, color, row, j - 1) + (if IsDead(b, size, topologic, color, Cell(row, j - 1)) then 1 else 0)
  }

  /** The number of dead stones of `color` in the first `i` rows. */
  ghost function CountRows(b: GoBoard, size: nat, topologic: bool, color: Color, i: nat): nat
    requires WellFormed(b, size) && i <= size
  {
    if i == 0 then 0
    else CountRows(b, size, topologic, color, i - 1) + CountCells(b, size, topologic, color, i - 1, size)
  }

  /** `countStonesToRemove(color)`: every stone of `color` whose group has
      no liberty, counted on the unchanged board. */
  method CountStonesToRemove(b: GoBoard, size: nat, topologic: bool, color: Color) returns (count: nat)
    requires WellFormed(b, size)
    ensures count == CountRows(b, size, topologic, color, size)
  {
    count := 0;
    for i := 0 to size
      invariant count == CountRows(b, size, topologic, color, i)
    {
      for j := 0 to size
        invariant count == CountRows(b, size, topologic, color, i) + CountCells(b, size, topologic, color, i, j)
      {
        if b[i][j] == Some(color) {
          var alive := HasLiberties(b, size, topologic, Cell(i, j));
          if !alive {
            count := count + 1;
          }
        }
      }
    }
  }

  /** The count is zero exactly when no stone of `color` is dead. */
  lemma {:induction false} CountCellsZero(b: GoBoard, size: nat, topologic: bool, color: Color, row: int, j: nat)
    requires WellFormed(b, size) && 0 <= row < size && j <= size
    ensures CountCells(b, size, topologic, color, row, j) == 0 <==>
      forall c :: 0 <= c < j ==> !IsDead(b, size, topologic, color, Cell(row, c))
    ensures CountCells(b, size, topologic, color, row, j) <= j
    decreases j
  {
    if j > 0 {
      CountCellsZero(b, size, topologic, color, row, j - 1);
    }
  }

  lemma {:induction false} CountRowsZero(b: GoBoard, size: nat, topologic: bool, color: Color, i: nat)
    requires WellFormed(b, size) && i <= size
    ensures CountRows(b, size, topologic, color, i) == 0 <==>
      forall r, c :: 0 <= r < i && 0 <= c < size ==> !IsDead(b, size, topologic, color, Cell(r, c))
    decreases i
  {
    if i > 0 {
      CountRowsZero(b, size, topologic, color, i - 1);
      CountCellsZero(b, size, topologic, color, i - 1, size);
    }
  }

  /** No stone of `color` on the board is dead. */
  ghost predicate NoneDead(b: GoBoard, size: nat, topologic: bool, color: Color)
    requires WellFormed(b, size)
  {
    forall r, c :: 0 <= r < size && 0 <= c < size ==> !IsDead(b, size, topologic, color, Cell(r, c))
  }

  /** countStonesToRemove answers zero exactly when no stone is dead. */
  lemma CountZero(b: GoBoard, size: nat, topologic: bool, color: Color)
    requires WellFormed(b, size)
    ensures CountRows(b, size, topologic, color, size) == 0 <==> NoneDead(b, size, topologic, color)
  {
    CountRowsZero(b, size, topologic, color, size);
  }

  /** When no stone of `color` is dead the scan removes nothing. */
  lemma {:induction false} NoDeadNoRemoval(b: GoBoard, size: nat, topologic: bool, color: Color, i: nat)
    requires WellFormed(b, size) && i <= size
    requires NoneDead(b, size, topologic, color)
    ensures ScanRows(b, size, topologic, color, i) == b
    decreases i
  {
    if i > 0 {
      NoDeadNoRemoval(b, size, topologic, color, i - 1);
      NoDeadRowUnchanged(b, size, topologic, color, i - 1, size);
    }
  }

  lemma {:induction false} NoDeadRowUnchanged(b: GoBoard, size: nat, topologic: bool, color: Color, row: int, j: nat)
    requires WellFormed(b, size) && 0 <= row < size && j <= size
    requires NoneDead(b, size, topologic, color)
    ensures ScanCells(b, size, topologic, color, row, j) == b
    decreases j
  {
    if j > 0 {
      NoDeadRowUnchanged(b, size, topologic, color, row, j - 1);
    }
  }
}
