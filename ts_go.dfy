/** The Go half of src/main.ts: a 19 by 19 board whose neighbourhood
    depends on the board shape, group and liberty search, captures, the
    suicide and simple-ko checks, passing and the reset. */
module TsGo {
  import opened Util
  import opened Grid
  import opened Pieces
  import opened TsTopology

  type Stone = Option<Color>
  type GoBoard = Board<Stone>

  /** `GO_SIZE`. */
  const GoSize: nat := 19

  ghost predicate WellFormed(b: GoBoard)
  {
    IsSquare(b, GoSize)
  }

  /** `createInitialGoBoard`. */
  function CreateInitialGoBoard(): (b: GoBoard)
    ensures WellFormed(b)
    ensures forall r, k :: 0 <= r < GoSize && 0 <= k < GoSize ==> b[r][k] == None
  {
    Filled(GoSize, None)
  }

  // ---------------------------------------------------------------------------
  // boardToString

  /** `cell ? cell[0] : '.'`: the first letter of the colour name. */
  function CellChar(s: Stone): char
  {
    match s
    case None => '.'
    case Some(White) => 'w'
    case Some(Black) => 'b'
  }

  /** One row as its characters, `row.map(...).join('')`. */
  function RowToString(row: seq<Stone>): (s: string)
    ensures |s| == |row|
    ensures forall i :: 0 <= i < |row| ==> s[i] == CellChar(row[i])
  {
    if row == [] then "" else [CellChar(row[0])] + RowToString(row[1..])
  }

  /** `join('|')`. */
  function Join(rows: seq<string>): string
  {
    if |rows| == 0 then "" else if |rows| == 1 then rows[0] else rows[0] + "|" + Join(rows[1..])
  }

  /** `boardToString`, the key of the simple-ko check. */
  function BoardToString(b: GoBoard): string
  {
    Join(seq(|b|, r requires 0 <= r < |b| => RowToString(b[r])))
  }

  /** Joining rows of one fixed length loses nothing. */
  lemma {:induction false} JoinInjective(r1: seq<string>, r2: seq<string>, n: nat)
    requires |r1| == |r2|
    requires forall i :: 0 <= i < |r1| ==> |r1[i]| == n && |r2[i]| == n
    requires Join(r1) == Join(r2)
    ensures r1 == r2
    decreases |r1|
  {
    if |r1| == 1 {
      assert r1 == [r1[0]] && r2 == [r2[0]];
    } else if |r1| >= 2 {
      var s := Join(r1);
      assert s[..n] == r1[0] && s[..n] == r2[0];
      assert s[n + 1..] == Join(r1[1..]) && s[n + 1..] == Join(r2[1..]);
      JoinInjective(r1[1..], r2[1..], n);
      assert r1 == [r1[0]] + r1[1..] && r2 == [r2[0]] + r2[1..];
    }
  }

  /** Different 19 by 19 boards have different strings, so the string
      comparison of the ko check is board equality. */
  lemma BoardToStringInjective(b1: GoBoard, b2: GoBoard)
    requires WellFormed(b1) && WellFormed(b2)
    ensures BoardToString(b1) == BoardToString(b2) <==> b1 == b2
  {
    if BoardToString(b1) == BoardToString(b2) {
      var r1 := seq(|b1|, r requires 0 <= r < |b1| => RowToString(b1[r]));
      var r2 := seq(|b2|, r requires 0 <= r < |b2| => RowToString(b2[r]));
      JoinInjective(r1, r2, GoSize);
      forall r, k | 0 <= r < GoSize && 0 <= k < GoSize
        ensures b1[r][k] == b2[r][k]
      {
        assert r1[r][k] == r2[r][k];
      }
      SameBoard(b1, b2, GoSize);
    }
  }

  // ---------------------------------------------------------------------------
  // getNeighbors

  /** `getNeighbors(row, col)` for the current board shape.  The wrapped
      coordinates `wrap(row - 1, GO_SIZE)`, `wrapMirror(row - 1, col, GO_SIZE)`
      and so on are written out for an on-board point; NeighborsUseWrap
      proves them equal to Wrap and MirrorFold. */
  function GetNeighbors(mode: Mode, row: int, col: int): (ns: seq<Cell>)
    requires InRange(Cell(row, col), GoSize)
    ensures forall c :: c in ns ==> InRange(c, GoSize)
    ensures mode != Classic ==> |ns| == 4
  {
    match mode
    case Classic =>
      (if row > 0 then [Cell(row - 1, col)] else []) +
      (if row < GoSize - 1 then [Cell(row + 1, col)] else []) +
      (if col > 0 then [Cell(row, col - 1)] else []) +
      (if col < GoSize - 1 then [Cell(row, col + 1)] else [])
    case Rollover =>
      [Cell(Before(row), col), Cell(After(row), col), Cell(row, Before(col)), Cell(row, After(col))]
    case Mirror =>
      [Cell(if row == 0 then 0 else row - 1, col), Cell(if row == GoSize - 1 then row else row + 1, col),
       Cell(row, Before(col)), Cell(row, After(col))]
  }

  /** The previous and next position on the cycle of `GoSize` points. */
  function Before(x: int): int
  {
    if x == 0 then GoSize - 1 else x - 1
  }

  function After(x: int): int
  {
    if x == GoSize - 1 then 0 else x + 1
  }

  /** The neighbours are those the source computes with `wrap` and `wrapMirror`. */
  lemma NeighborsUseWrap(row: int, col: int)
    requires InRange(Cell(row, col), GoSize)
    ensures GetNeighbors(Rollover, row, col) ==
      [Cell(Wrap(row - 1, GoSize), col), Cell(Wrap(row + 1, GoSize), col),
       Cell(row, Wrap(col - 1, GoSize)), Cell(row, Wrap(col + 1, GoSize))]
    ensures var up, down := MirrorFold(row - 1, col, GoSize), MirrorFold(row + 1, col, GoSize);
      GetNeighbors(Mirror, row, col) ==
      [Cell(up.0, up.1), Cell(down.0, down.1),
       Cell(row, Wrap(col - 1, GoSize)), Cell(row, Wrap(col + 1, GoSize))]
  {
    WrapNear(col - 1, GoSize);
    WrapNear(col + 1, GoSize);
    WrapNear(row - 1, GoSize);
    WrapNear(row + 1, GoSize);
    WrapNear(col, GoSize);
    MirrorNear(row - 1, GoSize);
    MirrorNear(row + 1, GoSize);
  }

  /** Neighbouring positions on a cycle of `n` points. */
  predicate CycleAdjacent(a: int, b: int, n: int)
  {
    b == a + 1 || b == a - 1 || (a == 0 && b == n - 1) || (a == n - 1 && b == 0)
  }

  /** The adjacency of each board shape, stated geometrically: the flat board
      has orthogonal neighbours, the torus wraps both edges, and the mirror
      board wraps columns while the top and bottom rows meet themselves. */
  predicate GoAdjacent(mode: Mode, a: Cell, c: Cell)
  {
    InRange(a, GoSize) && InRange(c, GoSize) &&
    match mode
    case Classic =>
      (a.col == c.col && (c.row == a.row + 1 || c.row == a.row - 1)) ||
      (a.row == c.row && (c.col == a.col + 1 || c.col == a.col - 1))
    case Rollover =>
      (a.col == c.col && CycleAdjacent(a.row, c.row, GoSize)) ||
      (a.row == c.row && CycleAdjacent(a.col, c.col, GoSize))
    case Mirror =>
      (a.col == c.col && (c.row == a.row + 1 || c.row == a.row - 1 ||
                          (a.row == 0 && c.row == 0) || (a.row == GoSize - 1 && c.row == GoSize - 1))) ||
      (a.row == c.row && CycleAdjacent(a.col, c.col, GoSize))
  }

  /** getNeighbors lists exactly the geometric neighbours. */
  lemma NeighborsAreAdjacent(mode: Mode, a: Cell, c: Cell)
    requires InRange(a, GoSize)
    ensures c in GetNeighbors(mode, a.row, a.col) <==> GoAdjacent(mode, a, c)
  {
    match mode {
      case Classic =>
      case Rollover =>
      case Mirror =>
    }
  }

  /** Adjacency is symmetric on every board shape. */
  lemma NeighborsSymmetric(mode: Mode, a: Cell, c: Cell)
    requires InRange(a, GoSize) && InRange(c, GoSize)
    ensures c in GetNeighbors(mode, a.row, a.col) <==> a in GetNeighbors(mode, c.row, c.col)
  {
    NeighborsAreAdjacent(mode, a, c);
    NeighborsAreAdjacent(mode, c, a);
  }

  /** getNeighbors as a function of the cell, for the board shape `mode`;
      the group, liberty and capture searches below take it as a parameter. */
  function Neighbors(mode: Mode): (nb: Cell -> seq<Cell>)
  {
    c => if InRange(c, GoSize) then GetNeighbors(mode, c.row, c.col) else []
  }

  /** Every listed neighbour is a point of the board. */
  ghost predicate NbInRange(nb: Cell -> seq<Cell>)
  {
    forall c, i :: 0 <= i < |nb(c)| ==> 0 <= nb(c)[i].row < GoSize && 0 <= nb(c)[i].col < GoSize
  }

  lemma NeighborsInRange(mode: Mode)
    ensures NbInRange(Neighbors(mode))
  {
    var nb := Neighbors(mode);
    forall c, i | 0 <= i < |nb(c)|
      ensures 0 <= nb(c)[i].row < GoSize && 0 <= nb(c)[i].col < GoSize
    {
      var ns := GetNeighbors(mode, c.row, c.col);
      assert nb(c) == ns;
      assert ns[i] in ns;
    }
  }

  // ---------------------------------------------------------------------------
  // getGroup

  /** A path of stones of one colour, each step to a listed neighbour. */
  ghost predicate IsChain(b: GoBoard, nb: Cell -> seq<Cell>, p: seq<Cell>)
    requires WellFormed(b) && NbInRange(nb)
  {
    |p| > 0 && InRange(p[0], GoSize) &&
    (forall i :: 0 <= i < |p| ==> InRange(p[i], GoSize) && At(b, p[i]) == At(b, p[0])) &&
    (forall i, j :: 0 <= i < |p| - 1 && j == i + 1 ==> p[j] in nb(p[i]))
  }

  ghost predicate Connected(b: GoBoard, nb: Cell -> seq<Cell>, s: Cell, t: Cell)
    requires WellFormed(b) && NbInRange(nb)
  {
    exists p {:trigger IsChain(b, nb, p)} :: IsChain(b, nb, p) && p[0] == s && p[|p| - 1] == t
  }

  /** The group of the stone on `s`: every cell joined to it by a chain of
      its colour; empty for an empty point. */
  ghost function Group(b: GoBoard, nb: Cell -> seq<Cell>, s: Cell): (g: set<Cell>)
    requires WellFormed(b) && NbInRange(nb) && InRange(s, GoSize)
    ensures g <= AllCells(GoSize)
    ensures At(b, s) != None ==> s in g
    ensures forall x :: x in g ==> At(b, x) == At(b, s)
  {
    ConnectedSelf(b, nb, s);
    if At(b, s) == None then {}
    else
      var g := set c | c in AllCells(GoSize) && Connected(b, nb, s, c);
      assert forall x :: x in g ==> At(b, x) == At(b, s) by {
        forall x | x in g
          ensures At(b, x) == At(b, s)
        {
          ConnectedColor(b, nb, s, x);
        }
      }
      g
  }

  lemma ConnectedSelf(b: GoBoard, nb: Cell -> seq<Cell>, s: Cell)
    requires WellFormed(b) && NbInRange(nb) && InRange(s, GoSize)
    ensures Connected(b, nb, s, s)
  {
    assert IsChain(b, nb, [s]);
  }

  lemma ConnectedColor(b: GoBoard, nb: Cell -> seq<Cell>, s: Cell, t: Cell)
    requires WellFormed(b) && NbInRange(nb) && Connected(b, nb, s, t)
    ensures InRange(t, GoSize) && At(b, t) == At(b, s)
  {
  }

  /** A chain grows by one same-coloured neighbour. */
  lemma ConnectedStep(b: GoBoard, nb: Cell -> seq<Cell>, s: Cell, x: Cell, y: Cell)
    requires WellFormed(b) && NbInRange(nb) && InRange(x, GoSize) && Connected(b, nb, s, x)
    requires y in nb(x) && At(b, y) == At(b, x)
    ensures Connected(b, nb, s, y)
  {
    var p :| IsChain(b, nb, p) && p[0] == s && p[|p| - 1] == x;
    var q := p + [y];
    assert q[|q| - 1] == y && q[0] == s;
    assert IsChain(b, nb, q);
  }

  /** No same-coloured neighbour of a stone of `S` lies outside `S`. */
  ghost predicate Closed(b: GoBoard, nb: Cell -> seq<Cell>, S: set<Cell>, color: Stone)
    requires WellFormed(b) && NbInRange(nb) && S <= AllCells(GoSize)
  {
    forall x, y {:trigger y in nb(x), x in S} :: x in S && y in nb(x) && At(b, y) == color ==> y in S
  }

  lemma {:induction false} ChainStaysInClosed(b: GoBoard, nb: Cell -> seq<Cell>, p: seq<Cell>, S: set<Cell>)
    requires WellFormed(b) && NbInRange(nb) && S <= AllCells(GoSize) && IsChain(b, nb, p)
    requires p[0] in S && Closed(b, nb, S, At(b, p[0]))
    ensures p[|p| - 1] in S
    decreases |p|
  {
    if |p| > 1 {
      var q := p[..|p| - 1];
      assert IsChain(b, nb, q);
      ChainStaysInClosed(b, nb, q, S);
      assert p[|p| - 1] in nb(p[|p| - 2]);
    }
  }

  /** Ghost bookkeeping of the search in getGroup: every cell ever pushed
      records the group cell it was pushed from, one step closer to `s`. */
  ghost predicate SearchTree(b: GoBoard, nb: Cell -> seq<Cell>, s: Cell, group: set<Cell>,
                             parent: map<Cell, Cell>, depth: map<Cell, nat>)
    requires WellFormed(b) && NbInRange(nb)
  {
    s in parent && s in depth && depth[s] == 0 &&
    forall x {:trigger parent[x]} :: x in parent && x != s ==>
      x in depth && parent[x] in group && parent[x] in depth && depth[parent[x]] < depth[x] &&
      InRange(parent[x], GoSize) && x in nb(parent[x])
  }

  /** Every group cell of a search tree is connected to the root. */
  lemma {:induction false} TreeConnected(b: GoBoard, nb: Cell -> seq<Cell>, s: Cell, group: set<Cell>,
                                         parent: map<Cell, Cell>, depth: map<Cell, nat>, x: Cell)
    requires WellFormed(b) && NbInRange(nb) && InRange(s, GoSize) && SearchTree(b, nb, s, group, parent, depth)
    requires forall y :: y in group ==> y in parent && At(b, y) == At(b, s)
    requires x in group
    ensures Connected(b, nb, s, x)
    decreases depth[x]
  {
    if x == s {
      ConnectedSelf(b, nb, s);
    } else {
      var p := parent[x];
      TreeConnected(b, nb, s, group, parent, depth, p);
      ConnectedStep(b, nb, s, p, x);
    }
  }

  /** Every same-coloured neighbour of the group found so far is in the
      group or still waiting on the stack. */
  ghost predicate Frontier(b: GoBoard, nb: Cell -> seq<Cell>, color: Stone, group: set<Cell>, stack: seq<Cell>)
    requires WellFormed(b) && NbInRange(nb)
  {
    forall x, y {:trigger y in nb(x), x in group} :: x in group && y in nb(x) && At(b, y) == color ==>
      y in group || y in stack
  }

  /** Popping a cell that is already in the group, or has another colour,
      keeps the frontier. */
  lemma FrontierPop(b: GoBoard, nb: Cell -> seq<Cell>, color: Stone, group: set<Cell>, stack: seq<Cell>, top: Cell)
    requires WellFormed(b) && NbInRange(nb) && InRange(top, GoSize)
    requires Frontier(b, nb, color, group, stack + [top])
    requires top in group || At(b, top) != color
    ensures Frontier(b, nb, color, group, stack)
  {
    forall x, y | x in group && y in nb(x) && At(b, y) == color
      ensures y in group || y in stack
    {
      assert y in group || y in stack + [top];
    }
  }

  /** Adding the popped cell to the group and pushing its neighbours keeps
      the frontier. */
  lemma FrontierPush(b: GoBoard, nb: Cell -> seq<Cell>, color: Stone, group: set<Cell>, stack: seq<Cell>, top: Cell,
                     stack': seq<Cell>)
    requires WellFormed(b) && NbInRange(nb)
    requires Frontier(b, nb, color, group, stack + [top])
    requires forall y :: y in stack ==> y in stack'
    requires forall y :: y in nb(top) && At(b, y) == color ==> y in group + {top} || y in stack'
    ensures Frontier(b, nb, color, group + {top}, stack')
  {
    forall x, y | x in group + {top} && y in nb(x) && At(b, y) == color
      ensures y in group + {top} || y in stack'
    {
      if x in group {
        assert y in group || y in stack + [top];
      }
    }
  }

  /** `getGroup`: a depth-first search with an explicit stack. */
  method GetGroup(b: GoBoard, nb: Cell -> seq<Cell>, row: int, col: int) returns (group: set<Cell>)
    requires WellFormed(b) && NbInRange(nb) && InRange(Cell(row, col), GoSize)
    ensures group == Group(b, nb, Cell(row, col))
  {
    var color := b[row][col];
    if color == None {
      return {};
    }
    var s := Cell(row, col);
    group := {};
    var stack := [s];
    ghost var parent := map[s := s];
    ghost var depth: map<Cell, nat> := map[s := 0];
    while |stack| > 0
      invariant group <= AllCells(GoSize)
      invariant SearchTree(b, nb, s, group, parent, depth)
      invariant forall x :: x in group ==> x in parent && At(b, x) == color
      invariant forall y :: y in stack ==> InRange(y, GoSize) && y in parent
      invariant group == {} ==> stack == [s]
      invariant group != {} ==> s in group
      invariant Frontier(b, nb, color, group, stack)
      decreases AllCells(GoSize) - group, |stack|
    {
      var top := stack[|stack| - 1];
      ghost var before := stack;
      stack := stack[..|stack| - 1];
      assert before == stack + [top] && top in before;
      assert group == {} ==> top == s && stack == [];
      if top in group || b[top.row][top.col] != color {
        FrontierPop(b, nb, color, group, stack, top);
        continue;
      }
      ghost var rest, found := stack, group;
      group := group + {top};
      stack, parent, depth := PushNeighbors(b, nb, color, group, top, stack, s, parent, depth);
      FrontierPush(b, nb, color, found, rest, top, stack);
    }
    GroupFound(b, nb, s, group, parent, depth);
  }

  /** The inner loop of getGroup: push every neighbour of `top` that has the
      group's colour and is not in the group yet. */
  method PushNeighbors(b: GoBoard, nb: Cell -> seq<Cell>, color: Stone, group: set<Cell>, top: Cell, stack: seq<Cell>,
                       ghost s: Cell, ghost parent: map<Cell, Cell>, ghost depth: map<Cell, nat>)
    returns (stack': seq<Cell>, ghost parent': map<Cell, Cell>, ghost depth': map<Cell, nat>)
    requires WellFormed(b) && NbInRange(nb) && InRange(top, GoSize) && top in group && top in parent
    requires SearchTree(b, nb, s, group, parent, depth)
    requires forall y :: y in stack ==> InRange(y, GoSize) && y in parent
    ensures SearchTree(b, nb, s, group, parent', depth')
    ensures parent.Keys <= parent'.Keys
    ensures forall y :: y in stack ==> y in stack'
    ensures forall y :: y in stack' ==> InRange(y, GoSize) && y in parent'
    ensures forall y :: y in nb(top) && At(b, y) == color ==> y in group || y in stack'
  {
    var ns := nb(top);
    stack', parent', depth' := stack, parent, depth;
    for i := 0 to |ns|
      invariant SearchTree(b, nb, s, group, parent', depth')
      invariant parent.Keys <= parent'.Keys
      invariant forall y :: y in stack ==> y in stack'
      invariant forall y :: y in stack' ==> InRange(y, GoSize) && y in parent'
      invariant forall j :: 0 <= j < i && At(b, ns[j]) == color ==> ns[j] in group || ns[j] in stack'
    {
      var n := ns[i];
      if n !in group && b[n.row][n.col] == color {
        if n !in parent' {
          parent' := parent'[n := top];
          depth' := depth'[n := depth'[top] + 1];
        }
        stack' := stack' + [n];
      }
    }
  }

  /** When the search stops, the group is closed and every cell in it is
      connected to the start: it is the group of the start. */
  lemma GroupFound(b: GoBoard, nb: Cell -> seq<Cell>, s: Cell, group: set<Cell>,
                   parent: map<Cell, Cell>, depth: map<Cell, nat>)
    requires WellFormed(b) && NbInRange(nb) && InRange(s, GoSize) && At(b, s) != None
    requires group <= AllCells(GoSize) && s in group
    requires SearchTree(b, nb, s, group, parent, depth)
    requires forall x :: x in group ==> x in parent && At(b, x) == At(b, s)
    requires Closed(b, nb, group, At(b, s))
    ensures group == Group(b, nb, s)
  {
    forall t | t in AllCells(GoSize) && Connected(b, nb, s, t)
      ensures t in group
    {
      var p :| IsChain(b, nb, p) && p[0] == s && p[|p| - 1] == t;
      ChainStaysInClosed(b, nb, p, group);
    }
    forall t | t in group
      ensures Connected(b, nb, s, t)
    {
      TreeConnected(b, nb, s, group, parent, depth, t);
    }
  }

  // ---------------------------------------------------------------------------
  // getLiberties and removeGroup

  /** The empty points next to some stone of `group`. */
  ghost function Liberties(b: GoBoard, nb: Cell -> seq<Cell>, group: set<Cell>): (libs: set<Cell>)
    requires WellFormed(b) && NbInRange(nb) && group <= AllCells(GoSize)
    ensures libs <= AllCells(GoSize)
  {
    set x, y {:trigger y in nb(x), x in group} | x in group && y in nb(x) && At(b, y) == None :: y
  }

  /** The empty points next to the one stone `x`. */
  ghost function EmptyAround(b: GoBoard, nb: Cell -> seq<Cell>, x: Cell): set<Cell>
    requires WellFormed(b) && NbInRange(nb)
  {
    set y | y in nb(x) && At(b, y) == None
  }

  /** The liberties of a group grow by the empty neighbours of each added stone. */
  lemma LibertiesAdd(b: GoBoard, nb: Cell -> seq<Cell>, S: set<Cell>, x: Cell)
    requires WellFormed(b) && NbInRange(nb) && S <= AllCells(GoSize) && InRange(x, GoSize)
    ensures Liberties(b, nb, S + {x}) == Liberties(b, nb, S) + EmptyAround(b, nb, x)
  {
  }

  /** A group has no liberty exactly when every neighbour of every stone of
      it is occupied. */
  lemma NoLibertiesIffSurrounded(b: GoBoard, nb: Cell -> seq<Cell>, group: set<Cell>)
    requires WellFormed(b) && NbInRange(nb) && group <= AllCells(GoSize)
    ensures |Liberties(b, nb, group)| == 0 <==>
      forall x, y {:trigger y in nb(x), x in group} :: x in group && y in nb(x) ==> At(b, y) != None
  {
    forall x, y | x in group && y in nb(x) && At(b, y) == None
      ensures y in Liberties(b, nb, group)
    {
    }
    if |Liberties(b, nb, group)| != 0 {
      var y :| y in Liberties(b, nb, group);
    }
  }

  /** `getLiberties`: the number of distinct empty points next to the group. */
  method GetLiberties(b: GoBoard, nb: Cell -> seq<Cell>, group: set<Cell>) returns (n: nat)
    requires WellFormed(b) && NbInRange(nb) && group <= AllCells(GoSize)
    ensures n == |Liberties(b, nb, group)|
  {
    var liberties: set<Cell> := {};
    var rest := group;
    while rest != {}
      invariant rest <= group
      invariant liberties == Liberties(b, nb, group - rest)
      decreases |rest|
    {
      var pos :| pos in rest;
      liberties := AddEmptyAround(b, nb, pos, liberties);
      LibertiesAdd(b, nb, group - rest, pos);
      assert group - (rest - {pos}) == (group - rest) + {pos};
      rest := rest - {pos};
    }
    assert group - rest == group;
    n := |liberties|;
  }

  /** The inner loop of getLiberties: add the empty neighbours of `pos`. */
  method AddEmptyAround(b: GoBoard, nb: Cell -> seq<Cell>, pos: Cell, liberties: set<Cell>)
    returns (liberties': set<Cell>)
    requires WellFormed(b) && NbInRange(nb)
    ensures liberties' == liberties + EmptyAround(b, nb, pos)
  {
    var ns := nb(pos);
    liberties' := liberties;
    for i := 0 to |ns|
      invariant forall y :: y in liberties' <==> y in liberties || (y in ns[..i] && At(b, y) == None)
    {
      if b[ns[i].row][ns[i].col] == None {
        liberties' := liberties' + {ns[i]};
      }
    }
    assert ns[..|ns|] == ns;
  }

  /** The board with every cell of `g` emptied. */
  function Cleared(b: GoBoard, g: set<Cell>): GoBoard
    requires WellFormed(b)
  {
    seq(GoSize, r requires 0 <= r < GoSize =>
      seq(GoSize, k requires 0 <= k < GoSize => if Cell(r, k) in g then None else b[r][k]))
  }

  /** Cleared empties exactly the cells of `g`. */
  lemma ClearedCells(b: GoBoard, g: set<Cell>)
    requires WellFormed(b)
    ensures WellFormed(Cleared(b, g))
    ensures forall c :: InRange(c, GoSize) ==> At(Cleared(b, g), c) == if c in g then None else At(b, c)
  {
  }

  /** Emptying one more cell extends the cleared set by that cell. */
  lemma ClearedStep(b: GoBoard, S: set<Cell>, p: Cell)
    requires WellFormed(b) && InRange(p, GoSize)
    ensures WellFormed(Cleared(b, S))
    ensures Put(Cleared(b, S), p, None) == Cleared(b, S + {p})
  {
    SameBoard(Put(Cleared(b, S), p, None), Cleared(b, S + {p}), GoSize);
  }

  /** `removeGroup`: empty every cell of the group and count them. */
  method RemoveGroup(b: GoBoard, group: set<Cell>) returns (b': GoBoard, count: nat)
    requires WellFormed(b) && group <= AllCells(GoSize)
    ensures b' == Cleared(b, group)
    ensures count == |group|
  {
    SameBoard(b, Cleared(b, {}), GoSize);
    b', count := b, 0;
    var rest := group;
    ghost var done: set<Cell> := {};
    while rest != {}
      invariant rest !! done && rest + done == group
      invariant b' == Cleared(b, done)
      invariant count == |done|
      decreases |rest|
    {
      var pos :| pos in rest;
      ClearedStep(b, done, pos);
      b' := Put(b', pos, None);
      count := count + 1;
      done := done + {pos};
      rest := rest - {pos};
    }
  }

  // ---------------------------------------------------------------------------
  // Captures around a placed stone

  /** The capture loop of `isValidGoMove` and `placeGoStone` over the
      neighbour list `ns`: each neighbour still holding an opponent stone
      whose group has no liberty loses its group.  The result is the board,
      the number of stones removed and whether anything was removed. */
  ghost function CaptureFrom(b: GoBoard, nb: Cell -> seq<Cell>, ns: seq<Cell>, opp: Color): (r: (GoBoard, nat, bool))
    requires WellFormed(b) && NbInRange(nb) && forall c :: c in ns ==> InRange(c, GoSize)
    ensures WellFormed(r.0)
    decreases |ns|
  {
    if ns == [] then (b, 0, false)
    else
      var n := ns[0];
      assert n in ns && InRange(n, GoSize) && |b| == GoSize && |b[n.row]| == GoSize;
      if At(b, n) == Some(opp) && |Liberties(b, nb, Group(b, nb, n))| == 0 then
        var g := Group(b, nb, n);
        var rest := CaptureFrom(Cleared(b, g), nb, ns[1..], opp);
        (rest.0, |g| + rest.1, true)
      else
        CaptureFrom(b, nb, ns[1..], opp)
  }

  /** The cells whose content differs between two boards. */
  ghost function Changed(b: GoBoard, b': GoBoard): set<Cell>
    requires WellFormed(b) && WellFormed(b')
  {
    set c | c in AllCells(GoSize) && At(b, c) != At(b', c)
  }

  /** Emptying the stones of `g` and then only emptying stones: the cells
      changed overall are `g` and, apart from it, those changed afterwards. */
  lemma ClearedChanged(b: GoBoard, g: set<Cell>, b2: GoBoard)
    requires WellFormed(b) && WellFormed(b2) && g <= AllCells(GoSize)
    requires forall c :: c in g ==> At(b, c) != None
    requires forall c :: InRange(c, GoSize) && At(Cleared(b, g), c) == None ==> At(b2, c) == None
    ensures WellFormed(Cleared(b, g))
    ensures Changed(b, b2) == g + Changed(Cleared(b, g), b2)
    ensures g !! Changed(Cleared(b, g), b2)
  {
    ClearedCells(b, g);
  }

  /** Capturing only empties opponent stones. */
  lemma {:induction false} CaptureOnlyEmpties(b: GoBoard, nb: Cell -> seq<Cell>, ns: seq<Cell>, opp: Color)
    requires WellFormed(b) && NbInRange(nb) && forall c :: c in ns ==> InRange(c, GoSize)
    ensures var r0 := CaptureFrom(b, nb, ns, opp).0;
      forall c :: InRange(c, GoSize) ==> At(r0, c) == At(b, c) || (At(b, c) == Some(opp) && At(r0, c) == None)
    decreases |ns|
  {
    if ns != [] {
      var n := ns[0];
      assert n in ns;
      assert forall c :: c in ns[1..] ==> c in ns;
      if At(b, n) == Some(opp) && |Liberties(b, nb, Group(b, nb, n))| == 0 {
        var g := Group(b, nb, n);
        ClearedCells(b, g);
        CaptureOnlyEmpties(Cleared(b, g), nb, ns[1..], opp);
      } else {
        CaptureOnlyEmpties(b, nb, ns[1..], opp);
      }
    }
  }

  /** The count is exactly the number of stones removed, and something was
      captured iff the count is positive. */
  lemma {:induction false} CaptureCount(b: GoBoard, nb: Cell -> seq<Cell>, ns: seq<Cell>, opp: Color)
    requires WellFormed(b) && NbInRange(nb) && forall c :: c in ns ==> InRange(c, GoSize)
    ensures var r := CaptureFrom(b, nb, ns, opp);
      r.1 == |Changed(b, r.0)| && (r.2 <==> r.1 > 0)
    decreases |ns|
  {
    if ns != [] {
      var n := ns[0];
      assert n in ns;
      assert forall c :: c in ns[1..] ==> c in ns;
      if At(b, n) == Some(opp) && |Liberties(b, nb, Group(b, nb, n))| == 0 {
        var g := Group(b, nb, n);
        var b1 := Cleared(b, g);
        CaptureCount(b1, nb, ns[1..], opp);
        CaptureOnlyEmpties(b1, nb, ns[1..], opp);
        ClearedChanged(b, g, CaptureFrom(b1, nb, ns[1..], opp).0);
        assert n in g;
      } else {
        CaptureCount(b, nb, ns[1..], opp);
      }
    }
  }

  /** When something was captured, some neighbour in `ns` held an opponent
      stone and is now empty. */
  lemma {:induction false} CaptureWitness(b: GoBoard, nb: Cell -> seq<Cell>, ns: seq<Cell>, opp: Color)
    requires WellFormed(b) && NbInRange(nb) && forall c :: c in ns ==> InRange(c, GoSize)
    ensures var r := CaptureFrom(b, nb, ns, opp);
      r.2 ==> exists c :: c in ns && At(b, c) == Some(opp) && At(r.0, c) == None
    decreases |ns|
  {
    if ns != [] {
      var n := ns[0];
      assert n in ns;
      assert forall c :: c in ns[1..] ==> c in ns;
      if At(b, n) == Some(opp) && |Liberties(b, nb, Group(b, nb, n))| == 0 {
        var g := Group(b, nb, n);
        ClearedCells(b, g);
        CaptureOnlyEmpties(Cleared(b, g), nb, ns[1..], opp);
        assert At(CaptureFrom(b, nb, ns, opp).0, n) == None;
      } else {
        CaptureWitness(b, nb, ns[1..], opp);
      }
    }
  }

  /** The capture loop over the neighbours of (row, col). */
  method CaptureAround(b: GoBoard, nb: Cell -> seq<Cell>, row: int, col: int, opp: Color)
    returns (b': GoBoard, total: nat, any: bool)
    requires WellFormed(b) && NbInRange(nb) && InRange(Cell(row, col), GoSize)
    ensures (b', total, any) == CaptureFrom(b, nb, nb(Cell(row, col)), opp)
  {
    var ns := nb(Cell(row, col));
    b', total, any := b, 0, false;
    for i := 0 to |ns|
      invariant WellFormed(b')
      invariant var r := CaptureFrom(b', nb, ns[i..], opp);
        CaptureFrom(b, nb, ns, opp) == (r.0, total + r.1, any || r.2)
    {
      assert ns[i..][0] == ns[i] && ns[i..][1..] == ns[i + 1..];
      var n := ns[i];
      if b'[n.row][n.col] == Some(opp) {
        var group := GetGroup(b', nb, n.row, n.col);
        var libs := GetLiberties(b', nb, group);
        if libs == 0 {
          var removed;
          b', removed := RemoveGroup(b', group);
          total := total + removed;
          any := true;
        }
      }
    }
  }

  // ---------------------------------------------------------------------------
  // isValidGoMove and placeGoStone

  /** The board after `color` plays on `cell` and captures, the number of
      stones captured, and whether anything was captured. */
  ghost function Placement(b: GoBoard, nb: Cell -> seq<Cell>, cell: Cell, color: Color): (r: (GoBoard, nat, bool))
    requires WellFormed(b) && NbInRange(nb) && InRange(cell, GoSize)
    ensures WellFormed(r.0)
  {
    PutCells(b, cell, Some(color));
    CaptureFrom(Put(b, cell, Some(color)), nb, nb(cell), color.Opponent())
  }

  /** The number of liberties of the group through `cell`. */
  ghost function LibertyCount(t: GoBoard, nb: Cell -> seq<Cell>, cell: Cell): nat
    requires WellFormed(t) && NbInRange(nb) && InRange(cell, GoSize)
  {
    |Liberties(t, nb, Group(t, nb, cell))|
  }

  /** `isValidGoMove`: the point is empty, the move is not suicide (its group
      keeps a liberty or it captured something), and the resulting board is
      not the string recorded before the previous move. */
  ghost predicate ValidPlacement(b: GoBoard, nb: Cell -> seq<Cell>, cell: Cell, color: Color, prev: Option<string>)
    requires WellFormed(b) && NbInRange(nb) && InRange(cell, GoSize)
  {
    At(b, cell) == None &&
    var r := Placement(b, nb, cell, color);
    (LibertyCount(r.0, nb, cell) != 0 || r.2) &&
    prev != Some(BoardToString(r.0))
  }

  method IsValidGoMove(b: GoBoard, nb: Cell -> seq<Cell>, row: int, col: int, color: Color, prev: Option<string>)
    returns (ok: bool)
    requires WellFormed(b) && NbInRange(nb) && InRange(Cell(row, col), GoSize)
    ensures ok == ValidPlacement(b, nb, Cell(row, col), color, prev)
  {
    if b[row][col] != None {
      return false;
    }
    var testBoard := Put(b, Cell(row, col), Some(color));
    PutCells(b, Cell(row, col), Some(color));
    var opponent := color.Opponent();
    var captured, capturedAny;
    testBoard, captured, capturedAny := CaptureAround(testBoard, nb, row, col, opponent);
    var ourGroup := GetGroup(testBoard, nb, row, col);
    var libs := GetLiberties(testBoard, nb, ourGroup);
    if libs == 0 && !capturedAny {
      return false;
    }
    var newBoardState := BoardToString(testBoard);
    if prev == Some(newBoardState) {
      return false;
    }
    return true;
  }

  /** The stone just played is never captured by its own move. */
  lemma PlacedStoneStays(b: GoBoard, nb: Cell -> seq<Cell>, cell: Cell, color: Color)
    requires WellFormed(b) && NbInRange(nb) && InRange(cell, GoSize)
    ensures At(Placement(b, nb, cell, color).0, cell) == Some(color)
  {
    PutCells(b, cell, Some(color));
    CaptureOnlyEmpties(Put(b, cell, Some(color)), nb, nb(cell), color.Opponent());
  }

  /** After an accepted move the group of the new stone has a liberty:
      either it had one, or a captured neighbour left an empty point. */
  lemma ValidMoveLeavesLiberty(b: GoBoard, nb: Cell -> seq<Cell>, cell: Cell, color: Color, prev: Option<string>)
    requires WellFormed(b) && NbInRange(nb) && InRange(cell, GoSize)
    requires ValidPlacement(b, nb, cell, color, prev)
    ensures LibertyCount(Placement(b, nb, cell, color).0, nb, cell) > 0
  {
    var r := Placement(b, nb, cell, color);
    var ns := nb(cell);
    PutCells(b, cell, Some(color));
    CaptureWitness(Put(b, cell, Some(color)), nb, ns, color.Opponent());
    if r.2 {
      var c :| c in ns && At(r.0, c) == None;
      PlacedStoneStays(b, nb, cell, color);
      assert c in Liberties(r.0, nb, Group(r.0, nb, cell));
    }
  }

  /** The ko check rejects a move exactly when the board it produces equals
      the board before the previous move. */
  lemma KoIsBoardRepeat(b: GoBoard, nb: Cell -> seq<Cell>, cell: Cell, color: Color, before: GoBoard)
    requires WellFormed(b) && NbInRange(nb) && WellFormed(before) && InRange(cell, GoSize)
    ensures var r := Placement(b, nb, cell, color);
      ValidPlacement(b, nb, cell, color, Some(BoardToString(before))) <==>
        At(b, cell) == None && (LibertyCount(r.0, nb, cell) != 0 || r.2) && r.0 != before
  {
    BoardToStringInjective(Placement(b, nb, cell, color).0, before);
  }

  /** The board work of `placeGoStone`: validate, then play and capture on
      a copy; `previous` is the string of the board before the move. */
  method PlayStone(b: GoBoard, nb: Cell -> seq<Cell>, cell: Cell, color: Color, prev: Option<string>)
    returns (placed: bool, next: GoBoard, captured: nat, previous: string)
    requires WellFormed(b) && NbInRange(nb) && InRange(cell, GoSize)
    ensures placed == ValidPlacement(b, nb, cell, color, prev)
    ensures WellFormed(next)
    ensures placed ==> (next, captured) == (Placement(b, nb, cell, color).0, Placement(b, nb, cell, color).1)
    ensures placed ==> previous == BoardToString(b)
  {
    next, captured, previous := b, 0, "";
    placed := IsValidGoMove(b, nb, cell.row, cell.col, color, prev);
    if !placed {
      return;
    }
    previous := BoardToString(b);
    next := Put(b, cell, Some(color));
    PutCells(b, cell, Some(color));
    var capturedAny;
    next, captured, capturedAny := CaptureAround(next, nb, cell.row, cell.col, color.Opponent());
  }

  /** The module-level Go state of src/main.ts.  `setGameMode` resets the
      game, so a session keeps one board shape and its neighbour function. */
  class GoSession {
    var board: GoBoard
    var turn: Color
    var gameOver: bool
    var passes: nat
    var capturesBlack: nat
    var capturesWhite: nat
    var lastMove: Option<Cell>
    var previousState: Option<string>
    var history: seq<string>
    const mode: Mode
    /** `getNeighbors` for `mode`. */
    const nb: Cell -> seq<Cell>

    ghost predicate Valid()
      reads this
    {
      WellFormed(board) && NbInRange(nb)
    }

    /** `setGameMode(mode)` followed by `initGo`. */
    constructor (mode: Mode)
      ensures Valid() && this.mode == mode && nb == Neighbors(mode) && Fresh()
    {
      this.mode := mode;
      nb := Neighbors(mode);
      NeighborsInRange(mode);
      board := CreateInitialGoBoard();
      turn := Black;
      gameOver := false;
      passes := 0;
      capturesBlack, capturesWhite := 0, 0;
      lastMove := None;
      previousState := None;
      history := [];
    }

    /** The state `initGo` establishes: an empty board, black to move and
        all counters, the ko string and the history cleared. */
    ghost predicate Fresh()
      reads this
    {
      board == CreateInitialGoBoard() && turn == Black && !gameOver && passes == 0 &&
      capturesBlack == 0 && capturesWhite == 0 && lastMove == None &&
      previousState == None && history == []
    }

    /** `initGo`. */
    method InitGo()
      requires Valid()
      modifies this
      ensures Valid() && Fresh()
    {
      board := CreateInitialGoBoard();
      turn := Black;
      gameOver := false;
      passes := 0;
      capturesBlack, capturesWhite := 0, 0;
      lastMove := None;
      previousState := None;
      history := [];
    }

    /** `placeGoStone`: play for the side to move if the move is valid;
        capture, credit the captures, remember the ko string and the history,
        reset the pass counter and hand the turn over. */
    method PlaceGoStone(row: int, col: int) returns (placed: bool)
      requires Valid() && InRange(Cell(row, col), GoSize)
      modifies this
      ensures Valid()
      ensures placed == ValidPlacement(old(board), nb, Cell(row, col), old(turn), old(previousState))
      ensures !placed ==> unchanged(this)
      ensures placed ==>
        var r := Placement(old(board), nb, Cell(row, col), old(turn));
        board == r.0 &&
        capturesBlack == old(capturesBlack) + (if old(turn) == Black then r.1 else 0) &&
        capturesWhite == old(capturesWhite) + (if old(turn) == White then r.1 else 0) &&
        lastMove == Some(Cell(row, col)) &&
        previousState == Some(BoardToString(old(board))) &&
        history == old(history) + [BoardToString(r.0)] &&
        passes == 0 && turn == old(turn).Opponent() &&
        gameOver == old(gameOver)
    {
      var next, totalCaptured, previous;
      placed, next, totalCaptured, previous := PlayStone(board, nb, Cell(row, col), turn, previousState);
      if !placed {
        return;
      }
      var black, white := capturesBlack, capturesWhite;
      if totalCaptured > 0 {
        if turn == Black {
          black := black + totalCaptured;
        } else {
          white := white + totalCaptured;
        }
      }
      Commit(next, black, white, Some(Cell(row, col)), Some(previous), history + [BoardToString(next)], turn.Opponent());
    }

    /** Record a played move: the fields `placeGoStone` assigns. */
    method Commit(next: GoBoard, black: nat, white: nat, last: Option<Cell>, prev: Option<string>, hist: seq<string>, side: Color)
      requires WellFormed(next)
      modifies this
      ensures board == next && capturesBlack == black && capturesWhite == white && lastMove == last
      ensures previousState == prev && history == hist && passes == 0 && turn == side
      ensures gameOver == old(gameOver)
    {
      board, capturesBlack, capturesWhite, lastMove, previousState, history, passes, turn :=
        next, black, white, last, prev, hist, 0, side;
    }

    /** `passGoTurn`: the second consecutive pass ends the game. */
    method PassGoTurn()
      requires Valid()
      modifies this
      ensures Valid()
      ensures old(gameOver) ==> unchanged(this)
      ensures !old(gameOver) ==>
        passes == old(passes) + 1 && lastMove == None &&
        gameOver == (passes >= 2) &&
        turn == (if passes >= 2 then old(turn) else old(turn).Opponent()) &&
        board == old(board) && capturesBlack == old(capturesBlack) && capturesWhite == old(capturesWhite) &&
        previousState == old(previousState) && history == old(history)
    {
      if gameOver {
        return;
      }
      passes := passes + 1;
      lastMove := None;
      if passes >= 2 {
        gameOver := true;
        return;
      }
      turn := turn.Opponent();
    }

    /** `handleGoIntersectionClick`: a finished game ignores clicks. */
    method HandleIntersectionClick(row: int, col: int)
      requires Valid() && InRange(Cell(row, col), GoSize)
      modifies this
      ensures Valid()
      ensures old(gameOver) ==> unchanged(this)
      ensures !old(gameOver) ==>
        !gameOver &&
        if ValidPlacement(old(board), nb, Cell(row, col), old(turn), old(previousState)) then
          var r := Placement(old(board), nb, Cell(row, col), old(turn));
          board == r.0 &&
          capturesBlack == old(capturesBlack) + (if old(turn) == Black then r.1 else 0) &&
          capturesWhite == old(capturesWhite) + (if old(turn) == White then r.1 else 0) &&
          lastMove == Some(Cell(row, col)) &&
          previousState == Some(BoardToString(old(board))) &&
          history == old(history) + [BoardToString(r.0)] &&
          passes == 0 && turn == old(turn).Opponent()
        else
          unchanged(this)
    {
      if gameOver {
        return;
      }
      var placed := PlaceGoStone(row, col);
    }
  }
}
