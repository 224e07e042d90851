/** hexagon-chess.js: Gliński's hexagonal board as a map from algebraic
    positions to pieces.  The board tables, the algebraic conversions, the
    three-colour cell pattern, the start position and the select/move logic
    of a click; every move generator is still a stub. */
module HexChess {
  import opened Util
  import opened Pieces
  import opened JsText
  import JsMath

  /** `files`: `'abcdefghijkl'.split('')`. */
  const Files: seq<char> := ['a', 'b', 'c', 'd', 'e', 'f', 'g', 'h', 'i', 'j', 'k', 'l']

  lemma FilesDistinct()
    ensures forall j, k :: 0 <= j < k < |Files| ==> Files[j] != Files[k]
  {
  }

  // ---------------------------------------------------------------------------
  // Algebraic notation

  /** `{ x, y }` as algebraicToCoords builds it; `y == None` is NaN. */
  datatype Coords = Coords(x: int, y: Option<int>)

  /** `algebraicToCoords(algebraic)`: the index of the first character among
      the files and the number after it, minus one. */
  function AlgebraicToCoords(algebraic: string): Coords
  {
    var x := if |algebraic| == 0 then -1 else IndexOf(Files, algebraic[0]);
    var rank := ParseInt(if |algebraic| == 0 then [] else algebraic[1..]);
    Coords(x, if rank.Some? then Some(rank.value - 1) else None)
  }

  /** `coordsToAlgebraic(x, y)`: `files[x] + (y + 1)`; a missing file is
      written `undefined`. */
  function CoordsToAlgebraic(x: int, y: int): string
  {
    (if 0 <= x < |Files| then [Files[x]] else "undefined") + NumberToString(y + 1)
  }

  /** Converting coordinates to algebraic notation and back gives the
      coordinates again, for every file and every row. */
  lemma AlgebraicRoundTrip(x: int, y: int)
    requires 0 <= x < |Files|
    ensures AlgebraicToCoords(CoordsToAlgebraic(x, y)) == Coords(x, Some(y))
  {
    FilesDistinct();
    IndexOfDistinct(Files, x);
    var s := CoordsToAlgebraic(x, y);
    assert s[1..] == NumberToString(y + 1);
    ParseNumber(y + 1);
  }

  /** Outside the twelve files the written square reads back with no file. */
  lemma AlgebraicNoFile(x: int, y: int)
    requires !(0 <= x < |Files|)
    ensures AlgebraicToCoords(CoordsToAlgebraic(x, y)).x == -1
  {
    var tail := NumberToString(y + 1);
    var s := CoordsToAlgebraic(x, y);
    assert s == "undefined" + tail;
    assert s[0] == 'u' && 'u' !in Files;
  }

  /** A file letter followed by a written number converts to coordinates and
      back to the same string. */
  lemma CoordsRoundTrip(f: char, n: int)
    requires f in Files
    ensures var c := AlgebraicToCoords([f] + NumberToString(n));
      c.y.Some? && 0 <= c.x < |Files| && CoordsToAlgebraic(c.x, c.y.value) == [f] + NumberToString(n)
  {
    var s := [f] + NumberToString(n);
    assert s[1..] == NumberToString(n);
    ParseNumber(n);
  }

  // ---------------------------------------------------------------------------
  // The board tables

  /** A square: a file letter and a rank number, the two halves of the
      algebraic keys (`'e4'`) the source's board map uses. */
  datatype Pos = Pos(file: char, rank: int)

  /** The key string of a square. */
  function Name(p: Pos): string
  {
    [p.file] + NumberToString(p.rank)
  }

  /** Distinct squares have distinct key strings, so keying the board by
      squares keys it as the source does. */
  lemma NameInjective(p: Pos, q: Pos)
    requires Name(p) == Name(q)
    ensures p == q
  {
    assert Name(p)[1..] == NumberToString(p.rank);
    assert Name(q)[1..] == NumberToString(q.rank);
    ParseNumber(p.rank);
    ParseNumber(q.rank);
  }

  /** `boardLayout.rowStructure[rank]`: the files of each rank; no other rank
      has an entry. */
  function RowStructure(rank: int): seq<char>
  {
    if rank == 1 || rank == 7 then ['a', 'b', 'c', 'd', 'e', 'f', 'g', 'h', 'i', 'j', 'k']
    else if rank == 2 || rank == 8 then ['b', 'c', 'd', 'e', 'f', 'g', 'h', 'i', 'j']
    else if rank == 3 || rank == 6 || rank == 9 then ['c', 'd', 'e', 'f', 'g', 'h', 'i']
    else if rank == 4 || rank == 10 then ['d', 'e', 'f', 'g', 'h']
    else if rank == 5 || rank == 11 then ['e', 'f', 'g']
    else []
  }

  /** Each rank lists its files in alphabetical order, so none twice. */
  lemma RowStructureOrdered(rank: int)
    ensures forall j, k :: 0 <= j < k < |RowStructure(rank)| ==> RowStructure(rank)[j] < RowStructure(rank)[k]
  {
    var row := RowStructure(rank);
    assert forall i :: 0 <= i < |row| - 1 ==> row[i] < row[i + 1];
    AscendingSorted(row);
  }

  lemma AscendingSorted(xs: seq<char>)
    requires forall i :: 0 <= i < |xs| - 1 ==> xs[i] < xs[i + 1]
    ensures forall j, k :: 0 <= j < k < |xs| ==> xs[j] < xs[k]
  {
    forall j, k | 0 <= j < k < |xs|
      ensures xs[j] < xs[k]
    {
      var m := j;
      while m < k
        invariant j <= m <= k && xs[j] <= xs[m]
        invariant m > j ==> xs[j] < xs[m]
      {
        m := m + 1;
      }
    }
  }

  /** The files `validPositions` lists for one rank, in its order. */
  function ListedFiles(rank: int): seq<char>
  {
    if rank == 11 then ['e', 'f', 'g']
    else if rank == 10 then ['d', 'e', 'f', 'g', 'h']
    else if rank == 9 then ['c', 'd', 'e', 'f', 'g', 'h', 'i']
    else if rank == 8 then ['b', 'c', 'd', 'e', 'f', 'g', 'h', 'i', 'j']
    else if rank == 7 then ['a', 'b', 'c', 'd', 'e', 'f', 'g', 'h', 'i', 'j', 'k']
    else if rank == 6 then ['c', 'd', 'e', 'f', 'g', 'h', 'i']
    else if rank == 1 then ['a', 'b', 'c', 'd', 'e', 'f', 'g', 'h', 'i', 'j', 'k']
    else if rank == 2 then ['b', 'c', 'd', 'e', 'f', 'g', 'h', 'i', 'j']
    else if rank == 3 then ['c', 'd', 'e', 'f', 'g', 'h', 'i']
    else if rank == 4 then ['d', 'e', 'f', 'g', 'h']
    else if rank == 5 then ['e', 'f', 'g']
    else []
  }

  /** The ranks in the order `validPositions` lists them. */
  const ListedRanks: seq<int> := [11, 10, 9, 8, 7, 6, 1, 2, 3, 4, 5]

  /** The squares of one rank whose files are `files`. */
  function SquaresOf(files: seq<char>, rank: int): set<Pos>
  {
    if |files| == 0 then {} else {Pos(files[0], rank)} + SquaresOf(files[1..], rank)
  }

  /** The squares `validPositions` lists for its first `n` ranks. */
  function Listed(n: nat): set<Pos>
    requires n <= |ListedRanks|
  {
    if n == 0 then {} else Listed(n - 1) + SquaresOf(ListedFiles(ListedRanks[n - 1]), ListedRanks[n - 1])
  }

  /** `validPositions`. */
  const ValidPositions: set<Pos> := Listed(|ListedRanks|)

  /** `isValidPosition(pos)`: membership in `validPositions`. */
  predicate IsValidPosition(p: Pos)
  {
    p in ValidPositions
  }

  lemma {:induction false} SquaresOfMember(files: seq<char>, rank: int, p: Pos)
    ensures p in SquaresOf(files, rank) <==> p.rank == rank && p.file in files
    decreases |files|
  {
    if |files| > 0 {
      SquaresOfMember(files[1..], rank, p);
      assert files == [files[0]] + files[1..];
    }
  }

  lemma {:induction false} ListedMember(n: nat, p: Pos)
    requires n <= |ListedRanks|
    ensures p in Listed(n) <==> p.rank in ListedRanks[..n] && p.file in ListedFiles(p.rank)
  {
    if n > 0 {
      var r := ListedRanks[n - 1];
      SquaresOfMember(ListedFiles(r), r, p);
      ListedMember(n - 1, p);
      assert ListedRanks[..n] == ListedRanks[..n - 1] + [r];
    }
  }

  /** For every rank the two tables list the same files. */
  lemma TablesAgree(rank: int)
    ensures ListedFiles(rank) == RowStructure(rank)
  {
  }

  /** The two tables agree: a square is in `validPositions` exactly when its
      rank is 1 to 11 and `rowStructure` lists its file for that rank. */
  lemma ValidPositionsByRow(p: Pos)
    ensures IsValidPosition(p) <==> 1 <= p.rank <= 11 && p.file in RowStructure(p.rank)
  {
    ListedMember(|ListedRanks|, p);
    assert ListedRanks[..|ListedRanks|] == ListedRanks;
    TablesAgree(p.rank);
    ListedRanksMember(p.rank);
  }

  /** The place of a rank in `ListedRanks`. */
  function RankPlace(rank: int): int
  {
    if rank >= 6 then 11 - rank else rank + 5
  }

  /** `validPositions` covers ranks 1 to 11, each once. */
  lemma ListedRanksMember(rank: int)
    ensures rank in ListedRanks <==> 1 <= rank <= 11
    ensures forall k :: 0 <= k < |ListedRanks| ==> RankPlace(ListedRanks[k]) == k
  {
    assert forall k :: 0 <= k < |ListedRanks| ==> 1 <= ListedRanks[k] <= 11;
    if 1 <= rank <= 11 {
      assert ListedRanks[RankPlace(rank)] == rank;
    }
  }

  /** The number of files listed for the first `n` ranks. */
  function FileCount(n: nat): nat
    requires n <= |ListedRanks|
  {
    if n == 0 then 0 else FileCount(n - 1) + |ListedFiles(ListedRanks[n - 1])|
  }

  /** A rank's squares are as many as its files when no file repeats. */
  lemma {:induction false} SquaresOfCard(files: seq<char>, rank: int)
    requires forall j, k :: 0 <= j < k < |files| ==> files[j] < files[k]
    ensures |SquaresOf(files, rank)| == |files|
    decreases |files|
  {
    if |files| > 0 {
      SquaresOfCard(files[1..], rank);
      SquaresOfMember(files[1..], rank, Pos(files[0], rank));
    }
  }

  /** The listed ranks contribute their squares side by side. */
  lemma {:induction false} ListedCard(n: nat)
    requires n <= |ListedRanks|
    ensures |Listed(n)| == FileCount(n)
  {
    if n > 0 {
      var r := ListedRanks[n - 1];
      ListedCard(n - 1);
      RowStructureOrdered(r);
      TablesAgree(r);
      SquaresOfCard(ListedFiles(r), r);
      ListedRanksMember(r);
      forall p | p in SquaresOf(ListedFiles(r), r)
        ensures p !in Listed(n - 1)
      {
        SquaresOfMember(ListedFiles(r), r, p);
        ListedMember(n - 1, p);
      }
    }
  }

  /** The board has 77 squares. */
  lemma ValidPositionCount()
    ensures |ValidPositions| == 77
  {
    ListedCard(|ListedRanks|);
    assert FileCount(|ListedRanks|) == 77;
  }

  // ---------------------------------------------------------------------------
  // Cell colours

  /** The three fills of `getCellColor`: `#DEB887`, `#D2691E`, `#8B4513`. */
  datatype Shade = LightBrown | MediumBrown | DarkBrown

  /** The `switch (colorSum)` of `getCellColor`: 0, 1 and 2 pick the three
      fills (the sum is never negative, so no other case arises). */
  function ShadeOfSum(colorSum: int): Shade
  {
    if colorSum == 0 then LightBrown else if colorSum == 1 then MediumBrown else DarkBrown
  }

  /** The fill for the square at place `fileIndex` of rank `rank`: the
      remainder of their sum by three picks it. */
  function ShadeOfPlace(fileIndex: int, rank: int): Shade
  {
    ShadeOfSum((fileIndex + rank) % 3)
  }

  /** `getCellColor(pos)`: `(fileIndex + rank) % 3` picks the fill, where
      `fileIndex` is the file's place in its rank's row.  The sum is never
      negative, so JavaScript's `%` is the mathematical remainder here. */
  function GetCellColor(p: Pos): (s: Shade)
    requires 1 <= p.rank <= 11
    ensures s == ShadeOfPlace(IndexOf(RowStructure(p.rank), p.file), p.rank)
  {
    var fileIndex := IndexOf(RowStructure(p.rank), p.file);
    ShadeOfSum(JsMath.Rem(fileIndex + p.rank, 3))
  }

  /** Side by side in a rank the three fills take turns: neighbours differ,
      and a square matches the one three files further on. */
  lemma ShadesAlternate(rank: int, i: int)
    requires 1 <= rank <= 11 && 0 <= i && i + 1 < |RowStructure(rank)|
    ensures GetCellColor(Pos(RowStructure(rank)[i], rank)) != GetCellColor(Pos(RowStructure(rank)[i + 1], rank))
    ensures i + 3 < |RowStructure(rank)| ==>
      GetCellColor(Pos(RowStructure(rank)[i], rank)) == GetCellColor(Pos(RowStructure(rank)[i + 3], rank))
  {
    ShadeAt(rank, i);
    ShadeAt(rank, i + 1);
    ShadeCycle(i, rank);
    if i + 3 < |RowStructure(rank)| {
      ShadeAt(rank, i + 3);
    }
  }

  /** The fill of the `j`-th square of a rank, by its place in the row. */
  lemma ShadeAt(rank: int, j: int)
    requires 1 <= rank <= 11 && 0 <= j < |RowStructure(rank)|
    ensures GetCellColor(Pos(RowStructure(rank)[j], rank)) == ShadeOfPlace(j, rank)
  {
    RowIndexOf(rank, j);
  }

  /** The fills cycle with period three along a row. */
  lemma ShadeCycle(i: int, rank: int)
    ensures ShadeOfPlace(i, rank) != ShadeOfPlace(i + 1, rank)
    ensures ShadeOfPlace(i, rank) == ShadeOfPlace(i + 3, rank)
  {
    ModThree(i + rank);
    assert (i + 1) + rank == (i + rank) + 1 && (i + 3) + rank == (i + rank) + 3;
  }

  /** `indexOf` finds each file of a rank at its own place. */
  lemma RowIndexOf(rank: int, j: int)
    requires 0 <= j < |RowStructure(rank)|
    ensures IndexOf(RowStructure(rank), RowStructure(rank)[j]) == j
  {
    RowStructureOrdered(rank);
    IndexOfDistinct(RowStructure(rank), j);
  }

  lemma ModThree(a: int)
    ensures 0 <= a % 3 < 3 && a % 3 != (a + 1) % 3 && a % 3 == (a + 3) % 3
  {
  }

  // ---------------------------------------------------------------------------
  // The start position

  /** The entries of `setup` in `initializeBoard`, in the source's order. */
  const Setup: seq<(Pos, Piece)> := [
    (Pos('a', 7), Piece(Pawn, Black)), (Pos('b', 7), Piece(Rook, Black)),
    (Pos('b', 8), Piece(Pawn, Black)), (Pos('c', 8), Piece(Knight, Black)),
    (Pos('c', 9), Piece(Pawn, Black)), (Pos('d', 9), Piece(Bishop, Black)),
    (Pos('d', 10), Piece(Pawn, Black)), (Pos('e', 10), Piece(Queen, Black)),
    (Pos('e', 11), Piece(Bishop, Black)), (Pos('f', 11), Piece(King, Black)),
    (Pos('g', 11), Piece(Bishop, Black)), (Pos('g', 10), Piece(Pawn, Black)),
    (Pos('h', 10), Piece(Bishop, Black)), (Pos('h', 9), Piece(Pawn, Black)),
    (Pos('i', 9), Piece(Knight, Black)), (Pos('i', 8), Piece(Pawn, Black)),
    (Pos('j', 8), Piece(Rook, Black)), (Pos('j', 7), Piece(Pawn, Black)),

    (Pos('a', 1), Piece(Pawn, White)), (Pos('b', 1), Piece(Rook, White)),
    (Pos('b', 2), Piece(Pawn, White)), (Pos('c', 2), Piece(Knight, White)),
    (Pos('c', 3), Piece(Pawn, White)), (Pos('d', 3), Piece(Bishop, White)),
    (Pos('d', 4), Piece(Pawn, White)), (Pos('e', 4), Piece(Queen, White)),
    (Pos('e', 5), Piece(Bishop, White)), (Pos('f', 5), Piece(King, White)),
    (Pos('g', 5), Piece(Bishop, White)), (Pos('g', 4), Piece(Pawn, White)),
    (Pos('h', 4), Piece(Bishop, White)), (Pos('h', 3), Piece(Pawn, White)),
    (Pos('i', 3), Piece(Knight, White)), (Pos('i', 2), Piece(Pawn, White)),
    (Pos('j', 2), Piece(Rook, White)), (Pos('j', 1), Piece(Pawn, White))
  ]

  /** The board after the first `n` of `entries` have been placed in
      order, each on its square. */
  ghost function Placed(entries: seq<(Pos, Piece)>, n: int): map<Pos, Piece>
    requires 0 <= n <= |entries|
  {
    if n == 0 then map[] else Placed(entries, n - 1)[entries[n - 1].0 := entries[n - 1].1]
  }

  /** The start position. */
  ghost function StartBoard(): map<Pos, Piece>
  {
    Placed(Setup, |Setup|)
  }

  /** No square appears in two entries. */
  ghost predicate DistinctSquares(entries: seq<(Pos, Piece)>)
  {
    forall i, j :: 0 <= i < j < |entries| ==> entries[i].0 != entries[j].0
  }

  /** The squares of `color`'s pieces on `b`. */
  ghost function SideSquares(b: map<Pos, Piece>, color: Color): set<Pos>
  {
    set p | p in b && b[p].color == color
  }

  /** The place of a square among the entries of `setup`, or -1. */
  function SetupIndex(p: Pos): int
  {
    if p == Pos('a', 7) then 0
    else if p == Pos('b', 7) then 1
    else if p == Pos('b', 8) then 2
    else if p == Pos('c', 8) then 3
    else if p == Pos('c', 9) then 4
    else if p == Pos('d', 9) then 5
    else if p == Pos('d', 10) then 6
    else if p == Pos('e', 10) then 7
    else if p == Pos('e', 11) then 8
    else if p == Pos('f', 11) then 9
    else if p == Pos('g', 11) then 10
    else if p == Pos('g', 10) then 11
    else if p == Pos('h', 10) then 12
    else if p == Pos('h', 9) then 13
    else if p == Pos('i', 9) then 14
    else if p == Pos('i', 8) then 15
    else if p == Pos('j', 8) then 16
    else if p == Pos('j', 7) then 17
    else if p == Pos('a', 1) then 18
    else if p == Pos('b', 1) then 19
    else if p == Pos('b', 2) then 20
    else if p == Pos('c', 2) then 21
    else if p == Pos('c', 3) then 22
    else if p == Pos('d', 3) then 23
    else if p == Pos('d', 4) then 24
    else if p == Pos('e', 4) then 25
    else if p == Pos('e', 5) then 26
    else if p == Pos('f', 5) then 27
    else if p == Pos('g', 5) then 28
    else if p == Pos('g', 4) then 29
    else if p == Pos('h', 4) then 30
    else if p == Pos('h', 3) then 31
    else if p == Pos('i', 3) then 32
    else if p == Pos('i', 2) then 33
    else if p == Pos('j', 2) then 34
    else if p == Pos('j', 1) then 35
    else -1
  }

  lemma BlackEntriesIndexed()
    ensures forall i :: 0 <= i < 18 ==> SetupIndex(Setup[i].0) == i
  {
  }

  lemma WhiteEntriesIndexed()
    ensures forall i :: 18 <= i < 36 ==> SetupIndex(Setup[i].0) == i
  {
    forall i | 18 <= i < 36
      ensures SetupIndex(Setup[i].0) == i
    {
      var e := Setup[i].0;
      assert e == Pos(e.file, e.rank);
    }
  }

  /** No square is set up twice: `SetupIndex` tells the entries apart. */
  lemma SetupSquaresDistinct()
    ensures DistinctSquares(Setup)
  {
    BlackEntriesIndexed();
    WhiteEntriesIndexed();
    forall i, j | 0 <= i < j < |Setup|
      ensures Setup[i].0 != Setup[j].0
    {
      assert SetupIndex(Setup[i].0) == i && SetupIndex(Setup[j].0) == j;
    }
  }

  /** The number of `color`'s pieces among the first `n` entries. */
  function SideCount(entries: seq<(Pos, Piece)>, n: int, color: Color): nat
    requires 0 <= n <= |entries|
  {
    if n == 0 then 0 else SideCount(entries, n - 1, color) + (if entries[n - 1].1.color == color then 1 else 0)
  }

  /** The squares occupied after placing the first `n` entries are exactly
      those entries' squares. */
  lemma {:induction false} PlacedKeys(entries: seq<(Pos, Piece)>, n: int)
    requires 0 <= n <= |entries|
    ensures forall i :: 0 <= i < n ==> entries[i].0 in Placed(entries, n)
    ensures forall p :: p in Placed(entries, n) ==> exists i :: 0 <= i < n && entries[i].0 == p
    decreases n
  {
    if n > 0 {
      PlacedKeys(entries, n - 1);
      forall p | p in Placed(entries, n)
        ensures exists i :: 0 <= i < n && entries[i].0 == p
      {
        if p != entries[n - 1].0 {
          var i :| 0 <= i < n - 1 && entries[i].0 == p;
          assert 0 <= i < n && entries[i].0 == p;
        }
      }
    }
  }

  /** With distinct squares each entry's square keeps the entry's piece. */
  lemma {:induction false} PlacedValues(entries: seq<(Pos, Piece)>, n: int)
    requires 0 <= n <= |entries| && DistinctSquares(entries)
    ensures forall i :: 0 <= i < n ==> entries[i].0 in Placed(entries, n) && Placed(entries, n)[entries[i].0] == entries[i].1
    decreases n
  {
    if n > 0 {
      PlacedValues(entries, n - 1);
    }
  }

  /** With distinct squares there is one occupied square per entry, and per
      colour as many as that colour has entries. */
  lemma {:induction false} PlacedCard(entries: seq<(Pos, Piece)>, n: int)
    requires 0 <= n <= |entries| && DistinctSquares(entries)
    ensures |Placed(entries, n)| == n
    ensures |SideSquares(Placed(entries, n), White)| == SideCount(entries, n, White)
    ensures |SideSquares(Placed(entries, n), Black)| == SideCount(entries, n, Black)
    decreases n
  {
    if n > 0 {
      PlacedCard(entries, n - 1);
      var m := Placed(entries, n - 1);
      var e := entries[n - 1];
      PlacedKeys(entries, n - 1);
      assert e.0 !in m;
      SideStep(m, e.0, e.1, White);
      SideStep(m, e.0, e.1, Black);
    }
  }

  lemma SideStep(m: map<Pos, Piece>, p: Pos, piece: Piece, color: Color)
    requires p !in m
    ensures |SideSquares(m[p := piece], color)| ==
      |SideSquares(m, color)| + (if piece.color == color then 1 else 0)
  {
    if piece.color == color {
      assert SideSquares(m[p := piece], color) == SideSquares(m, color) + {p};
    } else {
      assert SideSquares(m[p := piece], color) == SideSquares(m, color);
    }
  }

  lemma BlackSetupOnBoard()
    ensures forall i :: 0 <= i < 18 ==> 1 <= Setup[i].0.rank <= 11 && Setup[i].0.file in RowStructure(Setup[i].0.rank)
  {
    forall i | 0 <= i < 18
      ensures 1 <= Setup[i].0.rank <= 11 && Setup[i].0.file in RowStructure(Setup[i].0.rank)
    {
      var e := Setup[i].0;
      assert e == Pos(e.file, e.rank);
    }
  }

  lemma WhiteSetupOnBoard()
    ensures forall i :: 18 <= i < 36 ==> 1 <= Setup[i].0.rank <= 11 && Setup[i].0.file in RowStructure(Setup[i].0.rank)
  {
    forall i | 18 <= i < 36
      ensures 1 <= Setup[i].0.rank <= 11 && Setup[i].0.file in RowStructure(Setup[i].0.rank)
    {
      var e := Setup[i].0;
      assert e == Pos(e.file, e.rank);
    }
  }

  /** The first 18 entries are black and the last 18 white; only entries 9
      and 27 are kings. */
  lemma SetupPieces()
    ensures forall i :: 0 <= i < |Setup| ==> Setup[i].1.color == (if i < 18 then Black else White)
    ensures forall i :: 0 <= i < |Setup| ==> (Setup[i].1.kind == King <==> i == 9 || i == 27)
  {
  }

  lemma {:induction false} SideCounts(n: int)
    requires 0 <= n <= |Setup|
    ensures SideCount(Setup, n, Black) == (if n < 18 then n else 18)
    ensures SideCount(Setup, n, White) == (if n < 18 then 0 else n - 18)
  {
    SetupPieces();
    if n > 0 {
      SideCounts(n - 1);
    }
  }

  /** `initializeBoard` places 36 pieces, 18 of each colour. */
  lemma StartCounts()
    ensures |StartBoard()| == 36
    ensures |SideSquares(StartBoard(), White)| == 18 && |SideSquares(StartBoard(), Black)| == 18
  {
    SetupSquaresDistinct();
    PlacedCard(Setup, |Setup|);
    SideCounts(|Setup|);
  }

  /** Every piece of the start position stands on a board square. */
  lemma StartOnBoard()
    ensures forall p :: p in StartBoard() ==> IsValidPosition(p)
  {
    PlacedKeys(Setup, |Setup|);
    forall p | p in StartBoard()
      ensures IsValidPosition(p)
    {
      var i :| 0 <= i < |Setup| && Setup[i].0 == p;
      BlackSetupOnBoard();
      WhiteSetupOnBoard();
      ValidPositionsByRow(p);
    }
  }

  /** The white king starts on f5 and the black king on f11, and there is
      no other king. */
  lemma StartKings()
    ensures forall p :: p in StartBoard() && StartBoard()[p].kind == King <==>
      p == Pos('f', 5) || p == Pos('f', 11)
    ensures StartBoard()[Pos('f', 5)] == Piece(King, White) && StartBoard()[Pos('f', 11)] == Piece(King, Black)
  {
    SetupSquaresDistinct();
    PlacedKeys(Setup, |Setup|);
    PlacedValues(Setup, |Setup|);
    SetupPieces();
    assert Setup[27] == (Pos('f', 5), Piece(King, White));
    assert Setup[9] == (Pos('f', 11), Piece(King, Black));
    forall p | p in StartBoard() && StartBoard()[p].kind == King
      ensures p == Pos('f', 5) || p == Pos('f', 11)
    {
      var i :| 0 <= i < |Setup| && Setup[i].0 == p;
    }
  }

  // ---------------------------------------------------------------------------
  // Move generation

  /** `getPawnMoves` … `getKingMoves`: every generator is a stub that returns
      no squares. */
  function PieceMoves(p: Pos, piece: Piece): seq<Pos>
  {
    match piece.kind
    case Pawn => []
    case Knight => []
    case Bishop => []
    case Rook => []
    case Queen => []
    case King => []
  }

  /** `getPossibleMoves(pos)`: none for an empty square, otherwise the
      generator of the piece's kind. */
  function PossibleMoves(b: map<Pos, Piece>, p: Pos): seq<Pos>
  {
    if p !in b then [] else PieceMoves(p, b[p])
  }

  /** With every generator a stub, no square ever has a move. */
  lemma NoPossibleMoves(b: map<Pos, Piece>, p: Pos)
    ensures PossibleMoves(b, p) == []
  {
  }

  // ---------------------------------------------------------------------------
  // The game object

  /** The state of a `HexChessGame`: `board`, `currentPlayer`,
      `selectedPiece` and `possibleMoves`. */
  class HexGame {
    var board: map<Pos, Piece>
    var currentPlayer: Color
    var selectedPiece: Option<Pos>
    var possibleMoves: seq<Pos>

    /** A selection is a square holding one of the mover's pieces; without
        one there are no stored moves. */
    ghost predicate Valid()
      reads this
    {
      (selectedPiece.None? ==> possibleMoves == []) &&
      (selectedPiece.Some? ==>
        selectedPiece.value in board && board[selectedPiece.value].color == currentPlayer)
    }

    /** The stored moves are the ones generated for the selection. */
    ghost predicate Generated()
      reads this
    {
      selectedPiece.Some? ==> possibleMoves == PossibleMoves(board, selectedPiece.value)
    }

    /** The constructor: the start position, white to move, nothing
        selected. */
    constructor ()
      ensures Valid() && Generated() && board == StartBoard()
      ensures currentPlayer == White && selectedPiece == None && possibleMoves == []
    {
      currentPlayer := White;
      selectedPiece := None;
      possibleMoves := [];
      board := map[];
      new;
      InitializeBoard();
    }

    /** `initializeBoard`: clear the map, then place every entry of
        `setup` in order. */
    method InitializeBoard()
      modifies this
      ensures board == StartBoard()
      ensures currentPlayer == old(currentPlayer) && selectedPiece == old(selectedPiece)
      ensures possibleMoves == old(possibleMoves)
    {
      board := map[];
      for i := 0 to |Setup|
        invariant board == Placed(Setup, i)
        invariant currentPlayer == old(currentPlayer) && selectedPiece == old(selectedPiece)
        invariant possibleMoves == old(possibleMoves)
      {
        var (pos, piece) := Setup[i];
        board := board[pos := piece];
      }
    }

    /** The select/move logic of `handleClick` for the square under the
        pointer (`None` when the cursor is off the board).  With a
        selection, a listed target receives the selected piece, the turn
        passes and the selection is dropped either way; without one, only
        a piece of the mover's colour is selected. */
    method HandleClick(pos: Option<Pos>)
      requires Valid()
      modifies this
      ensures Valid() && Generated()
      ensures old(selectedPiece).Some? ==>
        selectedPiece == None && possibleMoves == [] &&
        if pos.Some? && pos.value in old(possibleMoves) then
          var from := old(selectedPiece).value;
          board == old(board)[pos.value := old(board)[from]] - {from} &&
          currentPlayer == old(currentPlayer).Opponent()
        else
          board == old(board) && currentPlayer == old(currentPlayer)
      ensures old(selectedPiece).None? ==>
        board == old(board) && currentPlayer == old(currentPlayer) &&
        if pos.Some? && pos.value in old(board) && old(board)[pos.value].color == old(currentPlayer) then
          selectedPiece == pos && possibleMoves == PossibleMoves(board, pos.value)
        else
          selectedPiece == None && possibleMoves == []
      // every generator is a stub, so no click moves a piece
      ensures old(Generated()) ==> board == old(board) && currentPlayer == old(currentPlayer)
    {
      if selectedPiece.Some? {
        var from := selectedPiece.value;
        if pos.Some? && pos.value in possibleMoves {
          var piece := board[from];
          board := board[pos.value := piece] - {from};
          currentPlayer := currentPlayer.Opponent();
        }
        selectedPiece := None;
        possibleMoves := [];
      } else if pos.Some? && pos.value in board && board[pos.value].color == currentPlayer {
        selectedPiece := pos;
        possibleMoves := GetPossibleMoves(board, pos.value);
      }
    }
  }

  /** `getPossibleMoves(pos)` as the game object runs it. */
  method GetPossibleMoves(b: map<Pos, Piece>, p: Pos) returns (moves: seq<Pos>)
    ensures moves == PossibleMoves(b, p)
  {
    if p !in b {
      return [];
    }
    var piece := b[p];
    match piece.kind {
      case Pawn => moves := [];
      case Knight => moves := [];
      case Bishop => moves := [];
      case Rook => moves := [];
      case Queen => moves := [];
      case King => moves := [];
    }
  }
}
