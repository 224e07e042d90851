/** Coordinate wrapping of src/main.ts: the flat, torus ("rollover") and
    mirrored-torus ("mirror") board shapes. */
module TsTopology {
  import JsMath

  /** The board shape chosen with `setGameMode`. */
  datatype Mode = Classic | Rollover | Mirror

  /** `wrap(n, size)`: the toroidal wrap of one coordinate. */
  function Wrap(n: int, size: int): (r: int)
    requires size > 0
    ensures 0 <= r < size
    ensures r == n % size
  {
    JsMath.PosModIsMod(n, size);
    JsMath.PosMod(n, size)
  }

  /** Wrapping is congruent to the input: it differs from `n` by whole board widths. */
  lemma WrapCongruent(n: int, size: int)
    requires size > 0
    ensures (n - Wrap(n, size)) % size == 0
    ensures Wrap(Wrap(n, size), size) == Wrap(n, size)
  {
    JsMath.ModUnique(n, size, n / size, n % size);
    JsMath.ModUnique(n - n % size, size, n / size, 0);
    JsMath.ModUnique(n % size, size, 0, n % size);
  }

  /** Wrapping an already-wrapped coordinate after a step is wrapping the raw sum. */
  lemma WrapStep(x: int, d: int, size: int)
    requires size > 0
    ensures Wrap(Wrap(x, size) + d, size) == Wrap(x + d, size)
  {
    JsMath.ModUnique(x, size, x / size, x % size);
    JsMath.ModShift(x % size + d, size, x / size);
  }

  /** Wrapping a coordinate at most one step outside the board. */
  lemma WrapNear(x: int, size: int)
    requires size > 0 && -1 <= x <= size
    ensures Wrap(x, size) == if x < 0 then size - 1 else if x == size then 0 else x
  {
    if x < 0 {
      JsMath.ModUnique(x, size, -1, size - 1);
    } else if x == size {
      JsMath.ModUnique(x, size, 1, 0);
    } else {
      JsMath.ModUnique(x, size, 0, x);
    }
  }

  /** Position of a raw row inside one reflected period of `2 * size` rows. */
  function Phase(row: int, size: int): int
    requires size > 0
  {
    row % (2 * size)
  }

  /** The row that wrapMirror folds `row` to, in closed form. */
  function FoldRow(row: int, size: int): int
    requires size > 0
  {
    var p := Phase(row, size);
    if p < size then p else 2 * size - 1 - p
  }

  /** Whether `row` lies in a reflected copy of the board. */
  predicate Reflected(row: int, size: int)
    requires size > 0
  {
    Phase(row, size) >= size
  }

  /** The result of `wrapMirror(row, col, size)`: folded row, wrapped column, reflection flag. */
  function MirrorFold(row: int, col: int, size: int): (r: (int, int, bool))
    requires size > 0
    ensures 0 <= r.0 < size && 0 <= r.1 < size
  {
    (FoldRow(row, size), Wrap(col, size), Reflected(row, size))
  }

  /** One reflection `x := -1 - x` or `x := 2 * size - 1 - x` keeps the folded
      row and toggles the reflection flag. */
  lemma ReflectStep(x: int, size: int, y: int)
    requires size > 0
    requires y == -1 - x || y == 2 * size - 1 - x
    ensures FoldRow(y, size) == FoldRow(x, size)
    ensures Reflected(y, size) == !Reflected(x, size)
  {
    var m := 2 * size;
    var q, p := x / m, x % m;
    JsMath.ModUnique(x, m, q, p);
    if y == -1 - x {
      JsMath.ModUnique(y, m, -q - 1, m - 1 - p);
    } else {
      JsMath.ModUnique(y, m, -q, m - 1 - p);
    }
  }

  /** `wrapMirror`: reflect the row back into range one seam at a time and
      wrap the column.  The loop terminates, and its result is the closed
      form MirrorFold. */
  method WrapMirror(row: int, col: int, size: int) returns (newRow: int, newCol: int, flipped: bool)
    requires size > 0
    ensures (newRow, newCol, flipped) == MirrorFold(row, col, size)
    ensures 0 <= newRow < size && 0 <= newCol < size
    ensures 0 <= row < size ==> newRow == row && !flipped
  {
    newCol := JsMath.PosMod(col, size);
    JsMath.PosModIsMod(col, size);
    newRow := row;
    flipped := false;
    while newRow < 0 || newRow > size - 1
      invariant FoldRow(newRow, size) == FoldRow(row, size)
      invariant flipped == (Reflected(newRow, size) != Reflected(row, size))
      decreases if newRow < 0 then -newRow else newRow - size + 1
    {
      if newRow < 0 {
        ReflectStep(newRow, size, -1 - newRow);
        newRow := -1 - newRow;
        flipped := !flipped;
      } else if newRow > size - 1 {
        ReflectStep(newRow, size, (size * 2 - 1) - newRow);
        newRow := (size * 2 - 1) - newRow;
        flipped := !flipped;
      }
    }
    InRangeUnfolded(newRow, size);
    assert newRow == FoldRow(row, size) && flipped == Reflected(row, size);
    assert newCol == Wrap(col, size);
    if 0 <= row < size {
      InRangeUnfolded(row, size);
    }
  }

  lemma InRangeUnfolded(x: int, size: int)
    requires 0 <= x < size
    ensures FoldRow(x, size) == x && !Reflected(x, size)
  {
    JsMath.ModUnique(x, 2 * size, 0, x);
  }

  /** Folding a row at most one step outside the board: the seam row
      reflects onto itself. */
  lemma MirrorNear(x: int, size: int)
    requires size > 0 && -1 <= x <= size
    ensures FoldRow(x, size) == if x < 0 then 0 else if x == size then size - 1 else x
    ensures Reflected(x, size) == (x < 0 || x == size)
  {
    if x < 0 {
      JsMath.ModUnique(x, 2 * size, -1, 2 * size - 1);
    } else {
      JsMath.ModUnique(x, 2 * size, 0, x);
    }
  }

  /** The fixed points of wrapMirror on the 8-row chess board. */
  lemma MirrorExamples()
    ensures MirrorFold(8, 0, 8) == (7, 0, true)
    ensures MirrorFold(9, 0, 8) == (6, 0, true)
    ensures MirrorFold(-1, 0, 8) == (0, 0, true)
    ensures MirrorFold(16, 0, 8) == (0, 0, false)
    ensures MirrorFold(3, -1, 8) == (3, 7, false)
  {
    JsMath.ModUnique(8, 16, 0, 8);
    JsMath.ModUnique(9, 16, 0, 9);
    JsMath.ModUnique(-1, 16, -1, 15);
    JsMath.ModUnique(16, 16, 1, 0);
    JsMath.ModUnique(3, 16, 0, 3);
    JsMath.ModUnique(0, 8, 0, 0);
    JsMath.ModUnique(-1, 8, -1, 7);
  }

  /** Mirror folding is periodic with period `2 * size` rows and `size` columns. */
  lemma MirrorPeriodic(row: int, col: int, size: int, k: int)
    requires size > 0
    ensures MirrorFold(row + k * (2 * size), col + k * size, size) == MirrorFold(row, col, size)
  {
    JsMath.ModShift(row, 2 * size, k);
    JsMath.ModShift(col, size, k);
  }
}
