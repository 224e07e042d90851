/** The optional value used for empty squares, absent keys and JavaScript's `null`. */
module Util {
  datatype Option<T> = None | Some(value: T)
}

/** JavaScript arithmetic that differs from Dafny's. */
module JsMath {
  /** JavaScript's `a % b` for a positive divisor: the remainder takes the
      sign of the dividend (truncating division), unlike Dafny's `%`. */
  function Rem(a: int, b: int): int
    requires b > 0
  {
    if a >= 0 then a % b else -((-a) % b)
  }

  /** The wrap idiom `((n % m) + m) % m` used throughout the source. */
  function PosMod(n: int, m: int): int
    requires m > 0
  {
    Rem(Rem(n, m) + m, m)
  }

  lemma MulAtLeast(x: int, m: int)
    requires x >= 1 && m > 0
    ensures x * m >= m
  {
    assert x * m == (x - 1) * m + m;
  }

  /** Euclidean remainders are determined by any quotient/remainder split. */
  lemma ModUnique(a: int, m: int, k: int, r: int)
    requires m > 0 && 0 <= r < m && a == k * m + r
    ensures a % m == r && a / m == k
  {
    var q, s := a / m, a % m;
    assert a == q * m + s && 0 <= s < m;
    assert (q - k) * m == r - s;
    if q > k {
      MulAtLeast(q - k, m);
    } else if q < k {
      MulAtLeast(k - q, m);
    }
  }

  /** The JavaScript wrap idiom computes the mathematical (non-negative) remainder. */
  lemma PosModIsMod(n: int, m: int)
    requires m > 0
    ensures PosMod(n, m) == n % m
    ensures 0 <= PosMod(n, m) < m
  {
    if n >= 0 {
      ModUnique(n % m + m, m, 1, n % m);
    } else {
      var t := (-n) % m;
      var q := (-n) / m;
      assert -n == q * m + t;
      if t == 0 {
        ModUnique(m, m, 1, 0);
        ModUnique(n, m, -q, 0);
      } else {
        assert Rem(n, m) + m == m - t;
        ModUnique(m - t, m, 0, m - t);
        ModUnique(n, m, -q - 1, m - t);
      }
    }
  }

  /** Adding a whole number of periods does not change the remainder. */
  lemma ModShift(n: int, m: int, k: int)
    requires m > 0
    ensures (n + k * m) % m == n % m
  {
    ModUnique(n, m, n / m, n % m);
    ModUnique(n + k * m, m, n / m + k, n % m);
  }
}

/** Square boards stored row by row, as the source's arrays of arrays. */
module Grid {
  /** A board cell; the source keys cells by `"row,col"` strings. */
  datatype Cell = Cell(row: int, col: int)

  type Board<T> = seq<seq<T>>

  /** `b` is an `n` by `n` array of arrays. */
  ghost predicate IsSquare<T>(b: Board<T>, n: nat)
  {
    |b| == n && forall r :: 0 <= r < n ==> |b[r]| == n
  }

  predicate InRange(c: Cell, n: int)
  {
    0 <= c.row < n && 0 <= c.col < n
  }

  function At<T>(b: Board<T>, c: Cell): T
    requires 0 <= c.row < |b| && 0 <= c.col < |b[c.row]|
  {
    b[c.row][c.col]
  }

  /** `b[c.row][c.col] = v` on a copy. */
  function Put<T>(b: Board<T>, c: Cell, v: T): Board<T>
    requires 0 <= c.row < |b| && 0 <= c.col < |b[c.row]|
  {
    b[c.row := b[c.row][c.col := v]]
  }

  /** Put changes the one cell and keeps the shape and every other cell. */
  lemma PutCells<T>(b: Board<T>, c: Cell, v: T)
    requires 0 <= c.row < |b| && 0 <= c.col < |b[c.row]|
    ensures var b' := Put(b, c, v);
      |b'| == |b| && (forall r :: 0 <= r < |b| ==> |b'[r]| == |b[r]|) &&
      At(b', c) == v &&
      forall r, k :: 0 <= r < |b| && 0 <= k < |b[r]| && (r != c.row || k != c.col) ==> b'[r][k] == b[r][k]
  {
  }

  /** Two `n` by `n` boards that agree on every cell are equal. */
  lemma SameBoard<T>(a: Board<T>, b: Board<T>, n: nat)
    requires IsSquare(a, n) && IsSquare(b, n)
    requires forall r, k :: 0 <= r < n && 0 <= k < n ==> a[r][k] == b[r][k]
    ensures a == b
  {
    forall r | 0 <= r < n
      ensures a[r] == b[r]
    {
      assert forall k :: 0 <= k < n ==> a[r][k] == b[r][k];
    }
  }

  /** Every cell of an `n` by `n` board. */
  function AllCells(n: nat): (s: set<Cell>)
    ensures forall c :: c in s <==> InRange(c, n)
  {
    set r, k | 0 <= r < n && 0 <= k < n :: Cell(r, k)
  }

  /** An `n` by `n` board holding `v` everywhere. */
  function Filled<T>(n: nat, v: T): (b: Board<T>)
    ensures IsSquare(b, n)
    ensures forall r, k :: 0 <= r < n && 0 <= k < n ==> b[r][k] == v
  {
    seq(n, _ => seq(n, _ => v))
  }
}
