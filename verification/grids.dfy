/**
 The grid of the page's Game of Life: a row-major array of rows of numbers,
 where 1 is a live cell and 0 a dead one, together with the random seeding
 of `createGrid` and the toroidal index arithmetic of `countNeighbors`.
 */
module Grids {

  /** Rows of cells; the page stores each cell as the number 0 or 1. */
  type Grid = seq<seq<int>>

  /** `createGrid` makes a cell live when its random draw exceeds this value. */
  const Threshold: real := 0.8

  /** One random draw in [0, 1) per cell (row, column), standing for `Math.random()`. */
  type Draws = (int, int) -> real

  /** The grid has `rows` rows of `cols` cells each. */
  predicate Shaped(g: Grid, rows: nat, cols: nat) {
    |g| == rows && forall i :: 0 <= i < |g| ==> |g[i]| == cols
  }

  /** Every cell is 0 or 1. */
  predicate Binary(g: Grid) {
    forall i, j :: 0 <= i < |g| && 0 <= j < |g[i]| ==> g[i][j] == 0 || g[i][j] == 1
  }

  /** A grid the page can hold: non-empty, rectangular and of 0/1 cells. */
  predicate IsGrid(g: Grid, rows: nat, cols: nat) {
    0 < rows && 0 < cols && Shaped(g, rows, cols) && Binary(g)
  }

  /** `createGrid`: a fresh grid whose cell (i, j) is live exactly when its draw exceeds the threshold. */
  function CreateGrid(rows: nat, cols: nat, draw: Draws): (g: Grid)
    ensures Shaped(g, rows, cols) && Binary(g)
    ensures forall i, j :: 0 <= i < rows && 0 <= j < cols ==> (g[i][j] == 1 <==> draw(i, j) > Threshold)
  {
    seq(rows, i => seq(cols, j => if draw(i, j) > Threshold then 1 else 0))
  }

  function Abs(n: int): nat {
    if n < 0 then -n else n
  }

  /**
   JavaScript's `%` on integers: the remainder of truncating division, whose
   sign follows the dividend (unlike Dafny's `%`, which is never negative).
   */
  function JsRem(a: int, n: int): (r: int)
    requires n != 0
    ensures a >= 0 ==> 0 <= r
    ensures a <= 0 ==> r <= 0
    ensures Abs(r) < Abs(n)
    ensures a == n * (if a >= 0 then a / n else -((-a) / n)) + r
  {
    if a >= 0 then a % n else -((-a) % n)
  }

  /**
   The neighbour of position x at offset d in {-1, 0, 1} on a ring of n
   positions: one step off either edge lands on the opposite one.
   */
  function Wrap(x: int, d: int, n: int): (r: int)
    requires 0 <= x < n && -1 <= d <= 1
    ensures 0 <= r < n
    ensures r == x + d || r == x + d + n || r == x + d - n
  {
    if x + d < 0 then n - 1 else if n <= x + d then 0 else x + d
  }

  /**
   The page's neighbour index `(x + d + n) % n` of `countNeighbors`, with
   JavaScript's `%`, is the wrapped neighbour.
   */
  lemma WrapIsJsRem(x: int, d: int, n: int)
    requires 0 <= x < n && -1 <= d <= 1
    ensures JsRem(x + d + n, n) == Wrap(x, d, n)
  {
    RemInRange(x + d + n, n);
  }

  /** A number in [0, 2n] is reduced modulo n by subtracting n at most twice. */
  lemma RemInRange(a: int, n: int)
    requires 0 < n && 0 <= a <= 2 * n
    ensures a < n ==> a % n == a
    ensures n <= a < 2 * n ==> a % n == a - n
    ensures a == 2 * n ==> a % n == 0
  {
  }
}
