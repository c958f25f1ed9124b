/** Rectangular integer grids, the value behind both `grid` and `buffer_grid`
    of the Python `GameOfLife` class (NumPy integer matrices there).  A cell
    is read the way Python reads it in a boolean context: alive exactly when
    non-zero. */
module Grids {

  type Grid = seq<seq<int>>

  /** `g` has `rows` rows of `cols` cells each. */
  ghost predicate IsShape(g: Grid, rows: int, cols: int) {
    && |g| == rows
    && forall i :: 0 <= i < |g| ==> |g[i]| == cols
  }

  /** Every cell of `g` is 0 or 1. */
  ghost predicate IsBinary(g: Grid) {
    forall i, j :: 0 <= i < |g| && 0 <= j < |g[i]| ==> g[i][j] == 0 || g[i][j] == 1
  }

  /** Every cell of `g` is 0. */
  ghost predicate IsAllZero(g: Grid) {
    forall i, j :: 0 <= i < |g| && 0 <= j < |g[i]| ==> g[i][j] == 0
  }

  /** Python truthiness of a cell value. */
  predicate Alive(v: int) {
    v != 0
  }

  /** The integer a rule writes for a live (1) or dead (0) cell. */
  function Cell(alive: bool): (v: int)
    ensures v == 0 || v == 1
    ensures Alive(v) <==> alive
  {
    if alive then 1 else 0
  }

  /** A `rows` by `cols` grid of zeros, as `np.zeros((rows, cols), dtype=int)`. */
  function Zeros(rows: nat, cols: nat): (g: Grid)
    ensures IsShape(g, rows, cols)
    ensures IsAllZero(g)
    ensures IsBinary(g)
  {
    seq(rows, _ => seq(cols, _ => 0))
  }

  /** The assignment `g[x][y] = v`: cell (x, y) becomes `v`, nothing else changes. */
  function SetCell(g: Grid, x: int, y: int, v: int): (g': Grid)
    requires 0 <= x < |g| && 0 <= y < |g[x]|
    ensures |g'| == |g|
    ensures forall i :: 0 <= i < |g| ==> |g'[i]| == |g[i]|
    ensures g'[x][y] == v
    ensures forall i, j :: 0 <= i < |g| && 0 <= j < |g[i]| && (i != x || j != y) ==> g'[i][j] == g[i][j]
  {
    g[x := g[x][y := v]]
  }
}
