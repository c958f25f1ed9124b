/** Toroidal Moore-neighbour counting over a snapshot grid. */
module Neighbours {
  import opened Grids

  /** Python's `i % n` for a positive divisor: a value in `[0, n)` that is
      `i` itself inside the range and wraps by one period just outside it
      (the only offsets the neighbour count uses). */
  function Wrap(i: int, n: int): (r: int)
    requires n > 0
    ensures 0 <= r < n
    ensures 0 <= i < n ==> r == i
    ensures -n <= i < 0 ==> r == i + n
    ensures n <= i < 2 * n ==> r == i - n
  {
    i % n
  }

  /** The sum of the eight toroidally wrapped neighbours of (x, y) in `g`,
      term for term as `GameOfLife.findNeighbours` adds them up. */
  function CountNeighbours(g: Grid, rows: int, cols: int, x: int, y: int): (n: int)
    requires rows > 0 && cols > 0 && IsShape(g, rows, cols)
    requires 0 <= x < rows && 0 <= y < cols
    ensures IsBinary(g) ==> 0 <= n <= 8
    ensures IsAllZero(g) ==> n == 0
  {
    var up := Wrap(x - 1, rows);
    var down := Wrap(x + 1, rows);
    var left := Wrap(y - 1, cols);
    var right := Wrap(y + 1, cols);
    g[up][y] + g[down][y] + g[x][left] + g[x][right]
    + g[up][left] + g[down][left] + g[up][right] + g[down][right]
  }

  /** One row of the 3x3 block centred on (x, y): row `x + dx`, columns
      `y - 1`, `y`, `y + 1`, all wrapped. */
  function BlockRow(g: Grid, rows: int, cols: int, x: int, y: int, dx: int): int
    requires rows > 0 && cols > 0 && IsShape(g, rows, cols)
  {
    var r := Wrap(x + dx, rows);
    g[r][Wrap(y - 1, cols)] + g[r][Wrap(y, cols)] + g[r][Wrap(y + 1, cols)]
  }

  /** The sum over the whole wrapped 3x3 block centred on (x, y), centre included. */
  function BlockSum(g: Grid, rows: int, cols: int, x: int, y: int): int
    requires rows > 0 && cols > 0 && IsShape(g, rows, cols)
  {
    BlockRow(g, rows, cols, x, y, -1) + BlockRow(g, rows, cols, x, y, 0) + BlockRow(g, rows, cols, x, y, 1)
  }

  /** The Moore neighbourhood is the 3x3 block minus its centre: the count
      `GameOfLife.findNeighbours` computes is the block sum less the cell itself. */
  lemma CountIsBlockMinusCentre(g: Grid, rows: int, cols: int, x: int, y: int)
    requires rows > 0 && cols > 0 && IsShape(g, rows, cols)
    requires 0 <= x < rows && 0 <= y < cols
    ensures CountNeighbours(g, rows, cols, x, y) == BlockSum(g, rows, cols, x, y) - g[x][y]
  {
  }

  /** (i, j) lies in the wrapped 3x3 block centred on (x, y). */
  predicate InBlock(rows: int, cols: int, x: int, y: int, i: int, j: int)
    requires rows > 0 && cols > 0
  {
    && (i == Wrap(x - 1, rows) || i == x || i == Wrap(x + 1, rows))
    && (j == Wrap(y - 1, cols) || j == y || j == Wrap(y + 1, cols))
  }

  /** The count reads the snapshot only inside the wrapped 3x3 block around
      (x, y): two snapshots that agree there give the same count, whatever
      else differs. */
  lemma CountIsLocal(g: Grid, h: Grid, rows: int, cols: int, x: int, y: int)
    requires rows > 0 && cols > 0 && IsShape(g, rows, cols) && IsShape(h, rows, cols)
    requires 0 <= x < rows && 0 <= y < cols
    requires forall i, j :: 0 <= i < rows && 0 <= j < cols && InBlock(rows, cols, x, y, i, j) ==> g[i][j] == h[i][j]
    ensures CountNeighbours(g, rows, cols, x, y) == CountNeighbours(h, rows, cols, x, y)
  {
  }

  /** Toroidal adjacency at the corner: on a grid of at least 3x3, cell
      (0, 0) counts the opposite corner (rows-1, cols-1) exactly once, so
      changing that one snapshot cell changes the count by the same amount. */
  lemma OriginCountsOppositeCorner(g: Grid, rows: int, cols: int, v: int)
    requires rows >= 3 && cols >= 3 && IsShape(g, rows, cols)
    ensures var h := SetCell(g, rows - 1, cols - 1, v);
      CountNeighbours(h, rows, cols, 0, 0) == CountNeighbours(g, rows, cols, 0, 0) - g[rows - 1][cols - 1] + v
  {
  }
}
