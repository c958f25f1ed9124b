/** The four per-cell rules.  Each one takes the neighbour count from the
    buffer grid (the snapshot) but tests and writes the cell in the live grid. */
module Rules {
  import opened Grids
  import opened Neighbours
  import opened Life

  /** The live neighbours of (x, y), counted in the buffer grid. */
  function LiveNeighbours(st: GameOfLife, x: int, y: int): int
    requires st.Valid() && st.InBounds(x, y)
  {
    CountNeighbours(st.bufferGrid, st.numRows, st.numCols, x, y)
  }

  /** `st'` differs from `st` at most in live cell (x, y): same dimensions,
      same buffer, every other live cell unchanged. */
  ghost predicate OnlyCellChanged(st: GameOfLife, st': GameOfLife, x: int, y: int)
    requires st.Valid()
  {
    && st'.Valid()
    && st'.numRows == st.numRows && st'.numCols == st.numCols
    && st'.bufferGrid == st.bufferGrid
    && forall i, j :: st.InBounds(i, j) && (i != x || j != y) ==> st'.grid[i][j] == st.grid[i][j]
  }

  /** The standard B3/S23 rule: a live cell survives on 2 or 3 neighbours,
      a dead cell is born on exactly 3. */
  predicate NextAlive(alive: bool, n: int) {
    if alive then n == 2 || n == 3 else n == 3
  }

  /** The canonical next value of snapshot cell (x, y): B3/S23 applied to the
      snapshot value and its toroidal neighbour count. */
  function NextCell(g: Grid, rows: int, cols: int, x: int, y: int): int
    requires rows > 0 && cols > 0 && IsShape(g, rows, cols)
    requires 0 <= x < rows && 0 <= y < cols
  {
    Cell(NextAlive(Alive(g[x][y]), CountNeighbours(g, rows, cols, x, y)))
  }

  /** Underpopulation: a live cell with fewer than two neighbours dies. */
  function RuleOne(st: GameOfLife, x: int, y: int): (st': GameOfLife)
    requires st.Valid() && st.InBounds(x, y)
    ensures OnlyCellChanged(st, st', x, y)
    ensures st'.grid[x][y] == st.grid[x][y] || st'.grid[x][y] == 0
    ensures st'.grid[x][y] != st.grid[x][y] <==> Alive(st.grid[x][y]) && LiveNeighbours(st, x, y) < 2
  {
    if LiveNeighbours(st, x, y) < 2 && Alive(st.grid[x][y]) then
      st.(grid := SetCell(st.grid, x, y, 0))
    else
      st
  }

  /** Survival: a live cell with two or three neighbours is set to 1. */
  function RuleTwo(st: GameOfLife, x: int, y: int): (st': GameOfLife)
    requires st.Valid() && st.InBounds(x, y)
    ensures OnlyCellChanged(st, st', x, y)
    ensures st'.grid[x][y] == st.grid[x][y] || st'.grid[x][y] == 1
    ensures Alive(st'.grid[x][y]) <==> Alive(st.grid[x][y])
    ensures st'.grid[x][y] != st.grid[x][y] ==> LiveNeighbours(st, x, y) == 2 || LiveNeighbours(st, x, y) == 3
    ensures Alive(st.grid[x][y]) && (LiveNeighbours(st, x, y) == 2 || LiveNeighbours(st, x, y) == 3) ==> st'.grid[x][y] == 1
  {
    var n := LiveNeighbours(st, x, y);
    if (n == 2 || n == 3) && Alive(st.grid[x][y]) then
      st.(grid := SetCell(st.grid, x, y, 1))
    else
      st
  }

  /** Overpopulation: a live cell with more than three neighbours dies. */
  function RuleThree(st: GameOfLife, x: int, y: int): (st': GameOfLife)
    requires st.Valid() && st.InBounds(x, y)
    ensures OnlyCellChanged(st, st', x, y)
    ensures st'.grid[x][y] == st.grid[x][y] || st'.grid[x][y] == 0
    ensures st'.grid[x][y] != st.grid[x][y] <==> Alive(st.grid[x][y]) && LiveNeighbours(st, x, y) > 3
  {
    if LiveNeighbours(st, x, y) > 3 && Alive(st.grid[x][y]) then
      st.(grid := SetCell(st.grid, x, y, 0))
    else
      st
  }

  /** Reproduction: a dead cell with exactly three neighbours becomes 1. */
  function RuleFour(st: GameOfLife, x: int, y: int): (st': GameOfLife)
    requires st.Valid() && st.InBounds(x, y)
    ensures OnlyCellChanged(st, st', x, y)
    ensures st'.grid[x][y] == st.grid[x][y] || st'.grid[x][y] == 1
    ensures st'.grid[x][y] != st.grid[x][y] <==> !Alive(st.grid[x][y]) && LiveNeighbours(st, x, y) == 3
  {
    if LiveNeighbours(st, x, y) == 3 && !Alive(st.grid[x][y]) then
      st.(grid := SetCell(st.grid, x, y, 1))
    else
      st
  }

  /** The four rules in the order the generation sweep applies them to one
      cell.  Whatever the live value, the outcome is B3/S23 on that value and
      the snapshot count (`AtMostOneRuleFires` shows no cell flips twice). */
  function ApplyRules(st: GameOfLife, x: int, y: int): (st': GameOfLife)
    requires st.Valid() && st.InBounds(x, y)
    ensures OnlyCellChanged(st, st', x, y)
    ensures st'.grid[x][y] == Cell(NextAlive(Alive(st.grid[x][y]), LiveNeighbours(st, x, y)))
  {
    RuleFour(RuleThree(RuleTwo(RuleOne(st, x, y), x, y), x, y), x, y)
  }

  /** When the live cell still equals its snapshot value, the four rules give
      exactly the canonical next value of the snapshot cell. */
  lemma RulesAgreeWithSnapshotRule(st: GameOfLife, x: int, y: int)
    requires st.Valid() && st.InBounds(x, y)
    requires st.grid[x][y] == st.bufferGrid[x][y]
    ensures ApplyRules(st, x, y).grid[x][y] == NextCell(st.bufferGrid, st.numRows, st.numCols, x, y)
  {
  }

  /** No double flip: of the four rule steps the sweep takes on one cell,
      at most one changes its live value. */
  lemma AtMostOneRuleFires(st: GameOfLife, x: int, y: int)
    requires st.Valid() && st.InBounds(x, y)
    ensures var s1 := RuleOne(st, x, y);
      var s2 := RuleTwo(s1, x, y);
      var s3 := RuleThree(s2, x, y);
      var s4 := RuleFour(s3, x, y);
      var changed := [s1.grid[x][y] != st.grid[x][y], s2.grid[x][y] != s1.grid[x][y],
                      s3.grid[x][y] != s2.grid[x][y], s4.grid[x][y] != s3.grid[x][y]];
      forall a, b :: 0 <= a < b < 4 && changed[a] ==> !changed[b]
  {
  }
}
