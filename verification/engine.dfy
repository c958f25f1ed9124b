/** The generation sweep: `tick` copies the live grid into the buffer, then
    applies the four rules to every cell of rows 0..rows-1 and columns
    1..cols-1.  Column 0 is never visited. */
module Engine {
  import opened Grids
  import opened Life
  import opened Rules

  /** The grid one generation later, as a value: column 0 kept, every other
      cell the B3/S23 value of `g`. */
  function NextGrid(g: Grid, rows: int, cols: int): (g': Grid)
    requires rows > 0 && cols > 0 && IsShape(g, rows, cols)
    ensures IsShape(g', rows, cols)
  {
    seq(rows, i requires 0 <= i < rows =>
      seq(cols, j requires 0 <= j < cols =>
        if j == 0 then g[i][j] else NextCell(g, rows, cols, i, j)))
  }

  /** The grid `k` generations later. */
  function Generations(g: Grid, rows: int, cols: int, k: nat): (g': Grid)
    requires rows > 0 && cols > 0 && IsShape(g, rows, cols)
    ensures IsShape(g', rows, cols)
  {
    if k == 0 then g else NextGrid(Generations(g, rows, cols, k - 1), rows, cols)
  }

  /** One generation.  Every visited cell becomes the B3/S23 value of the
      grid as it was when the generation started (synchronous update);
      column 0 keeps its old values; the buffer holds the old grid. */
  method Tick(st: GameOfLife) returns (st': GameOfLife)
    requires st.Valid()
    ensures st'.Valid()
    ensures st'.numRows == st.numRows && st'.numCols == st.numCols
    ensures st'.bufferGrid == st.grid
    ensures st'.grid == NextGrid(st.grid, st.numRows, st.numCols)
    ensures forall x, y :: 0 <= x < st.numRows && 1 <= y < st.numCols ==>
      st'.grid[x][y] == NextCell(st.grid, st.numRows, st.numCols, x, y)
    ensures forall x :: 0 <= x < st.numRows ==> st'.grid[x][0] == st.grid[x][0]
    ensures IsBinary(st.grid) ==> IsBinary(st'.grid)
    ensures IsAllZero(st.grid) ==> IsAllZero(st'.grid)
  {
    var snapshot := st.grid;
    var rows, cols := st.numRows, st.numCols;
    st' := st.(bufferGrid := snapshot);
    var x := 0;
    while x < rows
      invariant 0 <= x <= rows
      invariant st'.Valid() && st'.numRows == rows && st'.numCols == cols
      invariant st'.bufferGrid == snapshot
      invariant forall i, j :: 0 <= i < x && 1 <= j < cols ==> st'.grid[i][j] == NextCell(snapshot, rows, cols, i, j)
      invariant forall i, j :: x <= i < rows && 0 <= j < cols ==> st'.grid[i][j] == snapshot[i][j]
      invariant forall i :: 0 <= i < rows ==> st'.grid[i][0] == snapshot[i][0]
    {
      st' := SweepRow(st', x);
      x := x + 1;
    }
    var next := NextGrid(snapshot, rows, cols);
    assert forall i :: 0 <= i < rows ==> st'.grid[i] == next[i];
  }

  /** The inner loop of one generation: the four rules applied to columns
      1..cols-1 of row `x`, whose live cells still hold their snapshot
      values.  Each of those cells becomes B3/S23 of the snapshot; cell
      (x, 0) and every other row are untouched. */
  method SweepRow(st: GameOfLife, x: int) returns (st': GameOfLife)
    requires st.Valid() && 0 <= x < st.numRows
    requires forall j :: 0 <= j < st.numCols ==> st.grid[x][j] == st.bufferGrid[x][j]
    ensures st'.Valid()
    ensures st'.numRows == st.numRows && st'.numCols == st.numCols
    ensures st'.bufferGrid == st.bufferGrid
    ensures forall j :: 1 <= j < st.numCols ==> st'.grid[x][j] == NextCell(st.bufferGrid, st.numRows, st.numCols, x, j)
    ensures st'.grid[x][0] == st.grid[x][0]
    ensures forall i, j :: st.InBounds(i, j) && i != x ==> st'.grid[i][j] == st.grid[i][j]
  {
    st' := st;
    var y := 1;
    while y < st.numCols
      invariant 1 <= y <= st.numCols
      invariant st'.Valid() && st'.numRows == st.numRows && st'.numCols == st.numCols
      invariant st'.bufferGrid == st.bufferGrid
      invariant forall j :: 1 <= j < y ==> st'.grid[x][j] == NextCell(st.bufferGrid, st.numRows, st.numCols, x, j)
      invariant forall j :: y <= j < st.numCols ==> st'.grid[x][j] == st.bufferGrid[x][j]
      invariant st'.grid[x][0] == st.grid[x][0]
      invariant forall i, j :: st.InBounds(i, j) && i != x ==> st'.grid[i][j] == st.grid[i][j]
    {
      RulesAgreeWithSnapshotRule(st', x, y);
      st' := ApplyRules(st', x, y);
      y := y + 1;
    }
  }

  /** `k` generations in a row, the bounded form of the driver's endless
      loop: the result is `k` applications of `NextGrid`.  Dimensions, the
      0/1 invariant, the empty grid and column 0 all survive any number of
      generations. */
  method Run(st: GameOfLife, k: nat) returns (st': GameOfLife)
    requires st.Valid()
    ensures st'.Valid()
    ensures st'.numRows == st.numRows && st'.numCols == st.numCols
    ensures st'.grid == Generations(st.grid, st.numRows, st.numCols, k)
    ensures forall x :: 0 <= x < st.numRows ==> st'.grid[x][0] == st.grid[x][0]
    ensures IsBinary(st.grid) ==> IsBinary(st'.grid)
    ensures IsAllZero(st.grid) ==> IsAllZero(st'.grid)
    ensures k > 0 ==> forall x, y :: 0 <= x < st.numRows && 1 <= y < st.numCols ==> st'.grid[x][y] == 0 || st'.grid[x][y] == 1
  {
    st' := st;
    var done := 0;
    while done < k
      invariant 0 <= done <= k
      invariant st'.Valid() && st'.numRows == st.numRows && st'.numCols == st.numCols
      invariant st'.grid == Generations(st.grid, st.numRows, st.numCols, done)
    {
      st' := Tick(st');
      done := done + 1;
    }
    GenerationsKeepColumnZero(st.grid, st.numRows, st.numCols, k);
    GenerationsKeepBinary(st.grid, st.numRows, st.numCols, k);
    GenerationsKeepAllZero(st.grid, st.numRows, st.numCols, k);
    if k > 0 {
      GenerationsBinaryOutsideColumnZero(st.grid, st.numRows, st.numCols, k);
    }
  }

  /** Column 0 is never written, in any number of generations. */
  lemma {:induction false} GenerationsKeepColumnZero(g: Grid, rows: int, cols: int, k: nat)
    requires rows > 0 && cols > 0 && IsShape(g, rows, cols)
    ensures forall x :: 0 <= x < rows ==> Generations(g, rows, cols, k)[x][0] == g[x][0]
  {
    if k > 0 {
      GenerationsKeepColumnZero(g, rows, cols, k - 1);
    }
  }

  /** A 0/1 grid stays 0/1 in any number of generations. */
  lemma {:induction false} GenerationsKeepBinary(g: Grid, rows: int, cols: int, k: nat)
    requires rows > 0 && cols > 0 && IsShape(g, rows, cols)
    ensures IsBinary(g) ==> IsBinary(Generations(g, rows, cols, k))
  {
    if k > 0 {
      GenerationsKeepBinary(g, rows, cols, k - 1);
    }
  }

  /** An all-zero grid stays all-zero in any number of generations. */
  lemma {:induction false} GenerationsKeepAllZero(g: Grid, rows: int, cols: int, k: nat)
    requires rows > 0 && cols > 0 && IsShape(g, rows, cols)
    ensures IsAllZero(g) ==> IsAllZero(Generations(g, rows, cols, k))
  {
    if k > 0 {
      GenerationsKeepAllZero(g, rows, cols, k - 1);
    }
  }

  /** After at least one generation, every cell outside column 0 is 0 or 1,
      whatever integers the grid started with. */
  lemma GenerationsBinaryOutsideColumnZero(g: Grid, rows: int, cols: int, k: nat)
    requires rows > 0 && cols > 0 && IsShape(g, rows, cols) && k > 0
    ensures var g' := Generations(g, rows, cols, k);
      forall x, y :: 0 <= x < rows && 1 <= y < cols ==> g'[x][y] == 0 || g'[x][y] == 1
  {
  }
}
