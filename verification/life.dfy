/** The state of the `GameOfLife` object: its fixed dimensions, the live
    grid, and the buffer grid that holds the snapshot a generation reads. */
module Life {
  import opened Grids

  const DefaultRows := 25
  const DefaultCols := 50

  /** The five cells of the glider seeded into the live grid. */
  const Glider: set<(int, int)> := {(3, 2), (4, 3), (4, 4), (2, 4), (3, 4)}

  datatype GameOfLife = GameOfLife(numRows: int, numCols: int, grid: Grid, bufferGrid: Grid)
  {
    /** Both grids have the stated positive dimensions. */
    ghost predicate Valid() {
      && numRows > 0 && numCols > 0
      && IsShape(grid, numRows, numCols)
      && IsShape(bufferGrid, numRows, numCols)
    }

    predicate InBounds(x: int, y: int) {
      0 <= x < numRows && 0 <= y < numCols
    }
  }

  /** A fresh game: 25 rows, 50 columns, both grids all zero. */
  function Init(): (st: GameOfLife)
    ensures st.Valid()
    ensures st.numRows == 25 && st.numCols == 50
    ensures IsAllZero(st.grid) && IsAllZero(st.bufferGrid)
  {
    GameOfLife(DefaultRows, DefaultCols, Zeros(DefaultRows, DefaultCols), Zeros(DefaultRows, DefaultCols))
  }

  /** Seeds the glider: exactly the five glider cells of the live grid
      become 1; every other cell, the buffer and the dimensions are kept. */
  function SetShape(st: GameOfLife): (st': GameOfLife)
    requires st.Valid() && st.numRows >= 5 && st.numCols >= 5
    ensures st'.Valid()
    ensures st'.numRows == st.numRows && st'.numCols == st.numCols
    ensures st'.bufferGrid == st.bufferGrid
    ensures forall i, j :: st.InBounds(i, j) && (i, j) in Glider ==> st'.grid[i][j] == 1
    ensures forall i, j :: st.InBounds(i, j) && (i, j) !in Glider ==> st'.grid[i][j] == st.grid[i][j]
  {
    var g := SetCell(st.grid, 3, 2, 1);
    var g := SetCell(g, 4, 3, 1);
    var g := SetCell(g, 4, 4, 1);
    var g := SetCell(g, 2, 4, 1);
    var g := SetCell(g, 3, 4, 1);
    st.(grid := g)
  }

  /** Seeding a fresh game leaves exactly the glider alive. */
  lemma InitThenSetShapeIsGlider()
    ensures var st := SetShape(Init());
      && IsBinary(st.grid)
      && forall i, j :: st.InBounds(i, j) ==> (Alive(st.grid[i][j]) <==> (i, j) in Glider)
  {
  }
}
