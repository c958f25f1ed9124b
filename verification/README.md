# Game of Life transition engine in Dafny

This project models the `GameOfLife` class of a small terminal Game of Life.
The class keeps two integer matrices of fixed size, `grid` (the live state)
and `buffer_grid` (a copy taken at the start of a generation). It also keeps
the dimensions `num_of_rows` and `num_of_cols`. One generation (`tick`) does
two things:

1. It copies `grid` into `buffer_grid`.
2. It sweeps the cells and applies four rules to each cell in turn.

Each rule counts the cell's eight toroidal Moore neighbours in the buffer,
then tests and writes the cell in the live grid.

The model works on values, not arrays. The object is the datatype
`Life.GameOfLife(numRows, numCols, grid, bufferGrid)`, and a grid is a
`seq<seq<int>>`. A cell is alive when it is non-zero, as in Python's boolean
test.

- `Grids`: grid shape, the all-zero and 0/1 invariants, and the cell
  assignment.
- `Neighbours`: Python's `%` (`Wrap`) and the neighbour count.
- `Life`: the state, the constructor and the glider seeding.
- `Rules`: the four rules, the canonical B3/S23 rule, and the composition of
  the four rules.
- `Engine`: the sweep (`Tick`, a nested-loop method) and a bounded run of
  `k` generations.

Main results:

- The four rules, applied in order to one cell, compute exactly B3/S23 from
  the cell's live value and its snapshot count. At most one of the four
  rule steps changes the cell, so no cell flips twice.
- `Tick` is a synchronous update: every visited cell gets the B3/S23 value
  of the grid as it was when the generation started.
- As in the source, the column loop starts at 1, so column 0 is never
  updated. `Tick` and `Run` state this as a property. The model keeps this
  behaviour and does not correct it.

## Model

| member | source | states |
|---|---|---|
| `Neighbours.Wrap` | main.py:24-31 | Python's `%` with a positive divisor: the result lies in `[0, n)`, and a neighbour offset one step past either edge wraps to the opposite edge |
| `Neighbours.CountNeighbours` | main.py:22-32 | on a 0/1 buffer the neighbour count lies in `[0, 8]`; on an all-zero buffer it is 0 |
| `Neighbours.CountIsBlockMinusCentre` | main.py:22-32 | the eight added terms equal the wrapped 3x3 block sum around the cell minus the cell itself (the Moore neighbourhood) |
| `Neighbours.CountIsLocal` | main.py:22-32 | the count reads the buffer only inside the wrapped 3x3 block: two buffers that agree there give the same count |
| `Neighbours.OriginCountsOppositeCorner` | main.py:28 | on a grid of at least 3x3, cell (0,0) counts cell (rows-1, cols-1) as a neighbour exactly once |
| `Grids.Zeros` | main.py:12-13 | `np.zeros((rows, cols))` has the requested shape, and every cell is 0 |
| `Life.Init` | main.py:8-13 | the constructor gives 25 rows and 50 columns, with an all-zero grid and an all-zero buffer of that shape |
| `Life.SetShape` | main.py:15-20 | the five glider cells (3,2), (4,3), (4,4), (2,4), (3,4) become 1; every other cell, the buffer and the dimensions are unchanged |
| `Life.InitThenSetShapeIsGlider` | main.py:90-91 | after construction and seeding, the grid is 0/1 and a cell is alive exactly when it is one of the five glider cells |
| `Rules.RuleOne` | main.py:46-52 | only the live cell (x,y) can change, and only to 0; it changes exactly when it is alive with fewer than 2 snapshot neighbours |
| `Rules.RuleTwo` | main.py:54-60 | only cell (x,y) can change, and only to 1; a live cell with 2 or 3 neighbours becomes 1, and liveness never changes |
| `Rules.RuleThree` | main.py:62-68 | only cell (x,y) can change, and only to 0; it changes exactly when it is alive with more than 3 neighbours |
| `Rules.RuleFour` | main.py:70-76 | only cell (x,y) can change, and only to 1; it changes exactly when it is dead with exactly 3 neighbours |
| `Rules.ApplyRules` | main.py:41-44 | the four rules in sequence change only cell (x,y), and it ends as B3/S23 of its live value and snapshot count (alive: survives on 2 or 3; dead: born on 3) |
| `Rules.AtMostOneRuleFires` | main.py:41-76 | of the four rule steps applied in order to one cell, at most one changes its live value (no double flip) |
| `Rules.RulesAgreeWithSnapshotRule` | main.py:41-49 | if the live cell still equals its snapshot value, the four rules give the canonical next value of the snapshot cell |
| `Engine.Tick` | main.py:34-44 | the buffer becomes the old grid; every cell of rows 0..rows-1 and columns 1..cols-1 becomes B3/S23 of the old grid; column 0 is unchanged; the new grid is `NextGrid` of the old one; dimensions, the 0/1 invariant and the all-zero grid are preserved |
| `Engine.SweepRow` | main.py:40-44 | for one row whose live cells still equal the snapshot, columns 1..cols-1 become B3/S23 of the snapshot; cell (x,0), every other row, the buffer and the dimensions are unchanged |
| `Engine.Run` | main.py:93-94 | the grid after `k` generations is `Generations(g, rows, cols, k)`, i.e. `k` applications of the one-generation map; dimensions, column 0, the 0/1 invariant and an all-zero grid are preserved; once `k > 0`, every cell outside column 0 is 0 or 1 |
| `Engine.GenerationsKeepColumnZero` | main.py:40 | because the column loop starts at 1, column 0 is the same after any number of generations |
| `Engine.GenerationsKeepBinary` | main.py:34-44 | a 0/1 grid stays 0/1 after any number of generations |
| `Engine.GenerationsKeepAllZero` | main.py:34-44 | an all-zero grid stays all-zero after any number of generations |
| `Engine.GenerationsBinaryOutsideColumnZero` | main.py:51-76 | after at least one generation, every cell outside column 0 is 0 or 1, since the rules only write 0 or 1 |

## Left out

- The `speed` field (main.py:11) and `sleep(self.speed * 0.1)` (main.py:37) only affect timing, not state.
- `showOutput` (main.py:78-86) is terminal rendering through `termcolor` and `print`.
- `main` (main.py:89-99) loops forever. It is modelled only as `Engine.Run`, a bounded number of generations.
- NumPy details are not modelled. `np.zeros` and `np.copy` are a fresh or copied value grid. Cells are unbounded integers: the 64-bit wrap-around of the `dtype=int` neighbour sum is not modelled. It could only matter for cells far outside 0/1.
- Play/pause state, a generation counter, cell toggling, pattern loading and reset are not in this class, so the model has none of them.
- A sweep over all columns `0..cols-1`, which a canonical Game of Life would use, is not modelled. The code starts the column loop at 1 (main.py:40), and the model does the same.
