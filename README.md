# Maze generator, modelled in Dafny

This project models the maze generator of `maze_maker.js` and proves what it
promises. The generator takes a square grid of `size` x `size` cells and
starts with every cell showing all four walls. It then runs a randomized
depth-first backtracking walk.

- A stack (`visitedCells`) starts with one random cell.
- In each iteration the top cell looks for its open neighbours. A neighbour
  is open when it lies inside the grid, is not on the stack and is not on
  the closed list (`closedCells`).
- With no open neighbour, the top cell is popped onto the closed list.
- Otherwise one open neighbour is picked at random and pushed. The wall of
  the current cell facing it and the facing wall of the neighbour are both
  removed: each shared wall is two flags, one per cell.
- When the stack is empty, the left wall of a random row in the first column
  (the entrance) and the right wall of a random row in the last column (the
  exit) are removed.

The Dafny files are:

- `grid.dfy` (module `Grid`): cells, directions, the bounds check, the wall
  mapping `Opposite`, the set of all grid cells with its size, a pigeonhole
  lemma, and the proof that the grid is connected.
- `walls.dfy` (module `Walls`): the displayed table as an `array3<bool>`.
  `walls[y, x, Index(d)]` is true while cell (x, y) still shows its wall on
  side d. The module holds `CreateTable` and `RemoveCellEdge`.
- `neighbors.dfy` (module `Neighbors`): the coordinate membership scan, the
  neighbour filter and the index-driven direction choice.
- `maze_maker.dfy` (module `MazeMaker`): `BuildMaze`, its main loop
  `Explore` with the invariant `Search`, the entrance and exit, and the
  spanning-tree, connectivity and border results.

All randomness is passed in as parameters, each with its range as a
precondition:

- the start cell, inside the grid;
- `choose(step, n)`, the index drawn among `n` open neighbours in iteration
  `step`, which lies in `[0, n)`;
- the entrance row and the exit row, each in `[0, size)`.

`size` is a parameter (at least 1) instead of a global variable.

What `BuildMaze` is proved to do:

- The loop (`Explore`) runs exactly `2 * size * size - 1` iterations. In the invariant,
  `steps` equals the number of cells reached minus one plus the number of
  closed cells. Both numbers are at most `size * size`.
- When it ends, the closed list holds every grid cell exactly once.
- The advances form a spanning tree (`TreeOrder`). The cells are reached in
  a duplicate-free order that starts at the start cell and covers the grid.
  Advance `i` leads from a cell reached earlier to the cell reached at
  position `i + 1`, so there are `size * size - 1` advances.
- The table finally shows exactly the walls not cleared. The cleared flags
  are the two sides of every advance (`Carved`), plus the entrance and the
  exit.
- Every cell can be reached from the start cell through passages whose two
  wall flags are both cleared.
- Every open passage is a tree edge, taken one way or the other
  (`OnlyTreePassages`). On the border only the entrance and the exit are
  open (`BorderWalls`).

The walk is also a function of the draws. `Run` repeats the loop's step
from a state, and `Generate(size, start, choose)` runs it from the start
cell. `Explore` and `BuildMaze` return exactly `Generate`'s outcome, so the
same draws always give the same maze. `FirstAdvance` states the first
passage for any grid larger than one cell. On a 2 x 2 grid started at
(0, 0), a first draw of 0 carves right, clearing the right wall of (0, 0)
and the left wall of (1, 0) (`TwoByTwoFirstPassage`). On that grid
`BuildMaze` closes four cells, carves three passages and runs seven
iterations.

Loop invariant (`Search`):

- the stack and the closed list are disjoint and duplicate-free;
- they hold only grid cells, and together exactly the cells reached so far;
- consecutive stack entries are grid-adjacent;
- every closed cell has no in-grid neighbour that has not been reached.

## Model

| member | source | states |
|---|---|---|
| `Grid.StepIsAdjacent` | maze_maker.js:77-82 | each of the four neighbour entries (`Step`: right x+1, left x-1, bottom y+1, top y-1) is adjacent to the cell |
| `Grid.StepByOffsets` | maze_maker.js:77-82 | each neighbour entry (`Step`) moves by its direction's column and row offsets (`Dx`, `Dy`), the terms in which `Opposite` is stated |
| `Grid.AdjacentIsStep` | maze_maker.js:77-82 | every cell adjacent to a cell is one of its four neighbour entries |
| `Grid.Opposite` | maze_maker.js:125-139 | the opposite side is never the side itself, and points the other way in both coordinates (top and bottom, left and right swap) |
| `Grid.OppositeInvolution` | maze_maker.js:129-138 | the opposite of the opposite is the side itself; stepping out and back through opposite sides returns to the cell |
| `Grid.LeavesGrid` | maze_maker.js:95-97 | from an in-grid cell, a step fails the bounds check exactly when it crosses the left side in column 0, the right side in the last column, the top side in row 0 or the bottom side in the last row |
| `Grid.AllCells` | maze_maker.js:95-97 | a cell is one of the grid's cells exactly when the bounds check (`InsideGrid`) accepts it, that is when `0 <= x < size` and `0 <= y < size`, and there are `size * size` of them |
| `Grid.DistinctBound` | maze_maker.js:28-44 | a duplicate-free list of grid cells has at most `size * size` entries, and exactly that many when it holds them all |
| `Grid.FillsGrid` | maze_maker.js:28-44 | a list that holds one grid cell and every in-grid neighbour of its members holds the whole grid |
| `Walls.Index` | maze_maker.js:59 | every cell has four wall flags, numbered below four |
| `Walls.IndexInjective` | maze_maker.js:59 | different sides have different flags, so there is one flag per side |
| `Walls.CreateTable` | maze_maker.js:51-62 | creates a fresh size x size table in which every cell shows all four walls |
| `Walls.RemoveCellEdge` | maze_maker.js:117-123 | clears the one flag of side `edge` of cell (x, y); every other flag is unchanged |
| `Neighbors.ContainsCell` | maze_maker.js:99-108 | true exactly when some entry has the same x and the same y as the cell |
| `Neighbors.CandidatesSpec` | maze_maker.js:77-82 | the neighbour table (`Candidates`) has four entries, one per direction, each holding the neighbour of the cell in its direction |
| `Neighbors.OpenByCoordinates` | maze_maker.js:85-87 | the test that keeps an entry (`Open`) holds exactly when the cell is inside the grid and no entry of the closed list or of the stack has both its x and its y |
| `Neighbors.FilterOpenMembers` | maze_maker.js:84-91 | the filter (`FilterOpen`) keeps exactly the entries whose cell is inside the grid, not closed and not visited, is no longer than its input, and never repeats a direction |
| `Neighbors.FindNeighbors` | maze_maker.js:72-93 | returns the open entries of the table right, left, bottom, top of (x, y), in that order |
| `Neighbors.OpenNeighborsSpec` | maze_maker.js:72-93 | for the filtered table (`OpenNeighbors`): every returned entry is the neighbour in its own direction and is inside the grid, not visited and not closed; every such neighbour is returned; at most four entries, no direction twice |
| `Neighbors.OpenNeighborsInKeyOrder` | maze_maker.js:77-91 | the filtered table is the kept entries in the literal's key order: right first, then left, bottom and top, each present exactly when its neighbour is open |
| `Neighbors.RandomDirection` | maze_maker.js:110-114 | for an index in `[0, n)` the result is one of the directions in the table |
| `Neighbors.ChosenNeighborIsOpen` | maze_maker.js:37-38 | the chosen direction leads to an open neighbour of the current cell, and only the entry at the drawn index has that key |
| `MazeMaker.ClampSize` | maze_maker.js:21 | the size is in `[1, 100]`, equals the input when the input is already in range, and is 1 or 100 otherwise |
| `MazeMaker.CarvedMembers` | maze_maker.js:42-43 | a flag is cleared by the walk exactly when one advance clears it as its own side or as the facing side of the cell entered |
| `MazeMaker.FacingCarved` | maze_maker.js:42-43 | the walk clears side d of a cell exactly when it clears the facing side of the neighbour in direction d, so every shared wall is cleared on both sides or on neither |
| `MazeMaker.DistinctEdges` | maze_maker.js:37-43 | no two advances join the same pair of cells, neither in the same direction nor in opposite directions, because each advance enters a cell reached for the first time |
| `MazeMaker.SearchInit` | maze_maker.js:19-26 | the stack holding only the start cell, with nothing closed, satisfies the loop invariant |
| `MazeMaker.Backtrack` | maze_maker.js:32-35 | popping a dead end onto the closed list keeps the loop invariant |
| `MazeMaker.Advance` | maze_maker.js:37-40 | pushing the chosen open neighbour and recording the advance keeps the loop invariant |
| `MazeMaker.SearchBound` | maze_maker.js:28-44 | while the loop runs, the cells reached and the cells closed each number at most `size * size` |
| `MazeMaker.SearchDone` | maze_maker.js:28-44 | once the stack is empty every grid cell is closed, and `size * size` cells were reached |
| `MazeMaker.RunBacktrack` | maze_maker.js:32-35 | from a dead end, the walk (`Run`) continues from the state with the top cell popped onto the closed list |
| `MazeMaker.RunAdvance` | maze_maker.js:37-43 | with open neighbours, the walk continues from the state with the neighbour at the drawn index pushed and its advance recorded |
| `MazeMaker.RunDone` | maze_maker.js:28 | with the stack empty the walk stops, and its outcome is the current state |
| `MazeMaker.RunGrows` | maze_maker.js:28-44 | the walk only appends to the reached cells, the closed list and the advances, and keeps the iteration count equal to pushes after the first plus pops |
| `MazeMaker.FirstAdvance` | maze_maker.js:26-43 | on a grid of more than one cell, the start cell has an open neighbour and the first advance of the walk leaves it in the direction at the first drawn index |
| `MazeMaker.TwoByTwoNeighbors` | maze_maker.js:77-91 | on a 2 x 2 grid the corner (0, 0), alone on the stack, has exactly two open neighbours: right (1, 0), then bottom (0, 1) |
| `MazeMaker.TwoByTwoFirstPassage` | maze_maker.js:26-43 | on a 2 x 2 grid from (0, 0), a first draw of 0 carves right, clearing the right wall of (0, 0) and the left wall of (1, 0); a first draw of 1 carves down, clearing the bottom wall of (0, 0) and the top wall of (0, 1) |
| `MazeMaker.ClearSide` | maze_maker.js:117-123 | clearing a flag adds exactly that side to the set of walls the table no longer shows |
| `MazeMaker.CarvePassage` | maze_maker.js:42-43 | an advance clears the wall of the current cell facing the direction and the opposite wall of the next cell, and nothing else |
| `MazeMaker.TreeReaches` | maze_maker.js:28-44 | every cell reached is joined to the start cell by a walk along advances of the tree |
| `MazeMaker.MazeConnected` | maze_maker.js:28-48 | in the finished table every grid cell is reachable from the start cell through passages with both wall flags cleared |
| `MazeMaker.TreeInsideGrid` | maze_maker.js:37-43 | every flag the advances clear lies between two grid cells, so the walk opens no wall on the border |
| `MazeMaker.TreePassage` | maze_maker.js:28-48 | an open passage is an advance of the tree or an advance taken backwards, when every cleared flag is a tree flag or a border flag |
| `MazeMaker.OnlyTreePassages` | maze_maker.js:28-48 | under the same condition, every open passage of the table is a tree edge in one of its two directions |
| `MazeMaker.TwoSidedWalls` | maze_maker.js:42-43 | in the finished table, side d of a grid cell and the facing side of its in-grid neighbour carry the same flag |
| `MazeMaker.BorderSide` | maze_maker.js:46-48 | in the finished table a wall on the border is open exactly when it is the entrance or the exit |
| `MazeMaker.BorderWalls` | maze_maker.js:46-48 | in the first column only the entrance row has no left wall, in the last column only the exit row has no right wall, and the top and bottom rows keep their outer walls |
| `MazeMaker.OpenEntranceAndExit` | maze_maker.js:46-48 | clears exactly the left wall of (0, entrance row) and the right wall of (size - 1, exit row) |
| `MazeMaker.CarveEntranceAndExit` | maze_maker.js:46-48 | after the walk, clears exactly the entrance and the exit beyond the tree's walls; every cell is then reachable from the start, and every open passage is a tree edge |
| `MazeMaker.ExploreStep` | maze_maker.js:29-43 | one iteration keeps the loop invariant, clears exactly the walls of the advance it takes, adds one to pushes plus pops, and leaves the rest of the walk (`Run`) unchanged; at a dead end it pops the top cell onto the closed list and keeps the tree, otherwise it pushes the neighbour at the drawn index and appends its advance |
| `MazeMaker.ExploreDone` | maze_maker.js:28-44 | once the stack is empty every cell is closed once, `2 * size * size - 1` iterations were run, and the state is the walk's outcome for the draws |
| `MazeMaker.Explore` | maze_maker.js:28-44 | the loop runs exactly `2 * size * size - 1` iterations; closes every cell once; the advances form a spanning tree with `size * size - 1` edges; the table then shows exactly the walls the tree clears; the closed list, reached cells, advances and iteration count are the outcome `Generate(size, start, choose)` of the walk for those draws |
| `MazeMaker.BuildMaze` | maze_maker.js:7-49 | closes every cell once; the advances form a spanning tree with `size * size - 1` edges; the table shows exactly the walls not carved and not the entrance or exit; every cell is reachable from the start; every open passage is a tree edge in one of its two directions; `2 * size * size - 1` iterations; the result is `Generate(size, start, choose)`, fixed by the draws |

## Left out

- Page access is not modelled: the input field, clearing the table's HTML,
  `insertRow`/`insertCell` and `classList`. The table is the array of wall
  flags instead.
- `Math.random` is not modelled: the start cell, the direction index and the
  two rows are parameters with range preconditions. Uniformity and other
  distributional claims are not statements about one run and are not
  modelled.
- Reading the size from the input field is not modelled. The field gives a
  string, and JavaScript converts it for `Math.min`/`Math.max`, including a
  NaN result or a fractional size. `ClampSize` models only the integer
  clamp. `BuildMaze` takes an integer `size` of at least 1. The source has
  no fallback to a default size for non-numeric input.
- JavaScript's key enumeration order is not modelled. The neighbour table is
  a sequence in the literal's order: right, left, bottom, top.
- The global variables are not modelled: `size`, and the implicit `table`
  and `keys`.
- Walls.RemoveCellEdge: requires that the row and the column exist. On a
  missing row or column the page lookup returns null and the call fails
  with an exception. `BuildMaze` never makes such a call.
- Neighbors.RandomDirection: returns the key at the drawn index. The loop
  then takes the next cell from the same entry instead of looking the key up
  again. This is the same cell, because no direction occurs twice
  (`ChosenNeighborIsOpen`).
- The spanning tree is stated by its shape (`TreeOrder`): each advance
  enters a cell for the first time, from a cell reached earlier. That shape,
  together with connectivity, the `size * size - 1` edges, no edge carved
  twice (`DistinctEdges`) and the fact that no passage outside the tree is
  open, makes the maze a tree. Acyclicity is
  not proved as a separate graph statement.
- The number of distinct flags cleared (two per advance) is not counted.
- MazeMaker.Generate: on a concrete grid only the first advance is stated
  (`TwoByTwoFirstPassage`). The later advances of the 2 x 2 walk are not
  derived one by one: unfolding the walk on literal cells is too costly for
  the verifier. The counts for that walk (four closed cells, three
  advances, seven iterations) follow from `BuildMaze`'s contract for every
  size.
