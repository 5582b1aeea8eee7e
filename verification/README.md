# Maze carving: cells, grid and depth-first generator

A model of the carving core of a small Ruby maze generator. A maze is a grid
of `nx` columns of `ny` cells, `cells[x][y]`, each cell closed off by up to
four walls (N, S, E, W). `create` carves a perfect maze into a fresh grid by
randomized depth-first search with an explicit stack: from the current cell
it knocks down the wall to a random neighbour that still has all its walls,
pushes the current cell and moves on; at a dead end it pops the stack.

The Dafny project has four modules, one file each:

- `cells.dfy` (`Cells`): directions, the opposite-direction table
  `WALL_PAIRS`, a cell's wall flags, `all_walls?` and `knock_down_wall`.
- `grids.dfy` (`Grids`): positions, the direction deltas, the grid and its
  constructor, `cell_at` with Ruby's array-index rules, knocking down the
  wall between two grid neighbours, and `find_unvisited_neighbours`.
- `carving.dfy` (`Carving`): the graph a maze defines. It holds the set of
  grid positions and its size `nx*ny`, the open wall pairs (each named once,
  by its south or east side), paths through open walls, and the fact that a
  set of cells closed under taking neighbours is the whole grid.
- `generator.dfy` (`Generator`): the loop state of `create` (maze, current
  cell, stack, `nv`), its two steps, the loop invariant, the loop itself
  (`Carve`) and the whole `create` call including its nil cases (`Create`).

Modelling choices:

- Cells are values, and a cell is identified by its position. The stack
  therefore holds positions, and knocking down a wall returns the updated
  grid.
- Ruby integers do not overflow, so Dafny's unbounded `int` is exact here.
- `neighbours.sample` is an arbitrary choice of an index (`:|`). Every
  contract of `Carve` and `Create` holds for every sequence of choices.
- The proof carries a ghost set of visited cells and a ghost path from the
  start to each of them through the loop. The loop invariant says:
  - neighbouring cells agree on their shared wall, and the border is intact;
  - `nv` is the number of visited cells;
  - a cell is unvisited exactly when it still has all its walls, except the
    start before the first move;
  - there are `nv - 1` open wall pairs;
  - every visited cell is reachable from the start;
  - every visited cell that is neither current nor on the stack has no
    unvisited neighbour left.
- Termination is the lexicographic pair `(n - nv, |stack|)`.
- `Maze.new` does not check its dimensions: a non-positive one gives a grid
  without cells (`n.times` does nothing). `cell_at` is a plain double array
  read: negative indices count from the end, a missing cell is nil, and a
  missing column raises NoMethodError. `create` never checks for an empty
  stack; the model proves the pop is never taken on one while `nv < n`.
  `create` raises when `cells[ix]` is nil (at `cells[ix][iy]`, before the
  loop), or when `cells[ix][iy]` is nil and nx*ny > 1 (on the first listing
  of neighbours); with a nil start cell and at most one cell the loop never
  runs and `create` returns normally. `Create` models all of these cases.

## Model

| member | source | states |
|---|---|---|
| Cells.Opp | cell.rb:11-16 | The paired direction is never the direction itself and lies on the same axis (N/S or E/W) |
| Cells.OppInvolution | cell.rb:11-16 | WALL_PAIRS is its own inverse, and no two directions share a partner |
| Cells.NewCell | cell.rb:18-28 | A new cell keeps the coordinates it is given and has all four walls up |
| Cells.AllWalls | cell.rb:30-33 | `all_walls?` holds exactly when the cell has its wall in every direction |
| Cells.KnockDownWall | cell.rb:35-39 | The first cell loses its wall facing `d` and the other loses its wall facing the opposite of `d`. Every other flag of both cells is unchanged, both keep their coordinates, and neither has all its walls afterwards |
| Cells.KnockDownIdempotent | cell.rb:35-39 | Knocking down the same wall a second time leaves both cells as the first time left them |
| Grids.Step | maze.rb:59-64 | A delta step always leaves the cell and moves exactly one unit along the axis of its direction |
| Grids.StepOpp | maze.rb:59-64 | Stepping back in the paired direction returns to the cell, and distinct directions lead to distinct cells |
| Grids.NewMaze | maze.rb:8-21 | The constructor keeps nx, ny, ix and iy, with ix and iy 0 when not given. It builds max(nx,0) columns of max(ny,0) cells. `cells[x][y]` has coordinates (x, y) and all walls up, and for non-negative dimensions the grid is well formed and untouched |
| Grids.NewMazeDefaultStart | maze.rb:8 | A maze built without `ix:` and `iy:` starts carving at (0, 0) |
| Grids.PristineInvariants | maze.rb:15-20 | In a freshly built grid, neighbours agree on every shared wall and the whole border stands |
| Grids.Index | maze.rb:23-26 | Ruby's array read gives an element exactly for indices in [-len, len): a non-negative index reads that slot, and a negative one counts from the end |
| Grids.CellAt | maze.rb:23-26 | `cell_at` raises (nil column) exactly when x is outside [-nx, nx). It returns a cell exactly when y is also inside [-ny, ny). For in-grid coordinates the cell is `cells[x][y]`, with coordinates (x, y). For negative ones it is the cell at the wrapped position |
| Grids.KnockDown | maze.rb:98 | Knocking down the wall towards an in-grid neighbour clears it on both sides and leaves neither cell with all walls. No other cell and no other wall flag changes, and the grid keeps its shape |
| Grids.KnockDownSymmetric | maze.rb:98 | Knocking down a wall keeps neighbouring cells in agreement on every shared wall |
| Grids.KnockDownBorder | maze.rb:98 | Knocking down a wall towards an in-grid neighbour never clears a border wall |
| Grids.UnvisitedAlong | maze.rb:67-75 | Scanning a list of directions yields at most one entry per direction scanned. Each entry names an in-grid neighbour at the delta step that still has all walls, together with that very cell |
| Grids.UnvisitedAlongComplete | maze.rb:67-75 | Every scanned direction whose in-grid neighbour still has all walls appears in the scan |
| Grids.UnvisitedAlongDistinct | maze.rb:67-75 | Scanning distinct directions yields entries with distinct directions |
| Grids.DeltaOrderCovers | maze.rb:59-64 | The delta table lists every direction exactly once |
| Grids.UnvisitedNeighbours | maze.rb:57-78 | `find_unvisited_neighbours` returns at most four pairs with distinct directions. Each pair is (d, the cell one step in d), and that cell is inside the grid with all walls. A direction appears if and only if its neighbour is inside the grid with all walls |
| Carving.GridSize | maze.rb:82 | The grid has exactly nx*ny positions, the `n` the loop counts towards |
| Carving.PristineOpenPairs | maze.rb:15-20 | A freshly built grid has no open wall pair |
| Carving.KnockDownOpensOnePair | maze.rb:98 | Knocking down a standing wall between neighbours adds exactly that one pair to the open pairs, so their count grows by one |
| Carving.OtherPairUnchanged | maze.rb:98 | A wall pair other than the one knocked down is open afterwards exactly when it was open before |
| Carving.KnockDownOpensOnly | maze.rb:98 | Knocking down a wall closes no open wall |
| Carving.PathSurvives | maze.rb:98 | A path through open walls is still a path after more walls come down |
| Carving.PathExtend | maze.rb:98-100 | A path to the current cell extends by one step across the wall just opened |
| Carving.ClosedIsEverything | maze.rb:59-64 | Under the delta steps the grid is connected: a set holding one cell and every in-grid neighbour of each member is the whole grid |
| Generator.Advance | maze.rb:96-101 | The forward step clears the wall pair between the current cell and its neighbour in `d`, and no other wall. It pushes the current cell, moves to the neighbour and adds one to `nv` |
| Generator.Backtrack | maze.rb:91-94 | The dead-end step pops the top of the stack into the current cell, leaving walls and `nv` alone. It has nothing to pop exactly when the stack is empty |
| Generator.BacktrackUndoesAdvance | maze.rb:93-100 | A pop right after a forward step returns to the cell and stack the step started from |
| Generator.InitInvariant | maze.rb:82-87 | The state before the first iteration satisfies the loop invariant. The current cell is the start, the stack is empty, `nv = 1`, and no pair is open |
| Generator.InitVisitedByWalls | maze.rb:82-87 | Before the first iteration `nv = 1` counts the start, the only visited cell, and every other cell has all its walls |
| Generator.InitTreeSoFar | maze.rb:82-87 | Before the first iteration no pair is open and the start is reached from itself |
| Generator.ForwardTarget | maze.rb:89-98 | The neighbour picked from the list is inside the grid and unvisited, and the wall to it still stands |
| Generator.AdvanceGridOk | maze.rb:98 | A forward step keeps wall agreement and the intact border |
| Generator.AdvanceVisitedByWalls | maze.rb:96-101 | After a forward step `nv` counts the visited cells. The unvisited cells are still exactly those with all walls |
| Generator.ExtendPaths | maze.rb:98-100 | Adding the new cell with the current cell's path extended by one step keeps a path from the start to every visited cell |
| Generator.AdvanceTreeSoFar | maze.rb:96-101 | After a forward step the open pairs are one fewer than the visited cells, and every visited cell is reachable from the start |
| Generator.AdvanceWalkInside | maze.rb:96-101 | After a forward step the current cell and the whole stack are visited cells inside the grid |
| Generator.AdvanceDoneBehind | maze.rb:96-101 | After a forward step, every visited cell that is neither current nor stacked still has no unvisited neighbour |
| Generator.AdvanceInvariant | maze.rb:96-101 | A forward step to any listed neighbour keeps the whole loop invariant, with the target added to the visited cells |
| Generator.DeadEndFinished | maze.rb:89-91 | An empty neighbour list means every in-grid neighbour of the current cell is visited |
| Generator.StuckOnlyWhenDone | maze.rb:88-93 | At a dead end the stack can be empty only when `nv = n` |
| Generator.BacktrackWalkInside | maze.rb:93 | Popping a non-empty stack moves to a visited cell inside the grid, and the rest of the stack stays visited and inside |
| Generator.BacktrackDoneBehind | maze.rb:91-94 | Popping away from a finished dead end leaves every cell behind the walk finished |
| Generator.BacktrackInvariant | maze.rb:91-94 | While `nv < n`, the pop at a dead end is never taken on an empty stack, and it keeps the loop invariant |
| Generator.DoneIsSpanningTree | maze.rb:88-102 | When `nv = n` every cell has been visited. There are exactly n-1 open pairs and every cell is reachable from the start. With more than one cell, no cell keeps all its walls |
| Generator.Carve | maze.rb:82-102 | The loop terminates on a fresh grid with the start inside it. Neighbours agree on every wall and the border stands. Exactly nx*ny-1 wall pairs are open and every cell is reachable from the start (ix, iy). With more than one cell no cell keeps all walls; with one cell the grid is returned untouched |
| Generator.NewMazeConstructed | maze.rb:8-21 | `Maze.new` builds max(nx,0) columns of max(ny,0) cells, each a new cell at its own (x, y): the only kind of maze `Create` is applied to |
| Generator.FoundStart | maze.rb:84 | If `cells[ix][iy]` is a cell of a freshly built maze, the grid has at least one row and one column and the start lies inside it |
| Generator.Create | maze.rb:80-103 | `create` raises exactly when `cells[ix][iy]` hits a nil column, or is nil while there are at least two cells. With at most one cell it changes nothing. Otherwise the result is a spanning tree as in `Carve` |
| Generator.TwoByOneCandidates | maze.rb:82-102 | In a two-by-one grid the only wall pair that can be open is the one between the two cells |
| Generator.TwoByOneOpenPair | maze.rb:82-102 | A two-by-one grid with one open pair, as `create` leaves it, has exactly the pair between its two cells open |
| Generator.OpenPairIsDown | maze.rb:98 | Under wall agreement, an open pair is down on both of its sides |
| Generator.TwoByOneScenario | maze.rb:82-102 | A carved two-by-one maze has the wall between its cells down, seen from both cells |
| Generator.SingleRowKeepsNorthSouth | maze.rb:82-102 | In a single-row maze with its border intact, every cell keeps its north and south walls |

## Left out

- `Cell#print`, `Maze#print` and `Maze#write_svg`: console and file output, with no effect on the maze.
- The distribution of `neighbours.sample`: the pick is an arbitrary index, so no claim is made about uniformity or about the maze a given seed produces.
- Generator.Create: assumes the maze is the one `Maze.new` built and `create` has not run on it yet. A second call would start from a carved grid; it is not modelled.
- Generator.Create: the NoMethodError is a single `Raised` outcome, without its message; both nil cases raise before any wall is touched.
- Grids.UnvisitedNeighbours: the result's W, E, S, N order comes from the definition but is not stated in the contract, because it only decides which neighbour a random pick lands on.
- Object identity: Ruby's stack holds cell objects that alias the grid. The model's stack holds positions, which identify the same cells.
- Cells.KnockDownWall: modelled for two distinct cells, as `create` uses it (the neighbour is always a different cell). The self-call `c.knock_down_wall(c, d)`, which in Ruby clears both `d` and its paired flag on the one object, cannot be expressed with cells as values.
- `test.rb` and `require "pry"`: a driver script and a debugging dependency, with no carving logic.
