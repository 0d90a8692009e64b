# Amazing mazes: a verified model of the generators and solvers

The repository builds perfect mazes on a grid of `2n+1` squares per side and then solves them. In that grid the logical cells sit at odd coordinates, and the squares between them are walls or passages. This project models the two source files that hold the algorithms.

- **maze_build.py**
  - `generate_maze_backtracking`: iterative depth-first carving with an explicit stack over a `'#'`/`'.'` grid.
  - `generate_maze_kruskal`: Kruskal's algorithm over a shuffled list of walls, with a `UnionFind` that compresses paths.
  - `maze_to_ascii`.
- **resolv.py**
  - the encoders `maze_to_ascii` and `ascii_to_binary`;
  - `solve_backtracking`: exhaustive recursive depth-first search sharing one path list and one visited set;
  - `a_star`: Manhattan heuristic, a heap of `(f, g, cell)` tuples, stale entries skipped when popped.

The model keeps the source's own form:

- The carving generator works on an `array2<char>`, and the Kruskal generator on an `array2<int>`.
- `UnionFind` is a class whose `parent` field is rewritten by `Find` and `Union`.
- The edge list is built by a nested loop.
- The depth-first solver is a recursive method. It receives the shared path and visited set as values and returns their new contents.
- A* is a `while` loop over a sequence of heap entries, a score map and a predecessor map.
- The encoders are pure functions. The append loop of `maze_to_ascii` is a method proved equal to the pure map.

Modules:

| file | module | models |
|---|---|---|
| grid.dfy | `Grid` | grid entries (`Wall`/`Open`, the 0/1 and `'#'`/`'.'` encodings), `maze_to_ascii`, `ascii_to_binary` |
| paths.dfy | `GridPaths` | positions `(row, column)`, bounds, openness, the Manhattan distance `h`, walks and reachability |
| carving.dfy | `MazeCarving` | `generate_maze_backtracking` |
| maze_properties.dfy | `MazeProperties` | what the carved maze is: border openings, `n²−1` passages, every cell reachable |
| union_find.dfy | `DisjointSets` | `UnionFind`, `find`, `union` |
| links.dfy | `SquareLinks` | walks through a set of opened squares |
| kruskal.dfy | `MazeKruskal` | `generate_maze_kruskal`, and a corrected variant |
| kruskal_properties.dfy | `KruskalProperties` | what the Kruskal maze is as a 0/1 grid, and when it can be solved |
| solve_dfs.dfy | `DfsSolver` | `solve_backtracking` with its inner `dfs`, `in_bounds` and `is_open` |
| solve_astar.dfy | `AStarSolver` | `a_star` with `h`, `heappush`/`heappop` and the path reconstruction |

**Randomness.** `random.shuffle` is modelled as a function the caller supplies.

- For the carving generator it gives one permutation of the four two-square moves per pass of the main loop.
- For Kruskal it gives one permutation of the wall list.

Every property holds for every such choice.

**Perfect maze.**

- The carving generator is proved to open exactly `n²−1` passage squares between its `n²` cells (`MazeProperties.PassageCount`), and its open squares connect every cell.
- The Kruskal generator is proved to accept exactly `w·h−1` walls between its `w·h` cells (`MazeKruskal.AllJoined`), and the squares those walls open connect every two cells.
- A connected graph with one edge fewer than it has vertices is a tree. So the carving maze is the perfect maze its docstring promises for every `n >= 1`, and the Kruskal maze is one for `w·h >= 2`. For `w = h = 1` the Kruskal code leaves its only cell closed (see "## Findings").

**On these points the model follows the code:**

- Priority ties in `a_star` are broken the way Python compares the tuples `(f, g, (r, c))`: by the smaller `g`, then the smaller row, then the smaller column. They are not broken by insertion order.
- Neither solver falls back to scanning the border for openings when an endpoint is invalid.
- An out-of-bounds `start` does not make `a_star` report an "unreachable endpoint". The search simply runs from it.
- Both solvers take `start = (1, 0)` and `end = None` by default, and `end = None` becomes `(rows − 2, cols − 1)`.
- No generator rejects bad dimensions. The model states instead which dimensions the code can handle (`n >= 1`, `height >= 1`).

## Model

| member | source | states |
|---|---|---|
| Grid.AsciiCell | resolv.py:14-18 | an entry becomes `'#'` exactly when it is 1 or `'#'`, and `'.'` otherwise |
| Grid.AsciiOf | resolv.py:9-20 | the converted grid has the same shape as its input and holds only `'#'`/`'.'` |
| Grid.MazeToAscii | maze_build.py:174-187 | the nested append loop builds exactly the entry-wise conversion of the input grid |
| Grid.AsciiToBinary | resolv.py:22-24 | the result has the input's shape and holds only 0 and 1 |
| Grid.AsciiRoundTrip | resolv.py:9-24 | for a `'#'`/`'.'` grid, `maze_to_ascii(ascii_to_binary(a)) == a` |
| Grid.BinaryRoundTrip | resolv.py:9-24 | for a 0/1 grid, `ascii_to_binary(maze_to_ascii(m)) == m` |
| Grid.AsciiIdempotent | resolv.py:9-20 | converting an already converted grid changes nothing |
| Grid.AsciiKeepsTopology | maze_build.py:181-184 | on a 0/1 grid, converting to `'#'`/`'.'` keeps every square a wall or an opening exactly as it was |
| Grid.BinaryKeepsTopology | resolv.py:24 | `ascii_to_binary` keeps every square a wall or an opening exactly as it was |
| GridPaths.InBounds | resolv.py:53 | a square that passes `in_bounds` can be read in a rectangular grid |
| GridPaths.IsOpen | resolv.py:54 | `is_open` holds exactly when the square, read as a 0/1 entry, is an opening |
| GridPaths.Manhattan | resolv.py:87 | `h(a, b)` is 0 exactly when `a == b`, and 1 exactly when `a` and `b` are 4-adjacent |
| GridPaths.AdjacentIsStep | resolv.py:56-88 | each of the two solvers' direction lists (lines 56 and 88), holding the four unit moves, reaches exactly the 4-adjacent squares |
| GridPaths.ResolveEnd | resolv.py:48-49 | a given end is kept; `end = None` becomes a square of the right border, in bounds on every grid with at least two rows |
| GridPaths.Reverse | resolv.py:109 | `path.reverse()`: the same elements in the opposite order |
| GridPaths.OpenCells | resolv.py:53-54 | the set of squares that are in bounds and hold 0 |
| GridPaths.WalkPrefix | resolv.py:102-110 | every non-empty prefix of a walk is a walk |
| GridPaths.WalkStaysInClosed | resolv.py:63-70 | a walk that starts in a set closed under open neighbours never leaves it |
| GridPaths.ClosedSetCutsOff | resolv.py:76-78 | if a set holds `a`, lacks `b` and holds every open neighbour of its members, then `b` cannot be reached from `a` |
| GridPaths.WalkLongerThanManhattan | resolv.py:87 | a walk between two squares takes at least their Manhattan distance `h` in steps |
| MazeCarving.Half | maze_build.py:43 | the square `(x + dx//2, y + dy//2)` is the midpoint of the move and 4-adjacent to both of its ends |
| MazeCarving.Inside | maze_build.py:38-40 | a square that passes the bounds test lies in the grid and off its border |
| MazeCarving.ShuffleHasAll | maze_build.py:28-33 | a shuffled copy of the four moves holds each move and nothing else |
| MazeCarving.RowSize | maze_build.py:15 | one row of the logical maze has `n` cells |
| MazeCarving.BlockSize | maze_build.py:15 | `r` rows of `n` cells give `r·n` cells |
| MazeCarving.Cells | maze_build.py:38-39 | the logical cells are exactly the odd-coordinate squares strictly inside the border |
| MazeCarving.CellsSize | maze_build.py:15 | there are `n²` logical cells |
| MazeCarving.PassageGrows | maze_build.py:43-48 | giving `nb` the parent `cur` opens exactly one new passage square, the one midway between them |
| MazeCarving.OpenPassage | maze_build.py:43-45 | after carving, the grid shows the old visited cells and passages plus the new cell and the wall midway |
| MazeCarving.CellReached | maze_build.py:30-53 | if the start is visited and no visited cell has an unvisited neighbour, every logical cell is visited |
| MazeCarving.ClosedHoldsAll | maze_build.py:30-53 | under the same conditions, the visited set contains all cells |
| MazeCarving.Picture | maze_build.py:15-16 | the finished maze is `(2n+1) × (2n+1)`, each square given by the final picture |
| MazeCarving.MoveToCell | maze_build.py:37-40 | a move from a cell that passes the bounds test lands on a logical cell two squares away |
| MazeCarving.FinishedGrows | maze_build.py:52-53 | a cell with no unvisited neighbour keeps that property as the visited set grows |
| MazeCarving.Push | maze_build.py:47-48 | pushing an unvisited in-bounds neighbour keeps the loop invariant: a tree over the visited cells, stacked cells visited, cells off the stack finished |
| MazeCarving.Pop | maze_build.py:52-53 | popping a cell with no unvisited neighbour keeps the loop invariant |
| MazeCarving.Finish | maze_build.py:30 | when the stack is empty, all `n²` cells are visited and the parent map is a spanning tree rooted at (1, 1) |
| MazeCarving.FindMove | maze_build.py:36-50 | the loop finds the first direction in the shuffled order whose target is inside and unvisited, or reports that there is none |
| MazeCarving.OpenDoors | maze_build.py:56-57 | after the entrance (0, 1) and exit (2n, 2n−1) are opened, the grid is the final picture |
| MazeCarving.Advance | maze_build.py:31-53 | one pass of the main loop either pushes one new cell with its parent (the top of the stack) or pops a finished top, and keeps grid and invariant in step |
| MazeCarving.GenerateBacktracking | maze_build.py:5-59 | a fresh `(2n+1)²` grid equal to the picture of a spanning tree over all `n²` cells rooted at (1, 1); the loop runs exactly `2n²−1` times |
| MazeProperties.BinaryMaze | resolv.py:22-24 | the carved maze as a 0/1 grid is rectangular, of side `2n+1` |
| MazeProperties.BinaryMazeAt | resolv.py:24 | a square is 0 in the 0/1 grid exactly when the carved maze shows `'.'` there |
| MazeProperties.PictureIsMaze | maze_build.py:15-16 | the maze holds only `'#'`/`'.'`; on the border exactly (row 1, col 0) and (row 2n−1, col 2n) are `'.'` |
| MazeProperties.EdgeCount | maze_build.py:43-48 | the tree has exactly `n²−1` edges: one per visited cell other than the start |
| MazeProperties.PassageCount | maze_build.py:43-48 | the carved maze has exactly `n²−1` passage squares between cells |
| MazeProperties.PassagesAreMids | maze_build.py:43-44 | the passage squares are exactly the midpoints of the tree edges |
| MazeProperties.PassageIsMid | maze_build.py:43-44 | every passage square is the midpoint of some tree edge |
| MazeProperties.MidIsPassage | maze_build.py:43-44 | the midpoint of a tree edge is a passage square |
| MazeProperties.MidSides | maze_build.py:43 | a tree edge is determined by its midpoint: its cells are the two squares on either side of it |
| MazeProperties.MidInjective | maze_build.py:43-44 | two tree edges with the same midpoint are the same edge, so no passage serves two edges |
| MazeProperties.MidImageSize | maze_build.py:43-48 | distinct edges give as many midpoints as there are edges |
| MazeProperties.ParentPassage | maze_build.py:43-44 | the wall midway between a cell and its parent is a passage |
| MazeProperties.ExtendWalk | maze_build.py:43-45 | an open walk extended by a passage square and the next cell is still an open walk |
| MazeProperties.WalkStep | maze_build.py:43-45 | a walk to a cell's parent extends to a walk to the cell |
| MazeProperties.WalkFromStart | maze_build.py:7 | every cell is joined to (1, 1) by an open walk in the maze |
| MazeProperties.EveryCellReachable | maze_build.py:7 | every logical cell can be reached from the start cell |
| MazeProperties.EntranceReachesExit | maze_build.py:56-57 | the exit (2n−1, 2n) can be reached from the entrance (1, 0) |
| DisjointSets.Root | maze_build.py:124-127 | following parents from `x` ends at an element that is its own parent |
| DisjointSets.Compress | maze_build.py:125-126 | pointing `x` at its root keeps the forest and changes no element's root |
| DisjointSets.Link | maze_build.py:130-131 | hanging root `ry` under root `rx` moves exactly the elements rooted at `ry` to `rx` |
| DisjointSets.LinkTops | maze_build.py:131 | linking removes exactly `ry` from the set of roots |
| DisjointSets.IdentityTops | maze_build.py:123 | the initial parent list `0 .. size−1` has `size` roots |
| DisjointSets.OneTop | maze_build.py:128-133 | when all elements share one root, that root is the only one: a single set |
| DisjointSets.UnionFind.constructor | maze_build.py:122-123 | `parent[i] == i` for every `i < size`, giving `size` singleton sets |
| DisjointSets.UnionFind.Find | maze_build.py:124-127 | returns the old root of `x`, which is its own parent; no element's root and no root changes |
| DisjointSets.UnionFind.Union | maze_build.py:128-133 | returns true exactly when the roots of `x` and `y` differed; afterwards they share a root; `y`'s set moves to `x`'s root and every other element keeps its root; a merge removes exactly one root |
| SquareLinks.LinkedSymmetric | maze_build.py:164-166 | connections through opened squares go both ways |
| SquareLinks.LinkedTransitive | maze_build.py:164-166 | connections through opened squares compose |
| SquareLinks.LinkedGrows | maze_build.py:164-166 | opening more squares keeps every connection |
| SquareLinks.LinkedReachable | maze_build.py:164-166 | a connection through squares that are all 0 is a path the solvers can follow |
| MazeKruskal.RowsCountIs | maze_build.py:150-156 | the rows list `(w−1)·h` right walls and `w·(h−1)` lower walls |
| MazeKruskal.CandidateEdges | maze_build.py:150-156 | the list holds exactly the pairs of a cell with its right or lower neighbour, each once, `(w−1)·h + w·(h−1)` of them, and is empty when a dimension is 0 |
| MazeKruskal.CellId | maze_build.py:147-148 | for `0 <= x < w` and `y >= 0`, `cell_id(x, y) % w == x` and `cell_id(x, y) // w == y` |
| MazeKruskal.IdRange | maze_build.py:148 | `y·w + x` lies in `0 .. w·h−1` for a cell inside the grid |
| MazeKruskal.CellIdInRange | maze_build.py:147-148 | `cell_id` of a cell lies in `0 .. w·h−1` |
| MazeKruskal.CellOfId | maze_build.py:147-148 | `cell_id` can be inverted: the id determines the cell |
| MazeKruskal.IdIsCell | maze_build.py:147-148 | every id in range is the `cell_id` of exactly one cell |
| MazeKruskal.OpenedSnoc | maze_build.py:164-166 | accepting an edge opens its two cell squares and the wall square between them |
| MazeKruskal.WallBetween | maze_build.py:166 | the wall square `((y1+y2)+1, (x1+x2)+1)` is adjacent to both cell squares |
| MazeKruskal.FreshJoins | maze_build.py:159 | at the start no two cells share a set |
| MazeKruskal.JoinsStep | maze_build.py:163-166 | after `union`, every two cells in one set are connected through the opened squares; the edge is accepted exactly when the roots differed |
| MazeKruskal.OpenEdge | maze_build.py:164-166 | sets exactly the two cell squares and the wall square of an edge to 0 |
| MazeKruskal.StateStep | maze_build.py:161-166 | one loop iteration keeps the loop invariant: same set ⇒ connected, and both cells of every processed edge in one set |
| MazeKruskal.CarveOne | maze_build.py:163-166 | one edge: `union` decides, the squares are opened exactly on success, and a success removes one set |
| MazeKruskal.Carve | maze_build.py:161-166 | afterwards the grid's zeros are the squares of the accepted edges, and accepted edges plus remaining sets number `w·h` |
| MazeKruskal.CellJoined | maze_build.py:161-166 | when both cells of every candidate edge share a set, every cell shares the root of cell 0 |
| MazeKruskal.AllJoined | maze_build.py:161-166 | after all edges, exactly `w·h−1` edges were accepted and they connect every two cells |
| MazeKruskal.ShuffledCandidates | maze_build.py:158 | a permutation of the edge list holds only candidate edges |
| MazeKruskal.ShuffledEdges | maze_build.py:150-158 | the shuffled list holds every candidate edge exactly once and nothing else |
| MazeKruskal.DistinctOnce | maze_build.py:150-156 | a list without repeats holds each of its members exactly once |
| MazeKruskal.OpenDoors | maze_build.py:169-170 | sets exactly `maze[1][0]` and `maze[2h−1][2w]` to 0 |
| MazeKruskal.CarveAll | maze_build.py:159-166 | carving all the shuffled edges accepts `w·h−1` candidate edges that connect every two cells |
| MazeKruskal.GenerateKruskal | maze_build.py:135-171 | a fresh `(2h+1) × (2w+1)` 0/1 grid whose zeros are the doors and the squares of `w·h−1` accepted candidate edges, which connect every two cells (the code as written) |
| MazeKruskal.GenerateKruskalOpen | maze_build.py:135-171 | the corrected generator: the same, with every cell square 0 as well |
| KruskalProperties.KruskalGrid | maze_build.py:145 | the Kruskal maze as a value: rectangular, `(2h+1) × (2w+1)`, each square as the generator leaves it |
| KruskalProperties.OpenCellsGrid | maze_build.py:145 | the corrected maze as a value, with the same shape |
| KruskalProperties.OpenedInside | maze_build.py:164-166 | every opened square lies strictly inside the border |
| KruskalProperties.OpenedFree | maze_build.py:164-166 | every opened square is an open in-bounds square of the grid |
| KruskalProperties.DoorsOpen | maze_build.py:169-170 | the entrance `maze[1][0]` and the exit `maze[2h−1][2w]` are 0 |
| KruskalProperties.FirstLastLinked | maze_build.py:137 | when the maze has two or more cells, the first and last cells are connected through the opened squares |
| KruskalProperties.DoorsLinked | maze_build.py:169-170 | with open doors, a connection from the first to the last cell gives a path from entrance to exit |
| KruskalProperties.KruskalSolvable | maze_build.py:135-171 | with two or more cells, the exit can be reached from the entrance |
| KruskalProperties.OneCellBlocked | maze_build.py:145-170 | for `width = height = 1` nothing is accepted; the only cell stays 1, and the exit (1, 2) cannot be reached from the entrance (1, 0) |
| KruskalProperties.OneCellOpen | maze_build.py:169-170 | in the corrected generator, the 1 × 1 maze can be solved |
| KruskalProperties.ManyCellsOpen | maze_build.py:161-170 | in the corrected generator, a maze with two or more cells can be solved |
| KruskalProperties.OpenCellsSolvable | maze_build.py:135-171 | in the corrected generator, the exit can be reached from the entrance for every `w, h >= 1` |
| DfsSolver.FoundStep | resolv.py:68-69 | a path found from a neighbour `nb` of `u` extends to a path from `u` |
| DfsSolver.Dfs | resolv.py:58-71 | `dfs(u)` is entered only on an unvisited cell, only adds open in-bounds cells to visited and never adds end; if it finds end, it appends a simple open walk from `u` to end; if not, it restores the path and leaves the newly visited cells closed under open neighbours |
| DfsSolver.SolveBacktracking | resolv.py:46-79 | returns a path exactly when start and end are open and end can be reached; it is a simple open walk from start to end; with a closed endpoint visited is empty; visited holds only open cells and never end |
| AStarSolver.EntryLe | resolv.py:91 | the tuple order on heap entries `(f, g, (r, c))`: a smaller `f` comes first, only entries with `f` no larger can come first, and every entry is ordered with itself |
| AStarSolver.EntryLeAntisymmetric | resolv.py:91 | two entries that each precede the other are equal |
| AStarSolver.EntryLeTotal | resolv.py:91 | any two heap entries compare one way or the other |
| AStarSolver.EntryLeTransitive | resolv.py:91 | the tuple order on entries is transitive |
| AStarSolver.PopMin | resolv.py:96 | `heappop` takes out an entry no other entry precedes; the rest is the heap without it |
| AStarSolver.ManhattanTriangle | resolv.py:87 | `h` obeys the triangle inequality, so the heuristic is consistent |
| AStarSolver.FrontierEntry | resolv.py:112-122 | along any walk from start to an unclosed cell, some heap entry has `f` at most the walk's length plus `h` of its end |
| AStarSolver.ScoredAlongWalk | resolv.py:116-122 | the cell after a closed cell on a walk from start has a score no larger than its position on the walk |
| AStarSolver.PopIsOptimal | resolv.py:96-100 | the least entry of an unclosed cell carries a cost no walk from start to that cell beats |
| AStarSolver.ExhaustedMeansUnreachable | resolv.py:124 | once the heap is empty without end closed, no walk from start reaches end |
| AStarSolver.SkipStale | resolv.py:97-98 | popping an entry of an already closed cell keeps the loop invariant |
| AStarSolver.ScoredIsOpen | resolv.py:113-121 | every scored cell other than start is open and in bounds |
| AStarSolver.CloseCell | resolv.py:96-99 | closing the cell of the least entry keeps its cost, which no walk beats |
| AStarSolver.Reestablish | resolv.py:112-122 | once every open neighbour of the closed cell is scored, the loop invariant holds again |
| AStarSolver.LogClosing | resolv.py:97-99 | closing an unclosed cell extends the log of closings without repeats |
| AStarSolver.AStar | resolv.py:82-124 | a returned path is a walk from start to end, every cell after start open and in bounds, no longer than any other such walk; no path exactly when no walk reaches end; a path exactly when end was closed; each cell closed at most once |
| AStarSolver.FoundIsShortest | resolv.py:102-110 | the reconstructed walk is no longer than any walk from start to end |
| AStarSolver.RelaxScores | resolv.py:116-122 | a relaxation keeps the scores consistent: each predecessor is 4-adjacent and has a strictly smaller score, and start keeps 0 |
| AStarSolver.Relax | resolv.py:118-122 | a relaxation keeps the queue truthful and every unclosed scored cell queued |
| AStarSolver.RelaxNeighbour | resolv.py:113-122 | one neighbour: an open in-bounds neighbour ends with a score at most `g + 1`, and no score goes up |
| AStarSolver.Expand | resolv.py:112-122 | afterwards every open neighbour of the current cell has a score at most `g + 1`, and no score goes up |
| AStarSolver.ChainSnoc | resolv.py:105-107 | appending the predecessor of the last cell extends a predecessor chain |
| AStarSolver.ChainWalk | resolv.py:105-110 | a predecessor chain read backwards is a walk |
| AStarSolver.LinkStep | resolv.py:105-107 | a cell with a predecessor is open and 4-adjacent to it |
| AStarSolver.Reconstruct | resolv.py:103-110 | following `came_from` back from end terminates and, reversed, gives a walk from start to end of at most `g_score[end]` steps |

## Left out

- The animated generator `generate_maze_backtracking_animated` (maze_build.py:62-118). It repeats the carving loop around console drawing and sleeping.
- The printing helpers `print_maze`, `print_ascii` and `print_maze_with_path`, and the `__main__` blocks of both files. They are console input, printing, and timing and memory measurement with `time` and `tracemalloc`.
- save.py is not part of this model. It only writes the rendered maze to a text file.
- `random.seed` and Python's shuffle algorithm. Shuffles are arbitrary permutations supplied by the caller, so the model does not say that one seed always gives the same maze.
- The array layout of `heapq`. The heap is the sequence of its entries, and `heappop` takes out a least entry under the tuple order. When two entries are equal, which copy goes first makes no difference to the results.
- The claim that path compression is fast (amortised cost). It is not functional behaviour.
- The rank in `DisjointSets.UnionFind` is ghost. It exists only so that the recursion of `find` provably ends, and the source keeps no ranks.
- Partial or ragged grids. The solvers are modelled on rectangular 0/1 grids with at least one row, as they take `rows = len(maze01)` and `cols = len(maze01[0])`. Entries of a generated grid are modelled as integers or characters, not as arbitrary Python values.
- MazeCarving.GenerateBacktracking: requires `n >= 1`, because `n = 0` makes maze_build.py:23 index past a 1 × 1 grid.
- MazeKruskal.GenerateKruskal: requires `height >= 1`, because `height = 0` makes maze_build.py:169 index past a one-row grid. `width = 0` is allowed, as in the source.
- DfsSolver.SolveBacktracking: requires start and end in bounds. For positions beyond the grid the source raises `IndexError` at resolv.py:73, and for negative ones Python counts from the end of the row. The model does not follow either.
- MazeProperties.EdgeCount, MazeProperties.PassageCount: the carved maze's lack of cycles is stated as "`n²−1` passage squares joining all `n²` cells" plus connectivity, not as a separate statement that there are no cycles.
- MazeKruskal.AllJoined: the Kruskal maze's count is of accepted walls (`w·h−1`), not of opened squares, and its lack of cycles is left to the same edge-count argument.
- DfsSolver.Dfs, DisjointSets.UnionFind.Find: the model does not follow Python's recursion limit (about 1000 frames). The source raises `RecursionError` on a search path or a parent chain that deep, where the model still returns a result.

## Findings

| source | as written | input that shows it | evidently intended | confidence | as-written member | corrected member |
|---|---|---|---|---|---|---|
| maze_build.py:145-170 | cell squares are only opened when a wall next to them is carved, so a maze with no walls to carve keeps its only cell at 1 | `generate_maze_kruskal(1, 1)`: no edges; `maze[1][1]` stays 1 while entrance (1, 0) and exit (1, 2) are 0, so the exit cannot be reached | every cell of the perfect maze open, so the exit can always be reached from the entrance | not executed | MazeKruskal.GenerateKruskal, KruskalProperties.OneCellBlocked | MazeKruskal.GenerateKruskalOpen, KruskalProperties.OpenCellsSolvable |
