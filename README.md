# Grid maze with depth-first carving

A model of the maze core in `src/main.py`; the model is written in Dafny.

- **`Maze`** is a `height × width` grid. Every cell holds four wall flags: north, east, south and west. Indices are `[row][column][direction]`.
  - It also has a start cell `(0, 0)`, an end cell `(height-1, width-1)` and a path list.
  - Its only mutator is `remove_wall(y1, x1, y2, x2)`. It clears one pair of flags, chosen by how the two cells lie relative to each other.
- **`MazeGenerator.generate_dfs`** carves the maze by randomized depth-first search from `maze.start`. The inner `dfs` does the following:
  - marks the cell it is given as visited;
  - shuffles the four directions;
  - for each direction whose neighbour is inside the grid and not yet visited, removes the wall toward that neighbour and recurses into it.

Layout:

- `grid.dfy` (module `Grid`): the basic vocabulary.
  - Cells, wall flags, the four direction offsets in the source's order, and grid adjacency.
  - The set of grid cells and its size.
  - The connectivity fact: a set of cells that holds one grid cell and is closed under in-grid neighbours holds them all.
- `maze.dfy` (module `Mazes`): the class `Maze`, its constructor and `RemoveWall`.
  - The walls are a fixed-size `array3<bool>` that `RemoveWall` updates in place.
  - `Standing()` is the set of flags still set.
  - `Cleared(y1, x1, y2, x2)` is the set of flags that `remove_wall` clears.
  - Lemmas cover consistency between neighbours and the outer border.
- `carving.dfy` (module `Carvings`): a depth-first run is recorded as the sequence of passages it carves, in carving order. This module holds:
  - when such a sequence is a carving grown from a root;
  - the spanning-tree predicate;
  - counting lemmas for passages and cleared flags;
  - walls kept consistent and the border kept intact;
  - every cell reachable from the root through carved passages.
- `generator.dfy` (module `MazeGenerator`): `GenerateDfs`, and the recursive method `Dfs` for the inner `dfs`.
  - `Dfs`'s `for` loop over the shuffled directions calls `TryDirection`, one call per direction. `TryDirection` is the loop body: the bounds-and-visited test, `RemoveWall`, and the recursive call.
  - `visited` is an `array2<bool>` that the methods update in place.
  - Termination is proved on the set of unvisited cells, which shrinks with every recursive call.
  - `Dfs` also returns the passages it carved, as a ghost value.

The call to `random.shuffle` is an oracle, `shuffleAt: Cell -> seq<(int, int)>`. It returns the shuffled direction list drawn when a cell is visited. Every input is required to be a permutation of the four directions. Each cell is visited exactly once, so every run of the source is the run for some oracle.

## Model

| member | source | states |
|---|---|---|
| Mazes.Maze.constructor | src/main.py:5-11 | Creates a `height × width × 4` wall array with every flag standing, so `Standing()` is every flag of the grid. The walls are consistent between neighbours and the border is closed. `start == (0, 0)`, `end == (height-1, width-1)` and `path == []`. |
| Mazes.Maze.RemoveWall | src/main.py:13-27 | For two in-grid cells, the flags still standing afterwards are exactly the old ones minus `Cleared(y1, x1, y2, x2)`. No other flag changes, and `start`, `end` and `path` keep their values. |
| Mazes.Cleared | src/main.py:13-27 | At most two flags, each belonging to one of the two cells. Vertically adjacent cells lose the upper cell's south flag and the lower cell's north flag, whichever cell comes first. Horizontally adjacent cells lose the left cell's east flag and the right cell's west flag, in either order. Nothing is cleared exactly when row and column both differ. Cells that share a column or a row but are not adjacent are covered by `ClearedSkipsInColumn`, `ClearedSkipsInRow` and `ClearedSameCell`, with `ClearedSymmetric` for the reverse argument order. |
| Mazes.ClearedSymmetric | src/main.py:13-27 | `remove_wall(a, b)` and `remove_wall(b, a)` clear the same flags. |
| Mazes.ClearedIdempotent | src/main.py:13-27 | Removing a wall twice has the same effect as removing it once. This follows from `RemoveWall`'s effect being a set difference, not from anything particular to `Cleared`. |
| Mazes.ClearedFacing | src/main.py:13-27 | For adjacent cells, a flag is cleared exactly when it is a's wall toward b or b's wall toward a. |
| Mazes.ClearedInPairs | src/main.py:13-27 | For adjacent cells, a flag is cleared exactly when the flag facing it from the neighbouring cell is cleared. |
| Mazes.ClearedSkipsInColumn | src/main.py:14-17 | For any two cells `d >= 2` rows apart in one column, the upper cell still loses its south flag and the lower cell its north flag, although no single wall separates them. The cell just below the upper one keeps both of those flags. |
| Mazes.ClearedSkipsInRow | src/main.py:21-24 | For any two cells `d >= 2` columns apart in one row, the left cell still loses its east flag and the right cell its west flag. The cell just right of the left one keeps both of those flags. |
| Mazes.ClearedSameCell | src/main.py:14-20 | A cell passed as both arguments loses its north and south flags. |
| Mazes.ClearedInsideGrid | src/main.py:13-27 | For two different in-grid cells, every cleared flag lies between two grid cells. None is on the outer border. |
| Mazes.RemovingKeepsConsistent | src/main.py:13-27 | Removing the wall between adjacent cells keeps every wall recorded alike on both of its sides. |
| Mazes.RemovingKeepsBordered | src/main.py:13-27 | Removing the wall between two different in-grid cells keeps every border flag standing. |
| MazeGenerator.Dfs | src/main.py:35-44 | Marks `(y, x)` and every cell it carves into; the newly marked cells are exactly `(y, x)` plus the cells its passages enter. Each passage joins adjacent in-grid cells. It leaves `(y, x)` or a cell entered earlier, and it enters a cell that was unvisited at the call. Every newly marked cell ends with all of its in-grid neighbours marked. The flags still standing are the old ones minus the flags those passages clear. |
| MazeGenerator.TryDirection | src/main.py:40-44 | One round of the direction loop keeps the loop's facts: marks, carving, closed cells, standing flags. The direction it tried is added to the explored ones. The round only appends passages. When the tried neighbour is in the grid and unvisited, the first passage it appends is the one from `(y, x)` to that neighbour. Otherwise the passages, the visited cells and the standing flags are all unchanged. |
| MazeGenerator.ShuffleExplored | src/main.py:37-40 | Once all four entries of a shuffle have been tried from a cell, every in-grid neighbour of that cell has been visited. |
| MazeGenerator.GenerateDfs | src/main.py:32-48 | The carved passages form a spanning tree of the grid rooted at `maze.start`, with `height * width - 1` passages. The standing flags lose exactly the flags of those passages. On a new maze exactly `2 * (height * width - 1)` flags fall. Consistency and a closed border are preserved. |
| Grid.AllReached | src/main.py:40-44 | A set of cells that holds one grid cell and holds every in-grid neighbour of each of its cells holds the whole grid. |
| Grid.CellsCount | src/main.py:46 | The grid that `visited` covers has `height * width` cells. |
| Carvings.CarvingExtend | src/main.py:42-44 | Extending a carving from a root with the passage `root -> n` and then a carving from `n` into cells not reached yet gives a carving from the root. |
| Carvings.TreeSize | src/main.py:42-44 | A spanning carving has exactly `height * width - 1` passages. |
| Carvings.ClearedByCount | src/main.py:42-43 | A carving of `n` passages clears exactly `2 * n` flags: one wall per passage, seen from both sides. |
| Carvings.ClearedByFacing | src/main.py:42-43 | A flag is cleared exactly when some carved passage joins its cell to the neighbour behind that wall, in either direction. |
| Carvings.CarvingKeepsConsistent | src/main.py:42-43 | Carving passages between adjacent cells keeps the walls consistent between neighbours. |
| Carvings.CarvingKeepsBordered | src/main.py:40-43 | Carving passages between grid cells never opens the outer border. |
| Carvings.SpanningTreeWalls | src/main.py:32-48 | For a spanning carving applied to a set of standing flags: it has `height * width - 1` passages. On a fully walled grid it removes `2 * (height * width - 1)` flags. It keeps consistency and the closed border. |
| Carvings.WalkToEntered | src/main.py:42-44 | A cell entered by a passage of a carving is reached from the root by a walk through carved passages. |
| Carvings.TreeConnects | src/main.py:35-48 | Every cell of the grid is reached from the start by a walk through the passages of the spanning tree. |
| Carvings.LinkedIsOpen | src/main.py:42-43 | Two cells joined by a carved passage no longer have a wall between them. |
| Carvings.OpenPath | src/main.py:32-48 | Once the passages of a spanning tree are removed from the standing flags, as `GenerateDfs` promises, every grid cell is reached from the start along a path of adjacent cells. Each step of that path crosses a wall flag that no longer stands. |

## Left out

- `sys.setrecursionlimit` (src/main.py:33) sets a runtime stack budget. It is not modelled; termination is proved instead by the shrinking set of unvisited cells. The model therefore terminates on grids where the source raises at line 33 or during the recursion. For a grid with no cells, Python rejects a limit of 0 with `ValueError`. For a 1×1 grid, a limit of 2 is no higher than the call depth already in use, so Python raises `RecursionError`. The limit `2 * width * height` is below Python's default for every grid of fewer than 500 cells, and the recursion also counts the frames of `random.shuffle` and of the caller. So small grids can raise `RecursionError` too, as can any grid when the caller is deep enough.
- The randomness of `random.shuffle` (src/main.py:38). The shuffle is an oracle that returns some permutation of the four directions. The source draws one shuffle per `dfs` call, in visiting order. The oracle picks one per cell; since each cell is visited once, the two are equivalent.
- `main()` (src/main.py:51-59): console output only.
- `src/test_maze.py` is a timing and benchmark harness built on clocks, command-line arguments and file output. It is not modelled.
- The disjoint-set structure, Kruskal generation and the breadth-first solver are imported by `src/test_maze.py:8` but defined nowhere in `src/main.py`, so they are not part of this model.
- Mazes.Maze.RemoveWall requires both cells to lie inside the grid. Python raises an index error for an index that is too large and wraps a negative index to the other end of the row, and neither behaviour is modelled.
- Mazes.Maze.constructor takes natural-number dimensions. Python would build empty lists for negative sizes, which the model does not capture.
- MazeGenerator.GenerateDfs requires `maze.start` to lie inside the grid, so it excludes a maze with no cells. Python raises `ValueError` at src/main.py:33 for such a maze, before any cell is visited.
- `remove_wall` does not check that its two cells are adjacent or different, and `Maze` accepts any size. The model follows the code: `RemoveWall` accepts any two in-grid cells. `Mazes.ClearedSkipsInColumn`, `Mazes.ClearedSkipsInRow` and `Mazes.ClearedSameCell` show what it then clears. The consistency lemmas for `RemoveWall` therefore require adjacency.
- Mazes.Maze.RemoveWall states its effect on the whole set of standing flags. The facts that it preserves consistency and the border are separate lemmas about that set (`RemovingKeepsConsistent`, `RemovingKeepsBordered`), not postconditions of the method.
- Acyclicity: the model does not prove on its own that exactly one simple path joins any two cells. It proves connectivity (`TreeConnects`) and the passage count `height * width - 1` (`TreeSize`), which together imply it for a graph.
