/** Maze generation by randomized depth-first carving. The random shuffle of
    the four directions is an oracle `shuffleAt`: the shuffled list drawn when
    a cell is visited. Every cell is visited once, so each run of the
    generator is the run for some such oracle. */
module MazeGenerator {
  import opened Grid
  import opened Mazes
  import opened Carvings

  /** A shuffled copy of the four direction offsets. */
  ghost predicate IsShuffle(p: seq<(int, int)>) {
    multiset(p) == multiset(Directions)
  }

  /** The cell one step d away from c. */
  function Step(c: Cell, d: (int, int)): Cell {
    (c.0 + d.0, c.1 + d.1)
  }

  /** Every entry of a shuffle is one of the four directions. */
  lemma ShuffleEntry(p: seq<(int, int)>, i: int)
    requires IsShuffle(p) && 0 <= i < |p|
    ensures p[i] in Directions
  {
    assert p[i] in multiset(p);
  }

  /** One step in one of the four directions reaches an adjacent cell. */
  lemma DirectionStep(d: (int, int), c: Cell)
    requires d in Directions
    ensures Adjacent(c, Step(c, d)) && Step(c, d) != c
  {
  }

  /** Every in-grid cell one step along the first `count` entries of `dirs`
      from c is in `reached`. */
  ghost predicate Explored(reached: set<Cell>, c: Cell, dirs: seq<(int, int)>, count: int, height: int, width: int)
    requires count <= |dirs|
  {
    forall j :: 0 <= j < count && InGrid(Step(c, dirs[j]), height, width) ==> Step(c, dirs[j]) in reached
  }

  lemma ExploredGrows(small: set<Cell>, large: set<Cell>, c: Cell, dirs: seq<(int, int)>, count: int, height: int, width: int)
    requires count <= |dirs| && small <= large && Explored(small, c, dirs, count, height, width)
    ensures Explored(large, c, dirs, count, height, width)
  {
  }

  /** A shuffle holds all four directions. */
  lemma ShuffleCovers(p: seq<(int, int)>, k: int)
    requires IsShuffle(p) && 0 <= k < 4
    ensures exists j :: 0 <= j < |p| && p[j] == Directions[k]
  {
    assert Directions[k] in multiset(Directions);
    assert Directions[k] in p;
  }

  /** The cells marked in `visited`. */
  ghost function Marked(visited: array2<bool>): (s: set<Cell>)
    reads visited
    ensures s <= Cells(visited.Length0, visited.Length1)
  {
    set y, x | 0 <= y < visited.Length0 && 0 <= x < visited.Length1 && visited[y, x] :: (y, x)
  }

  /** The cells not marked in `visited`. */
  ghost function Unvisited(visited: array2<bool>): set<Cell>
    reads visited
  {
    set y, x | 0 <= y < visited.Length0 && 0 <= x < visited.Length1 && !visited[y, x] :: (y, x)
  }

  /** The bookkeeping of one round of the loop in Dfs that carves root -> n
      and recurses into n. `marked0` holds the cells visited before root,
      `before` and `after` the cells visited before and after the round; s0
      holds the flags standing when root was visited, s1 those before the
      round, s2 those after the wall toward n fell and s3 those after the
      recursive call. Returns the passages carved from root so far. */
  lemma Round(marked0: set<Cell>, root: Cell, carved: seq<Edge>, n: Cell, sub: seq<Edge>,
               before: set<Cell>, after: set<Cell>,
               s0: set<Flag>, s1: set<Flag>, s2: set<Flag>, s3: set<Flag>, height: int, width: int)
      returns (all: seq<Edge>)
    requires before == marked0 + {root} + Children(carved)
    requires forall j :: 0 <= j < |carved| ==> carved[j].1 !in marked0
    requires forall c :: c in Children(carved) ==> Closed(before, c, height, width)
    requires n !in before
    requires after == before + {n} + Children(sub)
    requires forall j :: 0 <= j < |sub| ==> sub[j].1 !in before
    requires forall c {:trigger Closed(after, c, height, width)} :: c in after - before ==> Closed(after, c, height, width)
    requires Carving(carved, root, height, width) && Carving(sub, n, height, width)
    requires InGrid(root, height, width) && InGrid(n, height, width) && Adjacent(root, n) && n != root
    requires s1 == s0 - ClearedBy(carved) && s2 == s1 - Carve((root, n)) && s3 == s2 - ClearedBy(sub)
    ensures before <= after && n in after
    ensures Carving(all, root, height, width)
    ensures after == marked0 + {root} + Children(all)
    ensures forall j :: 0 <= j < |all| ==> all[j].1 !in marked0
    ensures forall c :: c in Children(all) ==> Closed(after, c, height, width)
    ensures s3 == s0 - ClearedBy(all)
    ensures all == carved + [(root, n)] + sub
  {
    all := carved + [(root, n)] + sub;
    ExtendParts(carved, (root, n), sub);
    CarvingExtend(carved, root, n, sub, height, width);
    forall j | 0 <= j < |all|
      ensures all[j].1 !in marked0
    {
      if j < |carved| {
        assert all[j] == carved[j];
      } else if j == |carved| {
        assert all[j] == (root, n);
      } else {
        assert all[j] == sub[j - |carved| - 1];
      }
    }
    forall c | c in Children(all)
      ensures Closed(after, c, height, width)
    {
      if c in Children(carved) {
        ClosedGrows(before, after, c, height, width);
      } else {
        assert c in after - before;
      }
    }
  }

  /** A cell explored along all four directions of a shuffle is closed. */
  lemma ShuffleExplored(reached: set<Cell>, c: Cell, p: seq<(int, int)>, height: int, width: int)
    requires IsShuffle(p) && Explored(reached, c, p, |p|, height, width)
    ensures Closed(reached, c, height, width)
  {
    forall k | 0 <= k < 4 && InGrid(Neighbor(c, k), height, width)
      ensures Neighbor(c, k) in reached
    {
      ShuffleCovers(p, k);
      var j :| 0 <= j < |p| && p[j] == Directions[k];
      assert Step(c, p[j]) == Neighbor(c, k);
    }
  }

  /** The inner `dfs` of generate_dfs: visits (y, x), then tries every
      direction of the shuffle drawn at (y, x) in turn. Returns the passages
      it carved, in carving order. */
  method Dfs(maze: Maze, visited: array2<bool>, y: int, x: int, shuffleAt: Cell -> seq<(int, int)>)
      returns (ghost carved: seq<Edge>)
    requires maze.Valid()
    requires visited.Length0 == maze.height && visited.Length1 == maze.width
    requires InGrid((y, x), maze.height, maze.width) && !visited[y, x]
    requires forall c :: IsShuffle(shuffleAt(c))
    modifies maze.walls, visited
    decreases Unvisited(visited), 0
    ensures Unvisited(visited) <= old(Unvisited(visited))
    ensures Carving(carved, (y, x), maze.height, maze.width)
    ensures forall i :: 0 <= i < |carved| ==> carved[i].1 !in old(Marked(visited))
    ensures Marked(visited) == old(Marked(visited)) + {(y, x)} + Children(carved)
    // every cell this call visited has all its neighbours visited
    ensures forall c {:trigger Closed(Marked(visited), c, maze.height, maze.width)} ::
      c in Marked(visited) - old(Marked(visited)) ==> Closed(Marked(visited), c, maze.height, maze.width)
    ensures maze.Standing() == old(maze.Standing()) - ClearedBy(carved)
  {
    ghost var marked0 := Marked(visited);
    ghost var unvisited0 := Unvisited(visited);
    ghost var standing0 := maze.Standing();
    visited[y, x] := true;
    assert Marked(visited) == marked0 + {(y, x)};
    assert Unvisited(visited) == unvisited0 - {(y, x)};
    var directions := shuffleAt((y, x));
    assert |directions| == 4 by {
      assert |multiset(directions)| == |multiset(Directions)|;
    }
    carved := [];
    for i := 0 to |directions|
      invariant Unvisited(visited) < unvisited0
      invariant Carving(carved, (y, x), maze.height, maze.width)
      invariant forall j :: 0 <= j < |carved| ==> carved[j].1 !in marked0
      invariant Marked(visited) == marked0 + {(y, x)} + Children(carved)
      invariant forall c {:trigger Closed(Marked(visited), c, maze.height, maze.width)} ::
        c in Children(carved) ==> Closed(Marked(visited), c, maze.height, maze.width)
      invariant Explored(Marked(visited), (y, x), directions, i, maze.height, maze.width)
      invariant maze.Standing() == standing0 - ClearedBy(carved)
    {
      ShuffleEntry(directions, i);
      carved := TryDirection(maze, visited, y, x, directions, i, shuffleAt, marked0, standing0, carved);
    }
    ShuffleExplored(Marked(visited), (y, x), directions, maze.height, maze.width);
  }

  /** Round i of the loop in dfs: when the cell one step along directions[i]
      from (y, x) is in the grid and unvisited, removes the wall toward it
      and recurses into it; otherwise does nothing. Takes the loop's state
      before the round (the cells marked before (y, x) was visited, the
      flags standing then, and the passages carved so far) and returns the
      passages carved after it. */
  method TryDirection(maze: Maze, visited: array2<bool>, y: int, x: int, directions: seq<(int, int)>, i: nat,
                      shuffleAt: Cell -> seq<(int, int)>, ghost marked0: set<Cell>, ghost standing0: set<Flag>,
                      ghost carved: seq<Edge>)
      returns (ghost carved': seq<Edge>)
    requires maze.Valid()
    requires visited.Length0 == maze.height && visited.Length1 == maze.width
    requires InGrid((y, x), maze.height, maze.width)
    requires i < |directions| && directions[i] in Directions
    requires forall c :: IsShuffle(shuffleAt(c))
    requires Carving(carved, (y, x), maze.height, maze.width)
    requires forall j :: 0 <= j < |carved| ==> carved[j].1 !in marked0
    requires Marked(visited) == marked0 + {(y, x)} + Children(carved)
    requires forall c {:trigger Closed(Marked(visited), c, maze.height, maze.width)} ::
      c in Children(carved) ==> Closed(Marked(visited), c, maze.height, maze.width)
    requires Explored(Marked(visited), (y, x), directions, i, maze.height, maze.width)
    requires maze.Standing() == standing0 - ClearedBy(carved)
    modifies maze.walls, visited
    decreases Unvisited(visited), 1
    ensures Unvisited(visited) <= old(Unvisited(visited))
    ensures Carving(carved', (y, x), maze.height, maze.width)
    ensures forall j :: 0 <= j < |carved'| ==> carved'[j].1 !in marked0
    ensures Marked(visited) == marked0 + {(y, x)} + Children(carved')
    ensures forall c {:trigger Closed(Marked(visited), c, maze.height, maze.width)} ::
      c in Children(carved') ==> Closed(Marked(visited), c, maze.height, maze.width)
    ensures Explored(Marked(visited), (y, x), directions, i + 1, maze.height, maze.width)
    ensures maze.Standing() == standing0 - ClearedBy(carved')
    // the round only adds passages, starting with the one toward the tried neighbour
    ensures carved <= carved'
    ensures InGrid(Step((y, x), directions[i]), maze.height, maze.width) &&
            Step((y, x), directions[i]) !in old(Marked(visited)) ==>
      |carved'| > |carved| && carved'[|carved|] == ((y, x), Step((y, x), directions[i]))
    // a neighbour off the grid or already visited leaves everything as it was
    ensures !(InGrid(Step((y, x), directions[i]), maze.height, maze.width) &&
              Step((y, x), directions[i]) !in old(Marked(visited))) ==>
      carved' == carved && Marked(visited) == old(Marked(visited)) && maze.Standing() == old(maze.Standing())
  {
    var (dy, dx) := directions[i];
    var ny, nx := y + dy, x + dx;
    ghost var n := (ny, nx);
    carved' := carved;
    if 0 <= ny < maze.height && 0 <= nx < maze.width && !visited[ny, nx] {
      DirectionStep(directions[i], (y, x));
      ghost var markedBefore := Marked(visited);
      ghost var standingBefore := maze.Standing();
      maze.RemoveWall(y, x, ny, nx);
      ghost var standingAtCall := maze.Standing();
      assert Marked(visited) == markedBefore;
      ghost var sub := Dfs(maze, visited, ny, nx, shuffleAt);
      carved' := Round(marked0, (y, x), carved, n, sub, markedBefore, Marked(visited),
                       standing0, standingBefore, standingAtCall, maze.Standing(), maze.height, maze.width);
      ExploredGrows(markedBefore, Marked(visited), (y, x), directions, i, maze.height, maze.width);
    }
    assert Step((y, x), directions[i]) == n;
  }

  /** generate_dfs: carves a maze by depth-first search from maze.start. */
  method GenerateDfs(maze: Maze, shuffleAt: Cell -> seq<(int, int)>) returns (ghost tree: seq<Edge>)
    requires maze.Valid()
    requires InGrid(maze.start, maze.height, maze.width)
    requires forall c :: IsShuffle(shuffleAt(c))
    modifies maze.walls
    ensures SpanningTree(tree, maze.start, maze.height, maze.width)
    ensures |tree| == maze.height * maze.width - 1
    ensures maze.Standing() == old(maze.Standing()) - ClearedBy(tree)
    // on a new maze: exactly one wall per passage is removed, each seen from both sides
    ensures old(maze.Standing()) == AllFlags(maze.height, maze.width) ==>
      |old(maze.Standing()) - maze.Standing()| == 2 * (maze.height * maze.width - 1)
    ensures old(Consistent(maze.Standing(), maze.height, maze.width)) ==> Consistent(maze.Standing(), maze.height, maze.width)
    ensures old(Bordered(maze.Standing(), maze.height, maze.width)) ==> Bordered(maze.Standing(), maze.height, maze.width)
  {
    ghost var standing0 := maze.Standing();
    var visited := new bool[maze.height, maze.width]((y, x) => false);
    assert Marked(visited) == {};
    var startY, startX := maze.start.0, maze.start.1;
    tree := Dfs(maze, visited, startY, startX, shuffleAt);
    AllReached(Marked(visited), maze.start, maze.height, maze.width);
    SpanningTreeWalls(standing0, maze.Standing(), tree, maze.start, maze.height, maze.width);
  }
}
