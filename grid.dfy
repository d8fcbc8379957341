/** Positions on a height-by-width grid of cells, the four directions between
    neighbouring cells, and the reachability fact the generator relies on. */
module Grid {

  /** A cell is identified by its position (row, column), both 0-based. */
  type Cell = (int, int)

  /** One wall flag of one cell: (row, column, index), where index 0 is the
      north wall, 1 east, 2 south and 3 west. */
  type Flag = (int, int, int)

  /** A carved passage, from the cell the carving came from to the cell it entered. */
  type Edge = (Cell, Cell)

  /** Row and column offsets in the generator's canonical order: north, east,
      south, west. Directions[k] leads to the neighbour behind wall k. */
  const Directions: seq<(int, int)> := [(-1, 0), (0, 1), (1, 0), (0, -1)]

  predicate InGrid(c: Cell, height: int, width: int) {
    0 <= c.0 < height && 0 <= c.1 < width
  }

  /** The cell behind wall k of c (which may lie outside the grid). */
  function Neighbor(c: Cell, k: int): Cell
    requires 0 <= k < 4
  {
    (c.0 + Directions[k].0, c.1 + Directions[k].1)
  }

  /** The index of the wall that faces wall k from the other side. */
  function Opposite(k: int): (r: int)
    requires 0 <= k < 4
    ensures 0 <= r < 4 && r != k
    ensures forall c: Cell :: Neighbor(Neighbor(c, k), r) == c
  {
    (k + 2) % 4
  }

  function Abs(n: int): nat {
    if n < 0 then -n else n
  }

  /** Two cells are grid-adjacent when their Manhattan distance is exactly 1. */
  predicate Adjacent(a: Cell, b: Cell) {
    Abs(a.0 - b.0) + Abs(a.1 - b.1) == 1
  }

  /** Adjacency is exactly "one step in one of the four directions". */
  lemma AdjacentIsNeighbor(a: Cell, b: Cell)
    ensures Adjacent(a, b) <==> exists k :: 0 <= k < 4 && Neighbor(a, k) == b
  {
    if Adjacent(a, b) {
      if b.0 == a.0 - 1 {
        assert Neighbor(a, 0) == b;
      } else if b.1 == a.1 + 1 {
        assert Neighbor(a, 1) == b;
      } else if b.0 == a.0 + 1 {
        assert Neighbor(a, 2) == b;
      } else {
        assert Neighbor(a, 3) == b;
      }
    }
  }

  /** Every cell of the grid. */
  ghost function Cells(height: int, width: int): set<Cell> {
    set y, x | 0 <= y < height && 0 <= x < width :: (y, x)
  }

  ghost function Row(y: int, width: int): set<Cell> {
    set x | 0 <= x < width :: (y, x)
  }

  lemma {:induction false} RowCount(y: int, width: nat)
    ensures |Row(y, width)| == width
  {
    if width == 0 {
      assert Row(y, 0) == {};
    } else {
      assert Row(y, width) == Row(y, width - 1) + {(y, width - 1)};
      RowCount(y, width - 1);
    }
  }

  lemma CellsSplit(height: nat, width: nat)
    requires height > 0
    ensures Cells(height, width) == Cells(height - 1, width) + Row(height - 1, width)
    ensures Cells(height - 1, width) !! Row(height - 1, width)
  {
    forall c: Cell | c in Cells(height, width)
      ensures c in Cells(height - 1, width) + Row(height - 1, width)
    {
      if c.0 < height - 1 {
        assert c in Cells(height - 1, width);
      } else {
        assert c in Row(height - 1, width);
      }
    }
  }

  /** The grid has height * width cells. */
  lemma {:induction false} CellsCount(height: nat, width: nat)
    ensures |Cells(height, width)| == height * width
  {
    if height == 0 {
      assert Cells(0, width) == {};
    } else {
      CellsSplit(height, width);
      CellsCount(height - 1, width);
      RowCount(height - 1, width);
      assert |Cells(height, width)| == (height - 1) * width + width;
    }
  }

  /** c is closed in `reached` when every in-grid neighbour of c is in `reached`. */
  ghost predicate Closed(reached: set<Cell>, c: Cell, height: int, width: int) {
    forall k :: 0 <= k < 4 && InGrid(Neighbor(c, k), height, width) ==> Neighbor(c, k) in reached
  }

  ghost predicate AllClosed(reached: set<Cell>, height: int, width: int) {
    forall c :: c in reached ==> Closed(reached, c, height, width)
  }

  lemma ClosedGrows(small: set<Cell>, large: set<Cell>, c: Cell, height: int, width: int)
    requires small <= large && Closed(small, c, height, width)
    ensures Closed(large, c, height, width)
  {
  }

  lemma {:induction false} ReachAlongRow(reached: set<Cell>, y: int, from: int, x: int, height: int, width: int)
    requires AllClosed(reached, height, width)
    requires (y, from) in reached && InGrid((y, from), height, width) && InGrid((y, x), height, width)
    ensures (y, x) in reached
    decreases Abs(x - from)
  {
    if x > from {
      ReachAlongRow(reached, y, from, x - 1, height, width);
      assert Neighbor((y, x - 1), 1) == (y, x);
    } else if x < from {
      ReachAlongRow(reached, y, from, x + 1, height, width);
      assert Neighbor((y, x + 1), 3) == (y, x);
    }
  }

  lemma {:induction false} ReachAlongColumn(reached: set<Cell>, from: int, y: int, x: int, height: int, width: int)
    requires AllClosed(reached, height, width)
    requires (from, x) in reached && InGrid((from, x), height, width) && InGrid((y, x), height, width)
    ensures (y, x) in reached
    decreases Abs(y - from)
  {
    if y > from {
      ReachAlongColumn(reached, from, y - 1, x, height, width);
      assert Neighbor((y - 1, x), 2) == (y, x);
    } else if y < from {
      ReachAlongColumn(reached, from, y + 1, x, height, width);
      assert Neighbor((y + 1, x), 0) == (y, x);
    }
  }

  /** The grid is connected: a set of cells that holds some cell of the grid
      and is closed under taking in-grid neighbours holds every cell. */
  lemma AllReached(reached: set<Cell>, root: Cell, height: int, width: int)
    requires InGrid(root, height, width) && root in reached
    requires AllClosed(reached, height, width)
    ensures Cells(height, width) <= reached
  {
    forall c | c in Cells(height, width)
      ensures c in reached
    {
      ReachAlongColumn(reached, root.0, c.0, root.1, height, width);
      ReachAlongRow(reached, c.0, root.1, c.1, height, width);
    }
  }
}
