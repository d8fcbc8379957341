/** The maze itself: a height-by-width grid in which every cell carries four
    wall flags, plus the start and end cells and the solution path. */
module Mazes {
  import opened Grid

  /** The flags that removing the wall between (y1, x1) and (y2, x2) clears.
      Cells in one column lose the south flag of the one passed first and the
      north flag of the other when the second lies below, and the reverse
      otherwise (also when the two cells are the same); cells in one row
      likewise lose east and west; cells that share neither lose nothing. */
  function Cleared(y1: int, x1: int, y2: int, x2: int): (r: set<Flag>)
    ensures |r| <= 2
    ensures forall f :: f in r ==> 0 <= f.2 < 4 && ((f.0, f.1) == (y1, x1) || (f.0, f.1) == (y2, x2))
    ensures r == {} <==> x1 != x2 && y1 != y2
    // vertically adjacent: the upper cell's south flag and the lower cell's north flag, in either order
    ensures x1 == x2 && y2 == y1 + 1 ==> r == {(y1, x1, 2), (y2, x2, 0)}
    ensures x1 == x2 && y1 == y2 + 1 ==> r == {(y2, x2, 2), (y1, x1, 0)}
    // horizontally adjacent: the left cell's east flag and the right cell's west flag, in either order
    ensures y1 == y2 && x2 == x1 + 1 ==> r == {(y1, x1, 1), (y2, x2, 3)}
    ensures y1 == y2 && x1 == x2 + 1 ==> r == {(y2, x2, 1), (y1, x1, 3)}
  {
    if x1 == x2 then
      if y2 > y1 then {(y1, x1, 2), (y2, x2, 0)} else {(y1, x1, 0), (y2, x2, 2)}
    else if y1 == y2 then
      if x2 > x1 then {(y1, x1, 1), (y2, x2, 3)} else {(y1, x1, 3), (y2, x2, 1)}
    else
      {}
  }

  /** Which cell is passed first does not matter. */
  lemma ClearedSymmetric(y1: int, x1: int, y2: int, x2: int)
    ensures Cleared(y1, x1, y2, x2) == Cleared(y2, x2, y1, x1)
  {
  }

  /** For adjacent cells a and b exactly the two flags that face each other
      are cleared: a's wall toward b and b's wall toward a. */
  lemma ClearedFacing(a: Cell, b: Cell)
    requires Adjacent(a, b)
    ensures forall f: Flag :: f in Cleared(a.0, a.1, b.0, b.1) <==>
      0 <= f.2 < 4 && (((f.0, f.1) == a && Neighbor(a, f.2) == b) || ((f.0, f.1) == b && Neighbor(b, f.2) == a))
  {
  }

  /** For adjacent cells, a cleared flag's partner on the other side of the
      wall is cleared too. */
  lemma ClearedInPairs(a: Cell, b: Cell, f: Flag)
    requires Adjacent(a, b) && 0 <= f.2 < 4
    ensures f in Cleared(a.0, a.1, b.0, b.1) <==>
      var n := Neighbor((f.0, f.1), f.2); (n.0, n.1, Opposite(f.2)) in Cleared(a.0, a.1, b.0, b.1)
  {
    ClearedFacing(a, b);
    var n := Neighbor((f.0, f.1), f.2);
    assert Neighbor(n, Opposite(f.2)) == (f.0, f.1);
  }

  /** Cells d >= 2 rows apart in one column lose the upper cell's south flag
      and the lower cell's north flag although no single wall separates them;
      the cell just below the upper one keeps both of its flags, so the code
      leaves the flags inconsistent with the cells between them. */
  lemma ClearedSkipsInColumn(y: int, x: int, d: int)
    requires d >= 2
    ensures Cleared(y, x, y + d, x) == {(y, x, 2), (y + d, x, 0)}
    ensures (y + 1, x, 0) !in Cleared(y, x, y + d, x) && (y + 1, x, 2) !in Cleared(y, x, y + d, x)
  {
  }

  /** Cells d >= 2 columns apart in one row lose the left cell's east flag
      and the right cell's west flag, with the same inconsistency. */
  lemma ClearedSkipsInRow(y: int, x: int, d: int)
    requires d >= 2
    ensures Cleared(y, x, y, x + d) == {(y, x, 1), (y, x + d, 3)}
    ensures (y, x + 1, 1) !in Cleared(y, x, y, x + d) && (y, x + 1, 3) !in Cleared(y, x, y, x + d)
  {
  }

  /** For two different cells of the grid, every cleared flag is a wall
      between two cells of the grid, never one on the outer border. */
  lemma ClearedInsideGrid(y1: int, x1: int, y2: int, x2: int, height: int, width: int)
    requires InGrid((y1, x1), height, width) && InGrid((y2, x2), height, width) && (y1, x1) != (y2, x2)
    ensures forall f :: f in Cleared(y1, x1, y2, x2) ==> InGrid(Neighbor((f.0, f.1), f.2), height, width)
  {
  }

  /** Removing the same wall twice has the effect of removing it once. This
      holds because RemoveWall's effect is a set difference, whatever flags
      Cleared names; it uses nothing particular to Cleared. */
  lemma ClearedIdempotent(standing: set<Flag>, y1: int, x1: int, y2: int, x2: int)
    ensures standing - Cleared(y1, x1, y2, x2) - Cleared(y1, x1, y2, x2) == standing - Cleared(y1, x1, y2, x2)
  {
  }

  /** A cell passed as both arguments loses its north and south flags. */
  lemma ClearedSameCell(y: int, x: int)
    ensures Cleared(y, x, y, x) == {(y, x, 0), (y, x, 2)}
  {
  }

  /** Every flag of every cell of the grid. */
  ghost function AllFlags(height: int, width: int): set<Flag> {
    set y, x, k | 0 <= y < height && 0 <= x < width && 0 <= k < 4 :: (y, x, k)
  }

  /** Wall k of (y, x) stands in `standing` exactly when the wall facing it
      from the neighbouring cell does (trivially so on the outer border). */
  ghost predicate AgreesAt(standing: set<Flag>, y: int, x: int, k: int, height: int, width: int)
    requires 0 <= k < 4
  {
    var n := Neighbor((y, x), k);
    InGrid(n, height, width) ==> ((y, x, k) in standing <==> (n.0, n.1, Opposite(k)) in standing)
  }

  /** Every wall between two cells of the grid is recorded alike on both sides. */
  ghost predicate Consistent(standing: set<Flag>, height: int, width: int) {
    forall y, x, k :: 0 <= y < height && 0 <= x < width && 0 <= k < 4 ==> AgreesAt(standing, y, x, k, height, width)
  }

  /** Every wall on the outer border of the grid stands. */
  ghost predicate Bordered(standing: set<Flag>, height: int, width: int) {
    forall y, x, k :: 0 <= y < height && 0 <= x < width && 0 <= k < 4 && !InGrid(Neighbor((y, x), k), height, width) ==>
      (y, x, k) in standing
  }

  /** Removing the wall between two adjacent cells keeps the walls consistent. */
  lemma RemovingKeepsConsistent(standing: set<Flag>, a: Cell, b: Cell, height: int, width: int)
    requires Adjacent(a, b) && Consistent(standing, height, width)
    ensures Consistent(standing - Cleared(a.0, a.1, b.0, b.1), height, width)
  {
    var after := standing - Cleared(a.0, a.1, b.0, b.1);
    forall y, x, k | 0 <= y < height && 0 <= x < width && 0 <= k < 4
      ensures AgreesAt(after, y, x, k, height, width)
    {
      ClearedInPairs(a, b, (y, x, k));
      assert AgreesAt(standing, y, x, k, height, width);
    }
  }

  /** Removing the wall between two different cells of the grid never opens the outer border. */
  lemma RemovingKeepsBordered(standing: set<Flag>, a: Cell, b: Cell, height: int, width: int)
    requires InGrid(a, height, width) && InGrid(b, height, width) && a != b
    requires Bordered(standing, height, width)
    ensures Bordered(standing - Cleared(a.0, a.1, b.0, b.1), height, width)
  {
    ClearedInsideGrid(a.0, a.1, b.0, b.1, height, width);
  }

  class Maze {
    const width: nat
    const height: nat
    /** walls[y, x, k] is true while wall k of cell (y, x) stands. */
    const walls: array3<bool>
    var start: Cell
    var end: Cell
    var path: seq<Cell>

    ghost predicate Valid() {
      walls.Length0 == height && walls.Length1 == width && walls.Length2 == 4
    }

    /** The flags of the walls that stand. */
    ghost function Standing(): (s: set<Flag>)
      requires Valid()
      reads walls
      ensures s <= AllFlags(height, width)
    {
      set y, x, k | 0 <= y < height && 0 <= x < width && 0 <= k < 4 && walls[y, x, k] :: (y, x, k)
    }

    constructor (width: nat, height: nat)
      ensures Valid() && fresh(walls)
      ensures this.width == width && this.height == height
      ensures Standing() == AllFlags(height, width)
      ensures Consistent(Standing(), height, width) && Bordered(Standing(), height, width)
      ensures start == (0, 0) && end == (height - 1, width - 1) && path == []
    {
      this.width := width;
      this.height := height;
      walls := new bool[height, width, 4]((y, x, k) => true);
      start := (0, 0);
      end := (height - 1, width - 1);
      path := [];
    }

    /** Clears the flags Cleared(y1, x1, y2, x2) and nothing else. */
    method RemoveWall(y1: int, x1: int, y2: int, x2: int)
      requires Valid()
      requires InGrid((y1, x1), height, width) && InGrid((y2, x2), height, width)
      modifies walls
      ensures Standing() == old(Standing()) - Cleared(y1, x1, y2, x2)
      ensures start == old(start) && end == old(end) && path == old(path)
    {
      ghost var before := Standing();
      if x1 == x2 {
        if y2 > y1 {
          walls[y1, x1, 2] := false;
          walls[y2, x2, 0] := false;
        } else {
          walls[y1, x1, 0] := false;
          walls[y2, x2, 2] := false;
        }
      } else if y1 == y2 {
        if x2 > x1 {
          walls[y1, x1, 1] := false;
          walls[y2, x2, 3] := false;
        } else {
          walls[y1, x1, 3] := false;
          walls[y2, x2, 1] := false;
        }
      }
      assert Standing() == before - Cleared(y1, x1, y2, x2);
    }
  }
}
