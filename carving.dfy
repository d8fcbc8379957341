/** Sequences of carved passages: the cells they enter, the wall flags they
    clear, and when they form a tree grown from one cell. */
module Carvings {
  import opened Grid
  import opened Mazes

  /** The flags cleared by carving one passage. */
  function Carve(e: Edge): set<Flag> {
    Cleared(e.0.0, e.0.1, e.1.0, e.1.1)
  }

  /** The flags cleared by carving the passages `edges`, in any order. */
  function ClearedBy(edges: seq<Edge>): (r: set<Flag>)
    ensures forall i :: 0 <= i < |edges| ==> Carve(edges[i]) <= r
    ensures forall f :: f in r ==> 0 <= f.2 < 4
  {
    if edges == [] then {}
    else
      var rest := ClearedBy(edges[1..]);
      assert forall i :: 1 <= i < |edges| ==> edges[i] == edges[1..][i - 1];
      Carve(edges[0]) + rest
  }

  /** A flag is cleared by a list of passages exactly when one of them clears it. */
  lemma {:induction false} ClearedByMember(edges: seq<Edge>, f: Flag)
    ensures f in ClearedBy(edges) <==> exists i :: 0 <= i < |edges| && f in Carve(edges[i])
  {
    if edges != [] {
      ClearedByMember(edges[1..], f);
      if f in ClearedBy(edges[1..]) {
        var i :| 0 <= i < |edges| - 1 && f in Carve(edges[1..][i]);
        assert edges[i + 1] == edges[1..][i];
      }
    }
  }

  lemma {:induction false} ClearedByConcat(a: seq<Edge>, b: seq<Edge>)
    ensures ClearedBy(a + b) == ClearedBy(a) + ClearedBy(b)
  {
    if a != [] {
      assert (a + b)[1..] == a[1..] + b;
      ClearedByConcat(a[1..], b);
    } else {
      assert a + b == b;
    }
  }

  /** The cells the passages `edges` entered. */
  ghost function Children(edges: seq<Edge>): set<Cell> {
    set i | 0 <= i < |edges| :: edges[i].1
  }

  lemma ChildrenConcat(a: seq<Edge>, b: seq<Edge>)
    ensures Children(a + b) == Children(a) + Children(b)
  {
    forall c | c in Children(a + b)
      ensures c in Children(a) + Children(b)
    {
      var i :| 0 <= i < |a + b| && (a + b)[i].1 == c;
      if i >= |a| {
        assert b[i - |a|].1 == c;
      }
    }
    forall c | c in Children(a)
      ensures c in Children(a + b)
    {
      var i :| 0 <= i < |a| && a[i].1 == c;
      assert (a + b)[i].1 == c;
    }
    forall c | c in Children(b)
      ensures c in Children(a + b)
    {
      var i :| 0 <= i < |b| && b[i].1 == c;
      assert (a + b)[|a| + i].1 == c;
    }
  }

  /** The cells entered and the flags cleared by carved + [e] + sub. */
  lemma ExtendParts(carved: seq<Edge>, e: Edge, sub: seq<Edge>)
    ensures Children(carved + [e] + sub) == Children(carved) + {e.1} + Children(sub)
    ensures ClearedBy(carved + [e] + sub) == ClearedBy(carved) + Carve(e) + ClearedBy(sub)
  {
    ChildrenConcat(carved + [e], sub);
    ChildrenConcat(carved, [e]);
    assert [e][0] == e;
    assert Children([e]) == {e.1};
    ClearedByConcat(carved + [e], sub);
    ClearedByConcat(carved, [e]);
  }

  /** Passages entering pairwise different cells enter as many cells as there are passages. */
  lemma {:induction false} ChildrenCount(edges: seq<Edge>)
    requires forall i, j :: 0 <= i < j < |edges| ==> edges[i].1 != edges[j].1
    ensures |Children(edges)| == |edges|
  {
    if edges != [] {
      var rest := edges[1..];
      assert forall i :: 0 <= i < |rest| ==> rest[i] == edges[i + 1];
      ChildrenCount(rest);
      forall c | c in Children(edges)
        ensures c == edges[0].1 || c in Children(rest)
      {
        var i :| 0 <= i < |edges| && edges[i].1 == c;
        if i > 0 {
          assert rest[i - 1].1 == c;
        }
      }
      forall c | c in Children(rest)
        ensures c in Children(edges)
      {
        var i :| 0 <= i < |rest| && rest[i].1 == c;
        assert edges[i + 1].1 == c;
      }
      assert edges[0].1 in Children(edges);
      assert Children(edges) == {edges[0].1} + Children(rest);
      assert edges[0].1 !in Children(rest);
    }
  }

  ghost predicate EdgesInGrid(edges: seq<Edge>, height: int, width: int) {
    forall i :: 0 <= i < |edges| ==>
      InGrid(edges[i].0, height, width) && InGrid(edges[i].1, height, width) && Adjacent(edges[i].0, edges[i].1)
  }

  ghost predicate Rooted(edges: seq<Edge>, root: Cell) {
    forall i {:trigger edges[i].0} :: 0 <= i < |edges| ==> edges[i].0 == root || exists j :: 0 <= j < i && edges[j].1 == edges[i].0
  }

  ghost predicate EntersNew(edges: seq<Edge>, root: Cell) {
    && (forall i :: 0 <= i < |edges| ==> edges[i].1 != root)
    && (forall i, j :: 0 <= i < j < |edges| ==> edges[i].1 != edges[j].1)
  }

  /** `edges` is a carving grown from `root`: each passage joins two adjacent
      cells of the grid, leaves `root` or a cell an earlier passage entered,
      and enters a cell that is neither `root` nor entered by another passage. */
  ghost predicate Carving(edges: seq<Edge>, root: Cell, height: int, width: int) {
    EdgesInGrid(edges, height, width) && Rooted(edges, root) && EntersNew(edges, root)
  }

  /** A carving from `root` that enters every other cell of the grid: a spanning tree. */
  ghost predicate SpanningTree(edges: seq<Edge>, root: Cell, height: int, width: int) {
    InGrid(root, height, width) && Carving(edges, root, height, width) && Children(edges) + {root} == Cells(height, width)
  }

  lemma RootedExtend(carved: seq<Edge>, root: Cell, n: Cell, sub: seq<Edge>)
    requires Rooted(carved, root) && Rooted(sub, n)
    ensures Rooted(carved + [(root, n)] + sub, root)
  {
    var all := carved + [(root, n)] + sub;
    var m := |carved|;
    forall i | 0 <= i < |all|
      ensures all[i].0 == root || exists j :: 0 <= j < i && all[j].1 == all[i].0
    {
      if i < m {
        assert all[i] == carved[i];
        if all[i].0 != root {
          var j :| 0 <= j < i && carved[j].1 == carved[i].0;
          assert all[j] == carved[j];
        }
      } else if i > m {
        var s := i - m - 1;
        assert all[i] == sub[s];
        assert all[m] == (root, n);
        if sub[s].0 != n {
          var j :| 0 <= j < s && sub[j].1 == sub[s].0;
          assert all[m + 1 + j] == sub[j];
        }
      }
    }
  }

  lemma EntersNewExtend(carved: seq<Edge>, root: Cell, n: Cell, sub: seq<Edge>)
    requires EntersNew(carved, root) && EntersNew(sub, n)
    requires n != root && n !in Children(carved)
    requires forall i :: 0 <= i < |sub| ==> sub[i].1 != root && sub[i].1 !in Children(carved)
    ensures EntersNew(carved + [(root, n)] + sub, root)
  {
    var all := carved + [(root, n)] + sub;
    var m := |carved|;
    assert forall i :: 0 <= i < m ==> all[i] == carved[i];
    assert all[m] == (root, n);
    assert forall i :: 0 <= i < |sub| ==> all[m + 1 + i] == sub[i];
    forall i, j | 0 <= i < j < |all|
      ensures all[i].1 != all[j].1
    {
      if j < m {
      } else if j == m {
        assert all[i].1 in Children(carved);
      } else if i < m {
        assert all[i].1 in Children(carved);
        assert all[j] == sub[j - m - 1];
      } else if i == m {
        assert all[j] == sub[j - m - 1];
      } else {
        assert all[i] == sub[i - m - 1] && all[j] == sub[j - m - 1];
      }
    }
  }

  lemma EdgesInGridExtend(carved: seq<Edge>, root: Cell, n: Cell, sub: seq<Edge>, height: int, width: int)
    requires EdgesInGrid(carved, height, width) && EdgesInGrid(sub, height, width)
    requires InGrid(root, height, width) && InGrid(n, height, width) && Adjacent(root, n)
    ensures EdgesInGrid(carved + [(root, n)] + sub, height, width)
  {
    var all := carved + [(root, n)] + sub;
    forall i | 0 <= i < |all|
      ensures InGrid(all[i].0, height, width) && InGrid(all[i].1, height, width) && Adjacent(all[i].0, all[i].1)
    {
      if i < |carved| {
        assert all[i] == carved[i];
      } else if i == |carved| {
        assert all[i] == (root, n);
      } else {
        assert all[i] == sub[i - |carved| - 1];
      }
    }
  }

  /** Carving from `root`, then the passage root -> n, then a carving from n
      into cells not reached yet, is a carving from `root`. */
  lemma CarvingExtend(carved: seq<Edge>, root: Cell, n: Cell, sub: seq<Edge>, height: int, width: int)
    requires Carving(carved, root, height, width) && Carving(sub, n, height, width)
    requires InGrid(root, height, width) && InGrid(n, height, width) && Adjacent(root, n)
    requires n != root && n !in Children(carved)
    requires forall i :: 0 <= i < |sub| ==> sub[i].1 != root && sub[i].1 !in Children(carved)
    ensures Carving(carved + [(root, n)] + sub, root, height, width)
  {
    RootedExtend(carved, root, n, sub);
    EntersNewExtend(carved, root, n, sub);
    EdgesInGridExtend(carved, root, n, sub, height, width);
  }

  /** A carving that spans the grid has one passage fewer than the grid has cells. */
  lemma TreeSize(edges: seq<Edge>, root: Cell, height: nat, width: nat)
    requires SpanningTree(edges, root, height, width)
    ensures |edges| == height * width - 1
  {
    ChildrenCount(edges);
    CellsCount(height, width);
    assert root !in Children(edges);
  }

  /** e joins the cells a and b, in one direction or the other. */
  predicate Joins(e: Edge, a: Cell, b: Cell) {
    (e.0 == a && e.1 == b) || (e.0 == b && e.1 == a)
  }

  /** Two passages between adjacent cells that clear a common flag join the same two cells. */
  lemma SharedFlag(e1: Edge, e2: Edge, f: Flag)
    requires Adjacent(e1.0, e1.1) && Adjacent(e2.0, e2.1)
    requires f in Carve(e1) && f in Carve(e2)
    ensures Joins(e2, e1.0, e1.1)
  {
    ClearedFacing(e1.0, e1.1);
    ClearedFacing(e2.0, e2.1);
  }

  /** Carving a passage between adjacent cells clears exactly the flags of
      the wall between them. */
  lemma CarveFacing(e: Edge, f: Flag)
    requires Adjacent(e.0, e.1)
    ensures f in Carve(e) <==> 0 <= f.2 < 4 && Joins(e, (f.0, f.1), Neighbor((f.0, f.1), f.2))
  {
    ClearedFacing(e.0, e.1);
  }

  /** A flag is cleared by passages between adjacent cells exactly when
      one of them joins the flag's cell to the neighbour behind that wall. */
  lemma ClearedByFacing(edges: seq<Edge>, f: Flag, height: int, width: int)
    requires EdgesInGrid(edges, height, width)
    ensures f in ClearedBy(edges) <==>
      0 <= f.2 < 4 && exists i :: 0 <= i < |edges| && Joins(edges[i], (f.0, f.1), Neighbor((f.0, f.1), f.2))
  {
    ClearedByMember(edges, f);
    if f in ClearedBy(edges) {
      var i :| 0 <= i < |edges| && f in Carve(edges[i]);
      CarveFacing(edges[i], f);
    }
    if 0 <= f.2 < 4 && exists i :: 0 <= i < |edges| && Joins(edges[i], (f.0, f.1), Neighbor((f.0, f.1), f.2)) {
      var i :| 0 <= i < |edges| && Joins(edges[i], (f.0, f.1), Neighbor((f.0, f.1), f.2));
      CarveFacing(edges[i], f);
    }
  }

  lemma CarvingPrefix(edges: seq<Edge>, k: nat, root: Cell, height: int, width: int)
    requires Carving(edges, root, height, width) && k <= |edges|
    ensures Carving(edges[..k], root, height, width)
  {
    var init := edges[..k];
    assert forall i :: 0 <= i < k ==> init[i] == edges[i];
  }

  /** Carving passage e clears two flags, neither cleared by an earlier
      passage of a carving. */
  lemma LastCarveNew(edges: seq<Edge>, root: Cell, height: int, width: int)
    requires Carving(edges, root, height, width) && edges != []
    ensures var e := edges[|edges| - 1];
      |Carve(e)| == 2 && Carve(e) !! ClearedBy(edges[..|edges| - 1])
  {
    var m := |edges| - 1;
    var e := edges[m];
    var init := edges[..m];
    assert Adjacent(e.0, e.1);
    assert e.0 != e.1;
    forall f | f in Carve(e)
      ensures f !in ClearedBy(init)
    {
      ClearedByMember(init, f);
      if f in ClearedBy(init) {
        var j :| 0 <= j < |init| && f in Carve(init[j]);
        assert init[j] == edges[j];
        SharedFlag(e, edges[j], f);
        assert false;
      }
    }
  }

  lemma ClearedByLast(edges: seq<Edge>)
    requires edges != []
    ensures ClearedBy(edges) == ClearedBy(edges[..|edges| - 1]) + Carve(edges[|edges| - 1])
  {
    var m := |edges| - 1;
    assert edges == edges[..m] + [edges[m]];
    ClearedByConcat(edges[..m], [edges[m]]);
    assert ClearedBy([edges[m]]) == Carve(edges[m]);
  }

  /** A carving of n passages clears exactly 2 * n flags: every passage
      removes one wall, seen from both of its sides. */
  lemma {:induction false} ClearedByCount(edges: seq<Edge>, root: Cell, height: int, width: int)
    requires Carving(edges, root, height, width)
    ensures |ClearedBy(edges)| == 2 * |edges|
  {
    if edges != [] {
      var m := |edges| - 1;
      var init := edges[..m];
      CarvingPrefix(edges, m, root, height, width);
      ClearedByCount(init, root, height, width);
      LastCarveNew(edges, root, height, width);
      ClearedByLast(edges);
      var before, last := ClearedBy(init), Carve(edges[m]);
      assert before * last == {};
      assert |before + last| == |before| + |last|;
    }
  }

  /** Removing the walls of passages between adjacent cells keeps the walls consistent. */
  lemma {:induction false} CarvingKeepsConsistent(standing: set<Flag>, edges: seq<Edge>, height: int, width: int)
    requires EdgesInGrid(edges, height, width) && Consistent(standing, height, width)
    ensures Consistent(standing - ClearedBy(edges), height, width)
  {
    if edges != [] {
      var e := edges[0];
      RemovingKeepsConsistent(standing, e.0, e.1, height, width);
      assert EdgesInGrid(edges[1..], height, width) by {
        assert forall i :: 0 <= i < |edges| - 1 ==> edges[1..][i] == edges[i + 1];
      }
      CarvingKeepsConsistent(standing - Carve(e), edges[1..], height, width);
      assert ClearedBy(edges) == Carve(e) + ClearedBy(edges[1..]);
      assert standing - ClearedBy(edges) == standing - Carve(e) - ClearedBy(edges[1..]);
    } else {
      assert standing - ClearedBy(edges) == standing;
    }
  }

  /** Removing the walls of passages between cells of the grid never opens the outer border. */
  lemma {:induction false} CarvingKeepsBordered(standing: set<Flag>, edges: seq<Edge>, height: int, width: int)
    requires EdgesInGrid(edges, height, width) && Bordered(standing, height, width)
    ensures Bordered(standing - ClearedBy(edges), height, width)
  {
    if edges != [] {
      var e := edges[0];
      assert e.0 != e.1;
      RemovingKeepsBordered(standing, e.0, e.1, height, width);
      assert EdgesInGrid(edges[1..], height, width) by {
        assert forall i :: 0 <= i < |edges| - 1 ==> edges[1..][i] == edges[i + 1];
      }
      CarvingKeepsBordered(standing - Carve(e), edges[1..], height, width);
      assert ClearedBy(edges) == Carve(e) + ClearedBy(edges[1..]);
      assert standing - ClearedBy(edges) == standing - Carve(e) - ClearedBy(edges[1..]);
    } else {
      assert standing - ClearedBy(edges) == standing;
    }
  }

  /** The flags cleared by passages between cells of the grid are flags of the grid. */
  lemma ClearedByInGrid(edges: seq<Edge>, height: int, width: int)
    requires EdgesInGrid(edges, height, width)
    ensures ClearedBy(edges) <= AllFlags(height, width)
  {
    forall f | f in ClearedBy(edges)
      ensures f in AllFlags(height, width)
    {
      ClearedByMember(edges, f);
      var i :| 0 <= i < |edges| && f in Carve(edges[i]);
    }
  }

  /** Removing the walls of a spanning tree's passages: the tree has
      height * width - 1 passages; on a grid with every wall standing exactly
      2 * (height * width - 1) flags fall, one wall per passage seen from both
      sides; consistency and the outer border are kept. */
  lemma SpanningTreeWalls(before: set<Flag>, after: set<Flag>, tree: seq<Edge>, root: Cell, height: nat, width: nat)
    requires SpanningTree(tree, root, height, width)
    requires after == before - ClearedBy(tree)
    ensures |tree| == height * width - 1
    ensures before == AllFlags(height, width) ==> |before - after| == 2 * (height * width - 1)
    ensures Consistent(before, height, width) ==> Consistent(after, height, width)
    ensures Bordered(before, height, width) ==> Bordered(after, height, width)
  {
    TreeSize(tree, root, height, width);
    ClearedByCount(tree, root, height, width);
    if before == AllFlags(height, width) {
      ClearedByInGrid(tree, height, width);
      assert before - after == ClearedBy(tree);
    }
    if Consistent(before, height, width) {
      CarvingKeepsConsistent(before, tree, height, width);
    }
    if Bordered(before, height, width) {
      CarvingKeepsBordered(before, tree, height, width);
    }
  }

  /** p is a walk through the passages `edges`: every two consecutive cells
      of p are joined by one of them. */
  ghost predicate Walk(edges: seq<Edge>, p: seq<Cell>) {
    forall i :: 0 <= i < |p| - 1 ==> Linked(edges, p[i], p[i + 1])
  }

  /** One of the passages `edges` joins a and b. */
  ghost predicate Linked(edges: seq<Edge>, a: Cell, b: Cell) {
    exists k :: 0 <= k < |edges| && Joins(edges[k], a, b)
  }

  /** A walk followed by one more passage is a walk. */
  lemma WalkExtend(edges: seq<Edge>, q: seq<Cell>, c: Cell, k: int)
    requires Walk(edges, q) && |q| >= 1
    requires 0 <= k < |edges| && Joins(edges[k], q[|q| - 1], c)
    ensures Walk(edges, q + [c])
  {
    var p := q + [c];
    forall s | 0 <= s < |p| - 1
      ensures Linked(edges, p[s], p[s + 1])
    {
      if s < |q| - 1 {
        assert p[s] == q[s] && p[s + 1] == q[s + 1];
      } else {
        assert p[s] == q[|q| - 1] && p[s + 1] == c;
      }
    }
  }

  /** The cell entered by passage i of a carving grown from the root is
      reached from the root by a walk through the carved passages. */
  lemma {:induction false} WalkToEntered(edges: seq<Edge>, root: Cell, i: int)
      returns (p: seq<Cell>)
    requires Rooted(edges, root) && 0 <= i < |edges|
    ensures |p| >= 2 && p[0] == root && p[|p| - 1] == edges[i].1 && Walk(edges, p)
    decreases i
  {
    assert Joins(edges[i], edges[i].0, edges[i].1);
    if edges[i].0 == root {
      p := [root, edges[i].1];
      assert p[0] == edges[i].0 && p[1] == edges[i].1;
    } else {
      var j :| 0 <= j < i && edges[j].1 == edges[i].0;
      var q := WalkToEntered(edges, root, j);
      WalkExtend(edges, q, edges[i].1, i);
      p := q + [edges[i].1];
    }
  }

  /** Every cell of the grid is reached from the root of a spanning tree by
      a walk through its passages. */
  lemma TreeConnects(edges: seq<Edge>, root: Cell, c: Cell, height: int, width: int)
      returns (p: seq<Cell>)
    requires SpanningTree(edges, root, height, width) && InGrid(c, height, width)
    ensures |p| >= 1 && p[0] == root && p[|p| - 1] == c && Walk(edges, p)
  {
    assert c in Cells(height, width);
    if c == root {
      p := [root];
    } else {
      var i :| 0 <= i < |edges| && edges[i].1 == c;
      p := WalkToEntered(edges, root, i);
    }
  }

  /** Cells joined by a carved passage are no longer separated: the wall of
      a toward b is among the flags the passages clear. */
  lemma LinkedIsOpen(edges: seq<Edge>, a: Cell, b: Cell, k: int, height: int, width: int)
    requires EdgesInGrid(edges, height, width) && Linked(edges, a, b)
    requires 0 <= k < 4 && Neighbor(a, k) == b
    ensures (a.0, a.1, k) in ClearedBy(edges)
  {
    ClearedByFacing(edges, (a.0, a.1, k), height, width);
    var i :| 0 <= i < |edges| && Joins(edges[i], a, b);
  }

  /** After the passages of a spanning tree are carved out of `before`,
      every cell of the grid is reached from the root by a path of adjacent
      cells in which each step crosses a wall that no longer stands. */
  lemma OpenPath(before: set<Flag>, after: set<Flag>, tree: seq<Edge>, root: Cell, c: Cell, height: int, width: int)
      returns (p: seq<Cell>)
    requires SpanningTree(tree, root, height, width) && InGrid(c, height, width)
    requires after == before - ClearedBy(tree)
    ensures |p| >= 1 && p[0] == root && p[|p| - 1] == c
    ensures forall s :: 0 <= s < |p| - 1 ==> Adjacent(p[s], p[s + 1])
    ensures forall s, k :: 0 <= s < |p| - 1 && 0 <= k < 4 && Neighbor(p[s], k) == p[s + 1] ==>
      (p[s].0, p[s].1, k) !in after
  {
    p := TreeConnects(tree, root, c, height, width);
    forall s | 0 <= s < |p| - 1
      ensures Adjacent(p[s], p[s + 1])
    {
      assert Linked(tree, p[s], p[s + 1]);
      var i :| 0 <= i < |tree| && Joins(tree[i], p[s], p[s + 1]);
    }
    forall s, k | 0 <= s < |p| - 1 && 0 <= k < 4 && Neighbor(p[s], k) == p[s + 1]
      ensures (p[s].0, p[s].1, k) !in after
    {
      LinkedIsOpen(tree, p[s], p[s + 1], k, height, width);
    }
  }
}
