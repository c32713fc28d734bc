/** The generator's grid as one flat sequence: cell (x, y) of a `w` x `h`
    grid lives at index y * w + x. This module defines that encoding, the
    properties a finished maze has (wall symmetry, closed border, open-wall
    edge count, reachability) and what removing the wall between two
    neighbouring cells does to them. */
module MazeGrid {
  import opened MazeTypes

  // ---------------------------------------------------------------------
  // The encoding
  // ---------------------------------------------------------------------

  function Idx(w: int, x: int, y: int): int { y * w + x }

  lemma MulMono(a: int, b: int, c: int)
    requires a <= b && 0 <= c
    ensures a * c <= b * c
  {
    assert b * c - a * c == (b - a) * c;
  }

  lemma IdxInRange(w: int, h: int, x: int, y: int)
    requires 0 <= x < w && 0 <= y < h
    ensures 0 <= Idx(w, x, y) < w * h
  {
    MulMono(0, y, w);
    MulMono(y + 1, h, w);
    MulSucc(y, w);
  }

  lemma MulSucc(a: int, c: int)
    ensures (a + 1) * c == a * c + c
  {
  }

  lemma IdxInjective(w: int, x1: int, y1: int, x2: int, y2: int)
    requires 0 <= x1 < w && 0 <= x2 < w
    requires Idx(w, x1, y1) == Idx(w, x2, y2)
    ensures x1 == x2 && y1 == y2
  {
    if y1 < y2 {
      MulMono(y1 + 1, y2, w);
      MulSucc(y1, w);
    } else if y2 < y1 {
      MulMono(y2 + 1, y1, w);
      MulSucc(y2, w);
    }
  }

  /** The index of the bottom-right cell is the last index. */
  lemma LastIdx(w: int, h: int)
    requires w >= 1 && h >= 1
    ensures Idx(w, w - 1, h - 1) == w * h - 1
  {
    assert (h - 1) * w == h * w - w;
  }

  ghost predicate Dims(g: seq<Cell>, w: int, h: int) {
    w >= 1 && h >= 1 && |g| == w * h
  }

  /** Every index holds the cell whose coordinates encode to that index. */
  ghost predicate Shaped(g: seq<Cell>, w: int, h: int) {
    Dims(g, w, h) &&
    forall i :: 0 <= i < |g| ==>
      0 <= g[i].x < w && 0 <= g[i].y < h && Idx(w, g[i].x, g[i].y) == i
  }

  lemma ShapedAt(g: seq<Cell>, w: int, h: int, x: int, y: int)
    requires Shaped(g, w, h) && 0 <= x < w && 0 <= y < h
    ensures 0 <= Idx(w, x, y) < |g|
    ensures g[Idx(w, x, y)].x == x && g[Idx(w, x, y)].y == y
  {
    IdxInRange(w, h, x, y);
    var i := Idx(w, x, y);
    IdxInjective(w, x, y, g[i].x, g[i].y);
  }

  /** `grid[y][x]` of the source. */
  function CellAt(g: seq<Cell>, w: int, h: int, x: int, y: int): Cell
    requires |g| == w * h && 0 <= x < w && 0 <= y < h
  {
    IdxInRange(w, h, x, y);
    g[Idx(w, x, y)]
  }

  /** The rows view `Cell[][]` the source returns: `height` rows of `width` cells. */
  function Rows(g: seq<Cell>, w: int, h: int): (rows: seq<seq<Cell>>)
    requires Dims(g, w, h)
    ensures |rows| == h
    ensures forall y :: 0 <= y < h ==> |rows[y]| == w
    ensures forall x, y :: 0 <= y < h && 0 <= x < w ==> rows[y][x] == CellAt(g, w, h, x, y)
    ensures Shaped(g, w, h) ==>
      forall x, y :: 0 <= y < h && 0 <= x < w ==> rows[y][x].x == x && rows[y][x].y == y
  {
    var rows := seq(h, y requires 0 <= y < h => seq(w, x requires 0 <= x < w => CellAt(g, w, h, x, y)));
    assert Shaped(g, w, h) ==>
      forall x, y :: 0 <= y < h && 0 <= x < w ==> rows[y][x].x == x && rows[y][x].y == y by {
      if Shaped(g, w, h) {
        forall x, y | 0 <= y < h && 0 <= x < w
          ensures rows[y][x].x == x && rows[y][x].y == y
        {
          ShapedAt(g, w, h, x, y);
        }
      }
    }
    rows
  }

  // ---------------------------------------------------------------------
  // Properties of a maze
  // ---------------------------------------------------------------------

  /** The shared wall of two neighbouring cells has the same flag on both sides. */
  ghost predicate Symmetric(g: seq<Cell>, w: int, h: int) {
    Dims(g, w, h) &&
    (forall x, y :: 0 <= x < w - 1 && 0 <= y < h ==>
       CellAt(g, w, h, x, y).walls.right == CellAt(g, w, h, x + 1, y).walls.left) &&
    (forall x, y :: 0 <= x < w && 0 <= y < h - 1 ==>
       CellAt(g, w, h, x, y).walls.bottom == CellAt(g, w, h, x, y + 1).walls.top)
  }

  /** The outer walls of the grid are all standing. */
  ghost predicate BoundaryClosed(g: seq<Cell>, w: int, h: int) {
    Dims(g, w, h) &&
    (forall x :: 0 <= x < w ==>
       CellAt(g, w, h, x, 0).walls.top && CellAt(g, w, h, x, h - 1).walls.bottom) &&
    (forall y :: 0 <= y < h ==>
       CellAt(g, w, h, 0, y).walls.left && CellAt(g, w, h, w - 1, y).walls.right)
  }

  /** Cell `j` is one grid step from cell `i`. */
  ghost predicate Adjacent(g: seq<Cell>, i: int, j: int)
    requires 0 <= i < |g| && 0 <= j < |g|
  {
    (g[j].y == g[i].y && (g[j].x == g[i].x + 1 || g[j].x == g[i].x - 1)) ||
    (g[j].x == g[i].x && (g[j].y == g[i].y + 1 || g[j].y == g[i].y - 1))
  }

  /** Cell `j` is one grid step from cell `i` and the wall of `i` on that side is down. */
  ghost predicate Linked(g: seq<Cell>, i: int, j: int)
    requires 0 <= i < |g| && 0 <= j < |g|
  {
    (g[j].y == g[i].y && g[j].x == g[i].x + 1 && !g[i].walls.right) ||
    (g[j].y == g[i].y && g[j].x == g[i].x - 1 && !g[i].walls.left) ||
    (g[j].x == g[i].x && g[j].y == g[i].y + 1 && !g[i].walls.bottom) ||
    (g[j].x == g[i].x && g[j].y == g[i].y - 1 && !g[i].walls.top)
  }

  /** A walk through open walls, as a sequence of cell indices. */
  ghost predicate IsPath(g: seq<Cell>, p: seq<int>) {
    |p| >= 1 &&
    (forall k :: 0 <= k < |p| ==> 0 <= p[k] < |g|) &&
    (forall k :: 0 <= k < |p| - 1 ==> Linked(g, p[k], p[k + 1]))
  }

  ghost predicate PathBetween(g: seq<Cell>, p: seq<int>, i: int, j: int) {
    IsPath(g, p) && p[0] == i && p[|p| - 1] == j
  }

  ghost predicate Reachable(g: seq<Cell>, i: int, j: int) {
    exists p :: PathBetween(g, p, i, j)
  }

  /** The number of open right walls plus open bottom walls inside the grid:
      with symmetric walls, the number of edges of the open-wall graph. */
  function EdgeCount(g: seq<Cell>, w: int, h: int): nat {
    if |g| == 0 then 0 else EdgeCount(g[..|g| - 1], w, h) + OpenEdges(g[|g| - 1], w, h)
  }

  function OpenEdges(c: Cell, w: int, h: int): nat {
    (if c.x < w - 1 && !c.walls.right then 1 else 0) +
    (if c.y < h - 1 && !c.walls.bottom then 1 else 0)
  }

  function VisitedCount(g: seq<Cell>): nat {
    if |g| == 0 then 0 else VisitedCount(g[..|g| - 1]) + (if g[|g| - 1].visited then 1 else 0)
  }

  /** What `generateMaze` promises: a spanning tree of the grid graph with
      the exit in the bottom-right corner. */
  ghost predicate PerfectMaze(g: seq<Cell>, w: int, h: int) {
    Shaped(g, w, h) && Symmetric(g, w, h) && BoundaryClosed(g, w, h) &&
    (forall i :: 0 <= i < |g| ==> g[i].visited) &&
    EdgeCount(g, w, h) == w * h - 1 &&
    (forall j :: 0 <= j < |g| ==> Reachable(g, 0, j)) &&
    (forall i :: 0 <= i < |g| ==> (g[i].isExit <==> i == w * h - 1))
  }

  // ---------------------------------------------------------------------
  // Counting
  // ---------------------------------------------------------------------

  lemma {:induction false} VisitedCountUpdate(g: seq<Cell>, i: int, c: Cell)
    requires 0 <= i < |g|
    ensures VisitedCount(g[i := c]) ==
            VisitedCount(g) - (if g[i].visited then 1 else 0) + (if c.visited then 1 else 0)
  {
    var n := |g|;
    if i == n - 1 {
      assert g[i := c][..n - 1] == g[..n - 1];
    } else {
      assert g[i := c][..n - 1] == g[..n - 1][i := c];
      VisitedCountUpdate(g[..n - 1], i, c);
    }
  }

  lemma {:induction false} EdgeCountUpdate(g: seq<Cell>, w: int, h: int, i: int, c: Cell)
    requires 0 <= i < |g|
    ensures EdgeCount(g[i := c], w, h) == EdgeCount(g, w, h) - OpenEdges(g[i], w, h) + OpenEdges(c, w, h)
  {
    var n := |g|;
    if i == n - 1 {
      assert g[i := c][..n - 1] == g[..n - 1];
    } else {
      assert g[i := c][..n - 1] == g[..n - 1][i := c];
      EdgeCountUpdate(g[..n - 1], w, h, i, c);
    }
  }

  lemma {:induction false} VisitedCountBounds(g: seq<Cell>)
    ensures VisitedCount(g) <= |g|
    ensures VisitedCount(g) == |g| <==> forall i :: 0 <= i < |g| ==> g[i].visited
    ensures VisitedCount(g) == 0 <==> forall i :: 0 <= i < |g| ==> !g[i].visited
  {
    if |g| > 0 {
      var p := g[..|g| - 1];
      VisitedCountBounds(p);
      assert forall i :: 0 <= i < |p| ==> p[i] == g[i];
    }
  }

  lemma {:induction false} EdgeCountClosed(g: seq<Cell>, w: int, h: int)
    requires forall i :: 0 <= i < |g| ==> g[i].walls == AllWalls
    ensures EdgeCount(g, w, h) == 0
  {
    if |g| > 0 {
      var p := g[..|g| - 1];
      assert forall i :: 0 <= i < |p| ==> p[i] == g[i];
      EdgeCountClosed(p, w, h);
    }
  }

  // ---------------------------------------------------------------------
  // Walls only ever open: paths survive
  // ---------------------------------------------------------------------

  /** `g2` has the same cells as `g1` at the same places, with every wall
      that was down in `g1` still down. */
  ghost predicate OnlyOpens(g1: seq<Cell>, g2: seq<Cell>) {
    |g2| == |g1| &&
    forall k :: 0 <= k < |g1| ==>
      g2[k].x == g1[k].x && g2[k].y == g1[k].y &&
      (!g1[k].walls.top ==> !g2[k].walls.top) &&
      (!g1[k].walls.right ==> !g2[k].walls.right) &&
      (!g1[k].walls.bottom ==> !g2[k].walls.bottom) &&
      (!g1[k].walls.left ==> !g2[k].walls.left)
  }

  lemma PathSurvives(g1: seq<Cell>, g2: seq<Cell>, p: seq<int>)
    requires OnlyOpens(g1, g2) && IsPath(g1, p)
    ensures IsPath(g2, p)
  {
    forall k | 0 <= k < |p| - 1 ensures Linked(g2, p[k], p[k + 1]) {
      assert Linked(g1, p[k], p[k + 1]);
    }
  }

  lemma PathExtend(g: seq<Cell>, p: seq<int>, i: int, j: int, k: int)
    requires PathBetween(g, p, i, j) && 0 <= k < |g| && Linked(g, j, k)
    ensures PathBetween(g, p + [k], i, k)
  {
    var q := p + [k];
    forall m | 0 <= m < |q| - 1 ensures Linked(g, q[m], q[m + 1]) {
      if m < |p| - 1 {
        assert q[m] == p[m] && q[m + 1] == p[m + 1];
      }
    }
  }

  // ---------------------------------------------------------------------
  // Removing the wall between two cells (removeWalls)
  // ---------------------------------------------------------------------

  /** The walls of a cell after removing the side that faces offset (dx, dy). */
  function Open(ws: Walls, dx: int, dy: int): Walls {
    Walls(
      top := if dy == -1 then false else ws.top,
      right := if dx == 1 then false else ws.right,
      bottom := if dy == 1 then false else ws.bottom,
      left := if dx == -1 then false else ws.left)
  }

  /** The grid after removing the walls between cells `a` and `b`. */
  function Carve(g: seq<Cell>, a: int, b: int): seq<Cell>
    requires 0 <= a < |g| && 0 <= b < |g| && a != b
  {
    var dx, dy := g[b].x - g[a].x, g[b].y - g[a].y;
    g[a := g[a].(walls := Open(g[a].walls, dx, dy))]
     [b := g[b].(walls := Open(g[b].walls, -dx, -dy))]
  }

  /** Exactly which walls carving between `a` and `b` takes down: the side
      of `a` that faces `b` and the side of `b` that faces `a`. */
  lemma CarveWallsAt(g: seq<Cell>, a: int, b: int, i: int)
    requires 0 <= a < |g| && 0 <= b < |g| && a != b && 0 <= i < |g|
    ensures |Carve(g, a, b)| == |g|
    ensures Carve(g, a, b)[i] == g[i].(walls := Carve(g, a, b)[i].walls)
    ensures Carve(g, a, b)[i].walls.top ==
      (g[i].walls.top && !(i == a && g[b].y == g[a].y - 1) && !(i == b && g[a].y == g[b].y - 1))
    ensures Carve(g, a, b)[i].walls.right ==
      (g[i].walls.right && !(i == a && g[b].x == g[a].x + 1) && !(i == b && g[a].x == g[b].x + 1))
    ensures Carve(g, a, b)[i].walls.bottom ==
      (g[i].walls.bottom && !(i == a && g[b].y == g[a].y + 1) && !(i == b && g[a].y == g[b].y + 1))
    ensures Carve(g, a, b)[i].walls.left ==
      (g[i].walls.left && !(i == a && g[b].x == g[a].x - 1) && !(i == b && g[a].x == g[b].x - 1))
  {
  }

  /** Carving between neighbours opens the wall on both sides and closes nothing. */
  lemma CarveOpensPair(g: seq<Cell>, w: int, h: int, a: int, b: int)
    requires Shaped(g, w, h) && 0 <= a < |g| && 0 <= b < |g| && a != b && Adjacent(g, a, b)
    ensures Linked(Carve(g, a, b), a, b) && Linked(Carve(g, a, b), b, a)
    ensures OnlyOpens(g, Carve(g, a, b))
    ensures Shaped(Carve(g, a, b), w, h)
  {
    var g' := Carve(g, a, b);
    CarveWallsAt(g, a, b, a);
    CarveWallsAt(g, a, b, b);
    forall k | 0 <= k < |g| ensures g'[k].x == g[k].x && g'[k].y == g[k].y {
      CarveWallsAt(g, a, b, k);
    }
  }

  lemma CarveSymmetric(g: seq<Cell>, w: int, h: int, a: int, b: int)
    requires Shaped(g, w, h) && Symmetric(g, w, h)
    requires 0 <= a < |g| && 0 <= b < |g| && a != b && Adjacent(g, a, b)
    ensures Symmetric(Carve(g, a, b), w, h)
  {
    var g' := Carve(g, a, b);
    forall x, y | 0 <= x < w - 1 && 0 <= y < h
      ensures CellAt(g', w, h, x, y).walls.right == CellAt(g', w, h, x + 1, y).walls.left
    {
      ShapedAt(g, w, h, x, y);
      ShapedAt(g, w, h, x + 1, y);
      CarveWallsAt(g, a, b, Idx(w, x, y));
      CarveWallsAt(g, a, b, Idx(w, x + 1, y));
      assert CellAt(g, w, h, x, y).walls.right == CellAt(g, w, h, x + 1, y).walls.left;
    }
    forall x, y | 0 <= x < w && 0 <= y < h - 1
      ensures CellAt(g', w, h, x, y).walls.bottom == CellAt(g', w, h, x, y + 1).walls.top
    {
      ShapedAt(g, w, h, x, y);
      ShapedAt(g, w, h, x, y + 1);
      CarveWallsAt(g, a, b, Idx(w, x, y));
      CarveWallsAt(g, a, b, Idx(w, x, y + 1));
      assert CellAt(g, w, h, x, y).walls.bottom == CellAt(g, w, h, x, y + 1).walls.top;
    }
  }

  lemma CarveBoundary(g: seq<Cell>, w: int, h: int, a: int, b: int)
    requires Shaped(g, w, h) && BoundaryClosed(g, w, h)
    requires 0 <= a < |g| && 0 <= b < |g| && a != b && Adjacent(g, a, b)
    ensures BoundaryClosed(Carve(g, a, b), w, h)
  {
    var g' := Carve(g, a, b);
    assert 0 <= g[a].x < w && 0 <= g[a].y < h && 0 <= g[b].x < w && 0 <= g[b].y < h;
    forall x | 0 <= x < w
      ensures CellAt(g', w, h, x, 0).walls.top && CellAt(g', w, h, x, h - 1).walls.bottom
    {
      ShapedAt(g, w, h, x, 0);
      ShapedAt(g, w, h, x, h - 1);
      CarveWallsAt(g, a, b, Idx(w, x, 0));
      CarveWallsAt(g, a, b, Idx(w, x, h - 1));
      assert CellAt(g, w, h, x, 0).walls.top && CellAt(g, w, h, x, h - 1).walls.bottom;
    }
    forall y | 0 <= y < h
      ensures CellAt(g', w, h, 0, y).walls.left && CellAt(g', w, h, w - 1, y).walls.right
    {
      ShapedAt(g, w, h, 0, y);
      ShapedAt(g, w, h, w - 1, y);
      CarveWallsAt(g, a, b, Idx(w, 0, y));
      CarveWallsAt(g, a, b, Idx(w, w - 1, y));
      assert CellAt(g, w, h, 0, y).walls.left && CellAt(g, w, h, w - 1, y).walls.right;
    }
  }

  /** Carving from a cell into a neighbour whose four walls all stand adds
      exactly one edge to the open-wall graph. */
  lemma CarveAddsOneEdge(g: seq<Cell>, w: int, h: int, a: int, b: int)
    requires Shaped(g, w, h) && Symmetric(g, w, h)
    requires 0 <= a < |g| && 0 <= b < |g| && a != b && Adjacent(g, a, b)
    requires g[b].walls == AllWalls
    ensures EdgeCount(Carve(g, a, b), w, h) == EdgeCount(g, w, h) + 1
  {
    var dx, dy := g[b].x - g[a].x, g[b].y - g[a].y;
    var ca := g[a].(walls := Open(g[a].walls, dx, dy));
    var cb := g[b].(walls := Open(g[b].walls, -dx, -dy));
    var g1 := g[a := ca];
    EdgeCountUpdate(g, w, h, a, ca);
    EdgeCountUpdate(g1, w, h, b, cb);
    var x, y := g[a].x, g[a].y;
    if dx == 1 {
      ShapedAt(g, w, h, x + 1, y);
      assert CellAt(g, w, h, x, y).walls.right == CellAt(g, w, h, x + 1, y).walls.left;
    } else if dy == 1 {
      ShapedAt(g, w, h, x, y + 1);
      assert CellAt(g, w, h, x, y).walls.bottom == CellAt(g, w, h, x, y + 1).walls.top;
    }
  }

  // ---------------------------------------------------------------------
  // Consequences of a perfect maze
  // ---------------------------------------------------------------------

  /** With symmetric walls an open passage can be walked both ways. */
  lemma LinkedBack(g: seq<Cell>, w: int, h: int, a: int, b: int)
    requires Shaped(g, w, h) && Symmetric(g, w, h)
    requires 0 <= a < |g| && 0 <= b < |g| && Linked(g, a, b)
    ensures Linked(g, b, a)
  {
    var x, y := g[a].x, g[a].y;
    if g[b].y == y && g[b].x == x + 1 {
      assert CellAt(g, w, h, x, y) == g[a] && CellAt(g, w, h, x + 1, y) == g[b];
    } else if g[b].y == y && g[b].x == x - 1 {
      assert CellAt(g, w, h, x - 1, y) == g[b] && CellAt(g, w, h, x, y) == g[a];
    } else if g[b].x == x && g[b].y == y + 1 {
      assert CellAt(g, w, h, x, y) == g[a] && CellAt(g, w, h, x, y + 1) == g[b];
    } else {
      assert CellAt(g, w, h, x, y - 1) == g[b] && CellAt(g, w, h, x, y) == g[a];
    }
  }

  /** The exit of a perfect maze is the bottom-right cell and no other. */
  lemma ExitCorner(g: seq<Cell>, w: int, h: int, x: int, y: int)
    requires PerfectMaze(g, w, h) && 0 <= x < w && 0 <= y < h
    ensures CellAt(g, w, h, x, y).isExit <==> x == w - 1 && y == h - 1
  {
    LastIdx(w, h);
    IdxInRange(w, h, x, y);
    if Idx(w, x, y) == w * h - 1 {
      IdxInjective(w, x, y, w - 1, h - 1);
    }
  }

  /** In a perfect maze of two or more cells, every cell has a passage to
      some neighbour: the last step of its path from the first cell, or,
      for the first cell, the first step of its path to another one. */
  lemma CellHasOpening(g: seq<Cell>, w: int, h: int, i: int)
    requires PerfectMaze(g, w, h) && |g| >= 2 && 0 <= i < |g|
    ensures exists j :: 0 <= j < |g| && Linked(g, i, j)
  {
    if i == 0 {
      assert Reachable(g, 0, 1);
      var p :| PathBetween(g, p, 0, 1);
      assert |p| >= 2;
      assert Linked(g, p[0], p[1]);
    } else {
      assert Reachable(g, 0, i);
      var p :| PathBetween(g, p, 0, i);
      var n := |p|;
      assert n >= 2;
      assert Linked(g, p[n - 2], p[n - 1]);
      LinkedBack(g, w, h, p[n - 2], i);
    }
  }

  /** An open wall never faces outside the grid. */
  lemma OpenWallInside(g: seq<Cell>, w: int, h: int, x: int, y: int)
    requires BoundaryClosed(g, w, h) && 0 <= x < w && 0 <= y < h
    ensures var c := CellAt(g, w, h, x, y);
      (!c.walls.top ==> y > 0) && (!c.walls.right ==> x < w - 1) &&
      (!c.walls.bottom ==> y < h - 1) && (!c.walls.left ==> x > 0)
  {
    assert CellAt(g, w, h, x, 0).walls.top && CellAt(g, w, h, x, h - 1).walls.bottom;
    assert CellAt(g, w, h, 0, y).walls.left && CellAt(g, w, h, w - 1, y).walls.right;
  }

  /** A perfect 1x1 maze is one closed cell that is visited and is the exit. */
  lemma SingleCell(g: seq<Cell>)
    requires PerfectMaze(g, 1, 1)
    ensures g == [Cell(0, 0, AllWalls, true, true)]
  {
    assert CellAt(g, 1, 1, 0, 0) == g[0];
  }
}
