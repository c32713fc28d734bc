/** `generateMaze`: a randomized depth-first "recursive backtracker" that
    carves a `width` x `height` grid into a spanning tree and marks the
    bottom-right cell as the exit. The grid is an array worked on in place;
    the random source is a caller-supplied sequence of draws. */
module MazeGenerator {
  import opened MazeTypes
  import opened MazeGrid

  // ---------------------------------------------------------------------
  // Building the grid
  // ---------------------------------------------------------------------

  /** A cell as the grid starts out: at index `i`, knowing its own
      coordinates, all four walls up, unvisited, not the exit. */
  ghost predicate Pristine(c: Cell, w: int, h: int, i: int) {
    0 <= c.x < w && 0 <= c.y < h && Idx(w, c.x, c.y) == i &&
    c.walls == AllWalls && !c.visited && !c.isExit
  }

  /** A grid of pristine cells is well-shaped and holds, at every (x, y),
      the initial cell for that position. */
  lemma PristineGrid(g: seq<Cell>, w: int, h: int)
    requires w >= 1 && h >= 1 && |g| == w * h
    requires forall i :: 0 <= i < |g| ==> Pristine(g[i], w, h, i)
    ensures Shaped(g, w, h)
    ensures forall x, y :: 0 <= x < w && 0 <= y < h ==>
      CellAt(g, w, h, x, y) == Cell(x, y, AllWalls, false, false)
  {
    forall x, y | 0 <= x < w && 0 <= y < h
      ensures CellAt(g, w, h, x, y) == Cell(x, y, AllWalls, false, false)
    {
      ShapedAt(g, w, h, x, y);
    }
  }

  /** The inner loop of the grid builder: fill row `y` from left to right. */
  method FillRow(grid: array<Cell>, width: int, height: int, y: int)
    requires width >= 1 && 0 <= y < height && grid.Length == width * height
    requires forall i :: 0 <= i < Idx(width, 0, y) ==> Pristine(grid[i], width, height, i)
    modifies grid
    ensures Idx(width, 0, y + 1) <= grid.Length
    ensures forall i :: 0 <= i < Idx(width, 0, y + 1) ==> Pristine(grid[i], width, height, i)
  {
    IdxInRange(width, height, 0, y);
    var x := 0;
    while x < width
      invariant 0 <= x <= width
      invariant 0 <= Idx(width, x, y) <= grid.Length
      invariant forall i :: 0 <= i < Idx(width, x, y) ==> Pristine(grid[i], width, height, i)
    {
      IdxInRange(width, height, x, y);
      grid[Idx(width, x, y)] := Cell(x, y, AllWalls, false, false);
      x := x + 1;
    }
    MulSucc(y, width);
  }

  /** `height` rows of `width` cells, each storing its own coordinates, with
      all four walls, `visited = false` and `isExit = false`. */
  method NewGrid(width: int, height: int) returns (grid: array<Cell>)
    requires width >= 1 && height >= 1
    ensures fresh(grid)
    ensures Shaped(grid[..], width, height)
    ensures forall x, y :: 0 <= x < width && 0 <= y < height ==>
      CellAt(grid[..], width, height, x, y) == Cell(x, y, AllWalls, false, false)
    ensures forall i :: 0 <= i < grid.Length ==> Pristine(grid[i], width, height, i)
  {
    grid := new Cell[width * height];
    var y := 0;
    while y < height
      invariant 0 <= y <= height && grid.Length == width * height
      invariant 0 <= Idx(width, 0, y) <= grid.Length
      invariant forall i :: 0 <= i < Idx(width, 0, y) ==> Pristine(grid[i], width, height, i)
    {
      FillRow(grid, width, height, y);
      y := y + 1;
    }
    assert Idx(width, 0, height) == grid.Length;
    PristineGrid(grid[..], width, height);
  }

  // ---------------------------------------------------------------------
  // getNeighbors and removeWalls
  // ---------------------------------------------------------------------

  lemma NeighbourCells(g: seq<Cell>, w: int, h: int, i: int)
    requires Shaped(g, w, h) && 0 <= i < |g|
    ensures var x, y := g[i].x, g[i].y;
      (y > 0 ==> 0 <= Idx(w, x, y - 1) < |g| && g[Idx(w, x, y - 1)].x == x && g[Idx(w, x, y - 1)].y == y - 1) &&
      (x < w - 1 ==> 0 <= Idx(w, x + 1, y) < |g| && g[Idx(w, x + 1, y)].x == x + 1 && g[Idx(w, x + 1, y)].y == y) &&
      (y < h - 1 ==> 0 <= Idx(w, x, y + 1) < |g| && g[Idx(w, x, y + 1)].x == x && g[Idx(w, x, y + 1)].y == y + 1) &&
      (x > 0 ==> 0 <= Idx(w, x - 1, y) < |g| && g[Idx(w, x - 1, y)].x == x - 1 && g[Idx(w, x - 1, y)].y == y)
  {
    var x, y := g[i].x, g[i].y;
    if y > 0 { ShapedAt(g, w, h, x, y - 1); }
    if x < w - 1 { ShapedAt(g, w, h, x + 1, y); }
    if y < h - 1 { ShapedAt(g, w, h, x, y + 1); }
    if x > 0 { ShapedAt(g, w, h, x - 1, y); }
  }

  /** A cell one grid step from cell `i` is one of its four candidate neighbours. */
  lemma AdjacentCases(g: seq<Cell>, w: int, h: int, i: int)
    requires Shaped(g, w, h) && 0 <= i < |g|
    ensures forall j :: 0 <= j < |g| && Adjacent(g, i, j) ==>
      var x, y := g[i].x, g[i].y;
      (y > 0 && j == Idx(w, x, y - 1)) || (x < w - 1 && j == Idx(w, x + 1, y)) ||
      (y < h - 1 && j == Idx(w, x, y + 1)) || (x > 0 && j == Idx(w, x - 1, y))
  {
    forall j | 0 <= j < |g| && Adjacent(g, i, j)
      ensures var x, y := g[i].x, g[i].y;
        (y > 0 && j == Idx(w, x, y - 1)) || (x < w - 1 && j == Idx(w, x + 1, y)) ||
        (y < h - 1 && j == Idx(w, x, y + 1)) || (x > 0 && j == Idx(w, x - 1, y))
    {
      assert Idx(w, g[j].x, g[j].y) == j;
    }
  }

  /** The in-grid neighbours of cell `i`, in the order top, right, bottom, left:
      exactly the cells one grid step away. */
  function InGridNeighbors(g: seq<Cell>, w: int, h: int, i: int): (r: seq<int>)
    requires Shaped(g, w, h) && 0 <= i < |g|
    ensures |r| <= 4
    ensures forall k :: 0 <= k < |r| ==> 0 <= r[k] < |g| && Adjacent(g, i, r[k])
    ensures forall j :: 0 <= j < |g| && Adjacent(g, i, j) ==> j in r
  {
    var x, y := g[i].x, g[i].y;
    NeighbourCells(g, w, h, i);
    AdjacentCases(g, w, h, i);
    var up := if y > 0 then [Idx(w, x, y - 1)] else [];
    var right := if x < w - 1 then [Idx(w, x + 1, y)] else [];
    var down := if y < h - 1 then [Idx(w, x, y + 1)] else [];
    var left := if x > 0 then [Idx(w, x - 1, y)] else [];
    up + right + down + left
  }

  /** The candidates whose cell is not yet visited, in their original order. */
  function Unvisited(g: seq<Cell>, cs: seq<int>): (r: seq<int>)
    requires forall k :: 0 <= k < |cs| ==> 0 <= cs[k] < |g|
    ensures |r| <= |cs|
    ensures forall k :: 0 <= k < |r| ==> r[k] in cs && 0 <= r[k] < |g| && !g[r[k]].visited
    ensures forall k :: 0 <= k < |cs| && !g[cs[k]].visited ==> cs[k] in r
    ensures Subsequence(r, cs)
  {
    if cs == [] then []
    else if g[cs[0]].visited then Unvisited(g, cs[1..])
    else [cs[0]] + Unvisited(g, cs[1..])
  }

  /** `getNeighbors`: the unvisited cells one grid step from cell `i`, and
      all of them. */
  function GetNeighbors(g: seq<Cell>, w: int, h: int, i: int): (r: seq<int>)
    requires Shaped(g, w, h) && 0 <= i < |g|
    ensures |r| <= 4
    ensures forall k :: 0 <= k < |r| ==> 0 <= r[k] < |g| && Adjacent(g, i, r[k]) && !g[r[k]].visited
    ensures forall j :: 0 <= j < |g| && Adjacent(g, i, j) && !g[j].visited ==> j in r
  {
    var around := InGridNeighbors(g, w, h, i);
    var r := Unvisited(g, around);
    assert forall j :: j in around ==> exists k :: 0 <= k < |around| && around[k] == j;
    r
  }

  /** `removeWalls`: take down the side of `current` facing `next` and the
      side of `next` facing `current`, decided by the coordinate offsets. */
  method RemoveWalls(grid: array<Cell>, current: int, next: int)
    requires 0 <= current < grid.Length && 0 <= next < grid.Length && current != next
    modifies grid
    ensures grid[..] == Carve(old(grid[..]), current, next)
  {
    var a, b := grid[current].walls, grid[next].walls;
    var dx := grid[next].x - grid[current].x;
    var dy := grid[next].y - grid[current].y;
    if dx == 1 {
      a, b := a.(right := false), b.(left := false);
    } else if dx == -1 {
      a, b := a.(left := false), b.(right := false);
    }
    if dy == 1 {
      a, b := a.(bottom := false), b.(top := false);
    } else if dy == -1 {
      a, b := a.(top := false), b.(bottom := false);
    }
    assert a == Open(grid[current].walls, dx, dy) && b == Open(grid[next].walls, -dx, -dy);
    grid[current] := grid[current].(walls := a);
    grid[next] := grid[next].(walls := b);
  }

  // ---------------------------------------------------------------------
  // The backtracking loop
  // ---------------------------------------------------------------------

  function Visit(g: seq<Cell>, i: int): seq<Cell>
    requires 0 <= i < |g|
  {
    g[i := g[i].(visited := true)]
  }

  /** Every grid neighbour of cell `i` has been visited. */
  ghost predicate Finished(g: seq<Cell>, i: int)
    requires 0 <= i < |g|
  {
    forall j :: 0 <= j < |g| && Adjacent(g, i, j) ==> g[j].visited
  }

  /** `g2` differs from `g1` at most in the `visited` and `isExit` flags. */
  ghost predicate SameLayout(g1: seq<Cell>, g2: seq<Cell>) {
    |g2| == |g1| &&
    forall k :: 0 <= k < |g1| ==> g2[k].x == g1[k].x && g2[k].y == g1[k].y && g2[k].walls == g1[k].walls
  }

  lemma {:induction false} EdgeCountSameLayout(g1: seq<Cell>, g2: seq<Cell>, w: int, h: int)
    requires SameLayout(g1, g2)
    ensures EdgeCount(g2, w, h) == EdgeCount(g1, w, h)
  {
    if |g1| > 0 {
      var n := |g1|;
      EdgeCountSameLayout(g1[..n - 1], g2[..n - 1], w, h);
    }
  }

  /** The wall properties depend only on coordinates and walls. */
  lemma LayoutTransfer(g1: seq<Cell>, g2: seq<Cell>, w: int, h: int)
    requires SameLayout(g1, g2)
    ensures Shaped(g1, w, h) ==> Shaped(g2, w, h)
    ensures Symmetric(g1, w, h) ==> Symmetric(g2, w, h)
    ensures BoundaryClosed(g1, w, h) ==> BoundaryClosed(g2, w, h)
    ensures OnlyOpens(g1, g2)
    ensures EdgeCount(g2, w, h) == EdgeCount(g1, w, h)
  {
    EdgeCountSameLayout(g1, g2, w, h);
    if Dims(g1, w, h) {
      forall x, y | 0 <= x < w && 0 <= y < h
        ensures CellAt(g2, w, h, x, y).walls == CellAt(g1, w, h, x, y).walls
      {
        IdxInRange(w, h, x, y);
      }
    }
  }

  /** A finished cell stays finished while cells only get visited. */
  lemma FinishedStays(g1: seq<Cell>, g2: seq<Cell>, i: int)
    requires |g2| == |g1| && 0 <= i < |g1| && Finished(g1, i)
    requires forall k :: 0 <= k < |g1| ==>
      g2[k].x == g1[k].x && g2[k].y == g1[k].y && (g1[k].visited ==> g2[k].visited)
    ensures Finished(g2, i)
  {
    forall j | 0 <= j < |g2| && Adjacent(g2, i, j) ensures g2[j].visited {
      assert Adjacent(g1, i, j);
    }
  }

  /** The loop invariant of the backtracker: the grid keeps its shape,
      symmetric walls and closed border; `current` and every stacked cell are
      visited; a visited cell that is neither current nor stacked has no
      unvisited neighbour; unvisited cells still have all four walls; one
      edge was opened per visited cell after the first; and every visited
      cell has a recorded open-wall path from cell (0, 0). */
  ghost predicate Backtracking(g: seq<Cell>, w: int, h: int, stack: seq<int>, current: int,
                               paths: map<int, seq<int>>) {
    CarvedGrid(g, w, h) && Frontier(g, stack, current) && PathsFromOrigin(g, paths)
  }

  ghost predicate CarvedGrid(g: seq<Cell>, w: int, h: int) {
    Shaped(g, w, h) && Symmetric(g, w, h) && BoundaryClosed(g, w, h) &&
    (forall i :: 0 <= i < |g| ==> !g[i].isExit) &&
    g[0].visited &&
    (forall i :: 0 <= i < |g| && !g[i].visited ==> g[i].walls == AllWalls) &&
    EdgeCount(g, w, h) + 1 == VisitedCount(g)
  }

  ghost predicate Frontier(g: seq<Cell>, stack: seq<int>, current: int) {
    0 <= current < |g| && g[current].visited &&
    (forall k :: 0 <= k < |stack| ==> 0 <= stack[k] < |g| && g[stack[k]].visited) &&
    (forall i :: 0 <= i < |g| && g[i].visited && i != current && i !in stack ==> Finished(g, i))
  }

  ghost predicate PathsFromOrigin(g: seq<Cell>, paths: map<int, seq<int>>) {
    forall i :: 0 <= i < |g| && g[i].visited ==> i in paths && PathBetween(g, paths[i], 0, i)
  }

  /** `g2` is `g1` with cell `b` newly visited and no coordinate changed. */
  ghost predicate VisitsOneMore(g1: seq<Cell>, g2: seq<Cell>, b: int) {
    |g2| == |g1| && 0 <= b < |g1| &&
    forall k :: 0 <= k < |g1| ==>
      g2[k].x == g1[k].x && g2[k].y == g1[k].y && g2[k].visited == (g1[k].visited || k == b)
  }

  lemma FrontierAdvances(g1: seq<Cell>, g2: seq<Cell>, stack: seq<int>, current: int, next: int)
    requires Frontier(g1, stack, current) && VisitsOneMore(g1, g2, next)
    ensures Frontier(g2, stack + [current], next)
  {
    forall i | 0 <= i < |g2| && g2[i].visited && i != next && i !in stack + [current]
      ensures Finished(g2, i)
    {
      FinishedStays(g1, g2, i);
    }
  }

  lemma PathsAdvance(g1: seq<Cell>, g2: seq<Cell>, paths: map<int, seq<int>>, current: int, next: int)
    requires PathsFromOrigin(g1, paths) && VisitsOneMore(g1, g2, next)
    requires OnlyOpens(g1, g2) && 0 <= current < |g1| && g1[current].visited && Linked(g2, current, next)
    ensures PathsFromOrigin(g2, paths[next := paths[current] + [next]])
  {
    var paths' := paths[next := paths[current] + [next]];
    forall i | 0 <= i < |g2| && g2[i].visited ensures i in paths' && PathBetween(g2, paths'[i], 0, i) {
      if i == next {
        PathSurvives(g1, g2, paths[current]);
        PathExtend(g2, paths[current], 0, current, next);
      } else {
        PathSurvives(g1, g2, paths[i]);
      }
    }
  }

  lemma BacktrackingStart(g: seq<Cell>, w: int, h: int)
    requires Shaped(g, w, h)
    requires forall i :: 0 <= i < |g| ==> Pristine(g[i], w, h, i)
    ensures Backtracking(Visit(g, 0), w, h, [], 0, map[0 := [0]])
    ensures VisitedCount(Visit(g, 0)) == 1
  {
    var g' := Visit(g, 0);
    LayoutTransfer(g, g', w, h);
    forall x, y | 0 <= x < w && 0 <= y < h ensures CellAt(g', w, h, x, y).walls == AllWalls {
      IdxInRange(w, h, x, y);
    }
    EdgeCountClosed(g, w, h);
    VisitedCountBounds(g);
    VisitedCountUpdate(g, 0, g[0].(visited := true));
    assert PathBetween(g', [0], 0, 0);
  }

  /** One forward step of the backtracker on the grid: remove the walls
      between `a` and `b`, then mark `b` visited. */
  function Advance(g: seq<Cell>, a: int, b: int): seq<Cell>
    requires 0 <= a < |g| && 0 <= b < |g| && a != b
  {
    Visit(Carve(g, a, b), b)
  }

  /** The wall properties survive a forward step, which opens the pair of
      walls between `a` and `b` and nothing else. */
  lemma AdvanceWalls(g: seq<Cell>, w: int, h: int, a: int, b: int)
    requires Shaped(g, w, h) && Symmetric(g, w, h) && BoundaryClosed(g, w, h)
    requires 0 <= a < |g| && 0 <= b < |g| && a != b && Adjacent(g, a, b)
    ensures Shaped(Advance(g, a, b), w, h)
    ensures Symmetric(Advance(g, a, b), w, h)
    ensures BoundaryClosed(Advance(g, a, b), w, h)
    ensures OnlyOpens(g, Advance(g, a, b))
    ensures Linked(Advance(g, a, b), a, b)
  {
    var g1 := Carve(g, a, b);
    CarveOpensPair(g, w, h, a, b);
    CarveSymmetric(g, w, h, a, b);
    CarveBoundary(g, w, h, a, b);
    LayoutTransfer(g1, Visit(g1, b), w, h);
  }

  /** A forward step into an unvisited, closed cell adds one open inner wall
      and one visited cell. */
  lemma AdvanceCounts(g: seq<Cell>, w: int, h: int, a: int, b: int)
    requires Shaped(g, w, h) && Symmetric(g, w, h)
    requires 0 <= a < |g| && 0 <= b < |g| && a != b && Adjacent(g, a, b)
    requires !g[b].visited && g[b].walls == AllWalls
    ensures EdgeCount(Advance(g, a, b), w, h) == EdgeCount(g, w, h) + 1
    ensures VisitedCount(Advance(g, a, b)) == VisitedCount(g) + 1
  {
    var g1 := Carve(g, a, b);
    var g2 := Visit(g1, b);
    CarveAddsOneEdge(g, w, h, a, b);
    CarveOpensPair(g, w, h, a, b);
    LayoutTransfer(g1, g2, w, h);
    CarveWallsAt(g, a, b, a);
    CarveWallsAt(g, a, b, b);
    VisitedCountUpdate(g, a, g1[a]);
    VisitedCountUpdate(g[a := g1[a]], b, g1[b]);
    assert g[a := g1[a]][b := g1[b]] == g1 by {
      forall k | 0 <= k < |g| ensures g1[k] == g[a := g1[a]][b := g1[b]][k] {
        CarveWallsAt(g, a, b, k);
      }
    }
    VisitedCountUpdate(g1, b, g1[b].(visited := true));
  }

  /** A forward step changes only cells `a` and `b`, keeps every exit flag
      and adds `b` to the visited cells. */
  lemma AdvanceCells(g: seq<Cell>, a: int, b: int)
    requires 0 <= a < |g| && 0 <= b < |g| && a != b
    ensures forall k :: 0 <= k < |g| ==>
      Advance(g, a, b)[k].isExit == g[k].isExit &&
      Advance(g, a, b)[k].visited == (g[k].visited || k == b) &&
      (k != a && k != b ==> Advance(g, a, b)[k] == g[k])
  {
    forall k | 0 <= k < |g|
      ensures Carve(g, a, b)[k] == g[k].(walls := Carve(g, a, b)[k].walls)
    {
      CarveWallsAt(g, a, b, k);
    }
  }

  /** What one forward step does to the grid: only walls between `a` and `b`
      open, `b` becomes visited, the wall properties hold on, and both the
      edge count and the visited count grow by one. */
  lemma AdvanceGrid(g: seq<Cell>, w: int, h: int, a: int, b: int)
    requires Shaped(g, w, h) && Symmetric(g, w, h) && BoundaryClosed(g, w, h)
    requires 0 <= a < |g| && 0 <= b < |g| && a != b && Adjacent(g, a, b)
    requires !g[b].visited && g[b].walls == AllWalls
    ensures Shaped(Advance(g, a, b), w, h)
    ensures Symmetric(Advance(g, a, b), w, h)
    ensures BoundaryClosed(Advance(g, a, b), w, h)
    ensures OnlyOpens(g, Advance(g, a, b))
    ensures Linked(Advance(g, a, b), a, b)
    ensures EdgeCount(Advance(g, a, b), w, h) == EdgeCount(g, w, h) + 1
    ensures VisitedCount(Advance(g, a, b)) == VisitedCount(g) + 1
    ensures forall k :: 0 <= k < |g| ==>
      Advance(g, a, b)[k].isExit == g[k].isExit &&
      Advance(g, a, b)[k].visited == (g[k].visited || k == b) &&
      (k != a && k != b ==> Advance(g, a, b)[k] == g[k])
  {
    AdvanceWalls(g, w, h, a, b);
    AdvanceCounts(g, w, h, a, b);
    AdvanceCells(g, a, b);
  }

  /** Carving from `current` into an unvisited neighbour `next`, marking it
      visited and pushing `current` keeps the invariant and visits one more cell. */
  lemma CarveStep(g: seq<Cell>, w: int, h: int, stack: seq<int>, current: int, next: int,
                  paths: map<int, seq<int>>)
    requires Backtracking(g, w, h, stack, current, paths)
    requires 0 <= next < |g| && Adjacent(g, current, next) && !g[next].visited
    ensures next != current
    ensures Backtracking(Advance(g, current, next), w, h, stack + [current], next,
                         paths[next := paths[current] + [next]])
    ensures VisitedCount(Advance(g, current, next)) == VisitedCount(g) + 1
  {
    var g2 := Advance(g, current, next);
    CarvedGridAdvances(g, w, h, current, next);
    FrontierAdvances(g, g2, stack, current, next);
    PathsAdvance(g, g2, paths, current, next);
  }

  lemma CarvedGridAdvances(g: seq<Cell>, w: int, h: int, a: int, b: int)
    requires CarvedGrid(g, w, h) && 0 <= a < |g| && g[a].visited
    requires 0 <= b < |g| && Adjacent(g, a, b) && !g[b].visited
    ensures a != b
    ensures CarvedGrid(Advance(g, a, b), w, h)
    ensures VisitsOneMore(g, Advance(g, a, b), b)
    ensures OnlyOpens(g, Advance(g, a, b)) && Linked(Advance(g, a, b), a, b)
    ensures VisitedCount(Advance(g, a, b)) == VisitedCount(g) + 1
  {
    AdvanceGrid(g, w, h, a, b);
    FlagsAdvance(g, Advance(g, a, b), a, b);
  }

  /** The flag conjuncts of the carve invariant survive a step that only
      changes cells `a` (already visited) and `b` (newly visited). */
  lemma FlagsAdvance(g: seq<Cell>, g2: seq<Cell>, a: int, b: int)
    requires |g2| == |g| && 0 <= a < |g| && 0 <= b < |g| && g[a].visited && |g| > 0
    requires forall k :: 0 <= k < |g| ==>
      g2[k].isExit == g[k].isExit && g2[k].visited == (g[k].visited || k == b) &&
      (k != a && k != b ==> g2[k] == g[k])
    requires forall i :: 0 <= i < |g| ==> !g[i].isExit
    requires g[0].visited
    requires forall i :: 0 <= i < |g| && !g[i].visited ==> g[i].walls == AllWalls
    ensures forall i :: 0 <= i < |g2| ==> !g2[i].isExit
    ensures g2[0].visited
    ensures forall i :: 0 <= i < |g2| && !g2[i].visited ==> g2[i].walls == AllWalls
  {
  }

  /** Backtracking from a finished `current` to the top of the stack keeps the invariant. */
  lemma PopStep(g: seq<Cell>, w: int, h: int, stack: seq<int>, current: int, paths: map<int, seq<int>>)
    requires Backtracking(g, w, h, stack, current, paths)
    requires |stack| > 0 && Finished(g, current)
    ensures Backtracking(g, w, h, stack[..|stack| - 1], stack[|stack| - 1], paths)
  {
    var top, rest := stack[|stack| - 1], stack[..|stack| - 1];
    assert stack == rest + [top];
  }

  /** Cell (x, y) is visited when (0, 0) is and no visited cell has an
      unvisited neighbour. */
  lemma {:induction false} CoveredAt(g: seq<Cell>, w: int, h: int, x: int, y: int)
    requires Shaped(g, w, h) && g[0].visited
    requires forall i :: 0 <= i < |g| && g[i].visited ==> Finished(g, i)
    requires 0 <= x < w && 0 <= y < h
    ensures 0 <= Idx(w, x, y) < |g| && g[Idx(w, x, y)].visited
    decreases x + y
  {
    ShapedAt(g, w, h, x, y);
    if y > 0 {
      CoveredAt(g, w, h, x, y - 1);
      ShapedAt(g, w, h, x, y - 1);
      assert Adjacent(g, Idx(w, x, y - 1), Idx(w, x, y));
    } else if x > 0 {
      CoveredAt(g, w, h, x - 1, y);
      ShapedAt(g, w, h, x - 1, y);
      assert Adjacent(g, Idx(w, x - 1, y), Idx(w, x, y));
    }
  }

  /** What the loop leaves behind: every cell visited, none the exit yet,
      exactly `w * h - 1` open inner walls and every cell reachable from the
      first, on a well-formed grid. */
  ghost predicate SpanningTree(g: seq<Cell>, w: int, h: int) {
    Shaped(g, w, h) && Symmetric(g, w, h) && BoundaryClosed(g, w, h) &&
    (forall i :: 0 <= i < |g| ==> g[i].visited && !g[i].isExit) &&
    EdgeCount(g, w, h) == w * h - 1 &&
    (forall j :: 0 <= j < |g| ==> Reachable(g, 0, j))
  }

  /** When the stack is empty and `current` is finished, the loop has built
      a spanning tree. */
  lemma DoneStep(g: seq<Cell>, w: int, h: int, current: int, paths: map<int, seq<int>>)
    requires Backtracking(g, w, h, [], current, paths) && Finished(g, current)
    ensures SpanningTree(g, w, h)
  {
    forall i | 0 <= i < |g| ensures g[i].visited {
      CoveredAt(g, w, h, g[i].x, g[i].y);
    }
    VisitedCountBounds(g);
    forall j | 0 <= j < |g| ensures Reachable(g, 0, j) {
      assert PathBetween(g, paths[j], 0, j);
    }
  }

  /** Marking the last cell as the exit completes a perfect maze. */
  lemma MarkExit(g: seq<Cell>, w: int, h: int)
    requires SpanningTree(g, w, h)
    ensures PerfectMaze(g[w * h - 1 := g[w * h - 1].(isExit := true)], w, h)
  {
    var n := w * h;
    var g' := g[n - 1 := g[n - 1].(isExit := true)];
    LayoutTransfer(g, g', w, h);
    forall j | 0 <= j < |g'| ensures Reachable(g', 0, j) {
      assert Reachable(g, 0, j);
      var p :| PathBetween(g, p, 0, j);
      PathSurvives(g, g', p);
      assert PathBetween(g', p, 0, j);
    }
  }

  /** One step forward of the backtracker: open the wall pair between
      `current` and `next`, then mark `next` visited. */
  method StepTo(grid: array<Cell>, current: int, next: int)
    requires 0 <= current < grid.Length && 0 <= next < grid.Length && current != next
    modifies grid
    ensures grid[..] == Advance(old(grid[..]), current, next)
  {
    RemoveWalls(grid, current, next);
    grid[next] := grid[next].(visited := true);
  }

  /** The `while (stack.length > 0 || unvisited neighbours)` loop, started
      with cell 0 visited and an empty stack. It ends with a spanning tree
      of the grid. */
  method Backtrack(grid: array<Cell>, width: int, height: int, choices: seq<nat>)
    requires Backtracking(grid[..], width, height, [], 0, map[0 := [0]])
    requires VisitedCount(grid[..]) == 1
    requires |choices| >= grid.Length - 1
    modifies grid
    ensures SpanningTree(grid[..], width, height)
  {
    var stack: seq<int> := [];
    var current := 0;
    ghost var paths: map<int, seq<int>> := map[0 := [0]];
    var draws := 0;
    VisitedCountBounds(grid[..]);
    while true
      invariant Backtracking(grid[..], width, height, stack, current, paths)
      invariant draws + 1 == VisitedCount(grid[..]) <= grid.Length
      decreases 2 * (grid.Length - VisitedCount(grid[..])) + |stack|
    {
      var neighbors := GetNeighbors(grid[..], width, height, current);
      if |neighbors| > 0 {
        assert !grid[..][neighbors[0]].visited;
        VisitedCountBounds(grid[..]);
        assert draws < |choices|;
        var next := neighbors[choices[draws] % |neighbors|];
        CarveStep(grid[..], width, height, stack, current, next, paths);
        stack := stack + [current];
        StepTo(grid, current, next);
        paths := paths[next := paths[current] + [next]];
        current := next;
        draws := draws + 1;
        VisitedCountBounds(grid[..]);
      } else if |stack| > 0 {
        PopStep(grid[..], width, height, stack, current, paths);
        current := stack[|stack| - 1];
        stack := stack[..|stack| - 1];
      } else {
        DoneStep(grid[..], width, height, current, paths);
        break;
      }
    }
  }

  /** `generateMaze(width, height)`. The k-th carve picks neighbour
      `choices[k] % |neighbors|`, standing for `Math.floor(Math.random() * n)`;
      exactly `width * height - 1` carves happen. */
  method GenerateMaze(width: int, height: int, choices: seq<nat>) returns (grid: array<Cell>)
    requires width >= 1 && height >= 1
    requires |choices| >= width * height - 1
    ensures fresh(grid)
    ensures PerfectMaze(grid[..], width, height)
    ensures CellAt(grid[..], width, height, width - 1, height - 1).isExit
  {
    grid := NewGrid(width, height);
    ghost var g0 := grid[..];
    BacktrackingStart(g0, width, height);
    ShapedAt(g0, width, height, 0, 0);
    var start := Idx(width, 0, 0);
    grid[start] := grid[start].(visited := true);
    assert grid[..] == Visit(g0, 0);
    Backtrack(grid, width, height, choices);
    LastIdx(width, height);
    ghost var done := grid[..];
    var exit := Idx(width, width - 1, height - 1);
    grid[exit] := grid[exit].(isExit := true);
    MarkExit(done, width, height);
    assert grid[..] == done[width * height - 1 := done[width * height - 1].(isExit := true)];
    ShapedAt(grid[..], width, height, width - 1, height - 1);
  }
}
