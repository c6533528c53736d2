/**
 * The grid shared by the maze generator, both searches and the game session:
 * a MazeHeight x MazeWidth array of cells, 1 for a wall and 0 for an open cell,
 * indexed maze[y, x] while coordinates are written (x, y).
 */
module Grid {

  const MazeWidth: int := 40
  const MazeHeight: int := 40
  const WallCell: int := 1
  const OpenCell: int := 0

  /** A cell coordinate (column x, row y). */
  datatype Cell = Cell(x: int, y: int)

  /** The game's fixed entrance and exit: (1, 1) and (W-2, H-2). */
  const Entrance: Cell := Cell(1, 1)
  const Exit: Cell := Cell(MazeWidth - 2, MazeHeight - 2)

  datatype Option<T> = None | Some(value: T)

  /** The four unit moves, in the order both searches try them: left, right, up, down. */
  const Directions: seq<(int, int)> := [(-1, 0), (1, 0), (0, -1), (0, 1)]

  function Neighbor(c: Cell, k: int): (n: Cell)
    requires 0 <= k < 4
    ensures Adjacent(c, n) && DirIndex(c, n) == k
  {
    Cell(c.x + Directions[k].0, c.y + Directions[k].1)
  }

  predicate InBounds(c: Cell) {
    0 <= c.x < MazeWidth && 0 <= c.y < MazeHeight
  }

  /** The cells off the border, 1..W-2 by 1..H-2: the range the random draws come from. */
  predicate Interior(c: Cell) {
    1 <= c.x <= MazeWidth - 2 && 1 <= c.y <= MazeHeight - 2
  }

  predicate Shaped(maze: array2<int>) {
    maze.Length0 == MazeHeight && maze.Length1 == MazeWidth
  }

  /** In bounds and open: the test both searches apply to a neighbour. */
  predicate Passable(maze: array2<int>, c: Cell)
    reads maze
  {
    InBounds(c) && Shaped(maze) && maze[c.y, c.x] == OpenCell
  }

  predicate Adjacent(a: Cell, b: Cell) {
    (a.x == b.x && (a.y == b.y + 1 || a.y + 1 == b.y)) ||
    (a.y == b.y && (a.x == b.x + 1 || a.x + 1 == b.x))
  }

  /** The index into Directions of the move from a to the adjacent cell b. */
  function DirIndex(a: Cell, b: Cell): (k: int)
    requires Adjacent(a, b)
    ensures 0 <= k < 4 && b == Cell(a.x + Directions[k].0, a.y + Directions[k].1)
  {
    if b.x == a.x - 1 then 0
    else if b.x == a.x + 1 then 1
    else if b.y == a.y - 1 then 2
    else 3
  }

  /** One move of a search: to a 4-adjacent cell that is in bounds and open. */
  predicate Step(maze: array2<int>, a: Cell, b: Cell)
    reads maze
  {
    Adjacent(a, b) && Passable(maze, b)
  }

  /**
   * p is a route from s to t: it starts at s, ends at t and every move is a Step.
   * The first cell itself is not checked, as neither search checks its start.
   */
  ghost predicate IsRoute(maze: array2<int>, p: seq<Cell>, s: Cell, t: Cell)
    reads maze
  {
    |p| >= 1 && p[0] == s && p[|p| - 1] == t &&
    forall i :: 0 < i < |p| ==> Step(maze, p[i - 1], p[i])
  }

  ghost predicate Reachable(maze: array2<int>, s: Cell, t: Cell)
    reads maze
  {
    exists p :: IsRoute(maze, p, s, t)
  }

  /** Row 0, row H-1, column 0 and column W-1 are all walls. */
  predicate BorderWalls(maze: array2<int>)
    reads maze
  {
    Shaped(maze) &&
    (forall x :: 0 <= x < MazeWidth ==> maze[0, x] == WallCell && maze[MazeHeight - 1, x] == WallCell) &&
    (forall y :: 0 <= y < MazeHeight ==> maze[y, 0] == WallCell && maze[y, MazeWidth - 1] == WallCell)
  }

  /** Every cell holds 0 or 1. */
  predicate Binary(maze: array2<int>)
    reads maze
  {
    Shaped(maze) &&
    forall y, x :: 0 <= y < MazeHeight && 0 <= x < MazeWidth ==> maze[y, x] == WallCell || maze[y, x] == OpenCell
  }

  /**
   * With walls all round the border, an open cell is an interior cell, so its
   * four neighbours are in bounds: this is why the player's moves may index
   * maze[y - 1, x] and the like without a bounds check.
   */
  lemma OpenCellIsInterior(maze: array2<int>, c: Cell)
    requires BorderWalls(maze) && Passable(maze, c)
    ensures Interior(c)
    ensures forall k :: 0 <= k < 4 ==> InBounds(Neighbor(c, k))
  {
    assert maze[c.y, 0] == WallCell && maze[c.y, MazeWidth - 1] == WallCell;
    assert maze[0, c.x] == WallCell && maze[MazeHeight - 1, c.x] == WallCell;
  }

  /** Every cell of a route lies in any set that holds its start and is closed under Step. */
  lemma {:induction false} RouteStaysInside(maze: array2<int>, p: seq<Cell>, s: Cell, t: Cell, inside: set<Cell>)
    requires IsRoute(maze, p, s, t)
    requires s in inside
    requires forall u, w :: u in inside && Step(maze, u, w) ==> w in inside
    ensures t in inside
  {
    if |p| > 1 {
      var q := p[..|p| - 1];
      assert IsRoute(maze, q, s, q[|q| - 1]) by {
        forall i | 0 < i < |q| ensures Step(maze, q[i - 1], q[i]) {
          assert q[i - 1] == p[i - 1] && q[i] == p[i];
        }
      }
      RouteStaysInside(maze, q, s, q[|q| - 1], inside);
      assert Step(maze, p[|p| - 2], p[|p| - 1]);
    }
  }

  /** The in-bounds cells, as a set: the measure of both searches shrinks within it. */
  ghost function AllCells(): (cells: set<Cell>)
    ensures forall c :: c in cells <==> InBounds(c)
  {
    var cells := set x, y | 0 <= x < MazeWidth && 0 <= y < MazeHeight :: Cell(x, y);
    assert forall c :: InBounds(c) ==> c == Cell(c.x, c.y) && c in cells;
    cells
  }

  /** s backwards; both searches rebuild their path from the goal end and reverse it. */
  function Reverse<T>(s: seq<T>): (r: seq<T>)
    ensures |r| == |s|
    ensures forall i :: 0 <= i < |s| ==> r[i] == s[|s| - 1 - i]
  {
    if s == [] then [] else Reverse(s[1..]) + [s[0]]
  }

  /** A route to a cell other than its start ends on an open cell. */
  lemma RouteEndsOpen(maze: array2<int>, p: seq<Cell>, s: Cell, t: Cell)
    requires IsRoute(maze, p, s, t) && s != t
    ensures |p| >= 2 && Passable(maze, t) && Adjacent(p[|p| - 2], t)
  {
    assert Step(maze, p[|p| - 2], p[|p| - 1]);
  }

  /**
   * A trail walked backwards along Steps, once reversed, moves forwards along
   * Steps: the last step of both path rebuilds.
   */
  lemma ReverseSteps(maze: array2<int>, trail: seq<Cell>)
    requires forall i :: 0 < i < |trail| ==> Step(maze, trail[i], trail[i - 1])
    ensures forall i :: 0 < i < |Reverse(trail)| ==> Step(maze, Reverse(trail)[i - 1], Reverse(trail)[i])
  {
    var path := Reverse(trail);
    forall i | 0 < i < |path| ensures Step(maze, path[i - 1], path[i]) {
      assert path[i - 1] == trail[|trail| - i] && path[i] == trail[|trail| - 1 - i];
    }
  }

  /** One more Step past a reachable cell reaches the next one. */
  lemma ReachableStep(maze: array2<int>, s: Cell, a: Cell, b: Cell)
    requires Reachable(maze, s, a) && Step(maze, a, b)
    ensures Reachable(maze, s, b)
  {
    var p :| IsRoute(maze, p, s, a);
    assert IsRoute(maze, p + [b], s, b);
  }
}
