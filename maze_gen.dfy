/**
 * Maze generation: a depth-first carve from (1, 1) that moves two cells at a
 * time, followed by W*H/5 random interior openings, and the loop that
 * regenerates a maze until the exit can be reached from the entrance.
 *
 * The carve only ever opens "rooms" (both coordinates odd, in 1..W-3 by
 * 1..H-3) and the walls between two rooms. The exit (W-2, H-2) has even
 * coordinates and sits in the column and row the carve never reaches, so
 * only the random openings can connect it.
 */
module MazeGen {
  import opened Grid
  import PathFinder

  /** The two-cell moves of the carve, in the order the source tries them. */
  const Jumps: seq<(int, int)> := [(-2, 0), (2, 0), (0, -2), (0, 2)]

  /** The number of random interior openings after the carve. */
  const ExtraOpenings: int := MazeWidth * MazeHeight / 5

  /** The k-th two-cell move from c. */
  function Jump(c: Cell, k: int): (j: Cell)
    requires 0 <= k < 4
    ensures TwoApart(c, j)
  {
    Cell(c.x + Jumps[k].0, c.y + Jumps[k].1)
  }

  /** A cell the carve stands on: both coordinates odd, strictly inside the border. */
  predicate Room(c: Cell) {
    0 < c.x < MazeWidth - 1 && 0 < c.y < MazeHeight - 1 && c.x % 2 == 1 && c.y % 2 == 1
  }

  /** A cell the carve may open: a room, or the wall between two rooms. */
  predicate Carvable(c: Cell) {
    1 <= c.x <= MazeWidth - 3 && 1 <= c.y <= MazeHeight - 3 && (c.x % 2 == 1 || c.y % 2 == 1)
  }

  /** b is two cells from a along a row or a column. */
  predicate TwoApart(a: Cell, b: Cell) {
    (a.x == b.x && (b.y == a.y - 2 || b.y == a.y + 2)) ||
    (a.y == b.y && (b.x == a.x - 2 || b.x == a.x + 2))
  }

  /** The cell between two cells that are two apart: the source's ((x + nx) // 2, (y + ny) // 2). */
  function Midpoint(a: Cell, b: Cell): (m: Cell)
    requires TwoApart(a, b)
    ensures Adjacent(a, m) && Adjacent(m, b)
  {
    Cell((a.x + b.x) / 2, (a.y + b.y) / 2)
  }

  /** Every in-bounds cell holds 0 exactly when it is in cells, and 1 otherwise. */
  ghost predicate Mirrors(maze: array2<int>, cells: set<Cell>)
    reads maze
  {
    Shaped(maze) &&
    forall y, x {:trigger maze[y, x]} :: 0 <= y < MazeHeight && 0 <= x < MazeWidth ==>
      maze[y, x] == if Cell(x, y) in cells then OpenCell else WallCell
  }

  /**
   * carved maps every opened cell to a depth and parent maps every opened
   * cell but the entrance to the adjacent cell it was opened from, which is
   * shallower, so following parents leads back to the entrance.
   */
  ghost predicate Linked(carved: map<Cell, nat>, parent: map<Cell, Cell>) {
    && carved.Keys == parent.Keys + {Entrance}
    && Entrance !in parent
    && forall c {:trigger parent[c]} :: c in parent ==>
         parent[c] in carved && Adjacent(parent[c], c) && carved[parent[c]] < carved[c]
  }

  /**
   * The carve's loop invariant, apart from the array itself: the opened cells
   * are linked and carvable, the stack holds opened rooms, and an opened room
   * that has left the stack has all its rooms two apart opened.
   */
  ghost predicate Carving(stack: seq<Cell>, carved: map<Cell, nat>, parent: map<Cell, Cell>) {
    && Linked(carved, parent)
    && (forall c {:trigger Carvable(c)} :: c in carved ==> Carvable(c))
    && (forall i :: 0 <= i < |stack| ==> Room(stack[i]) && stack[i] in carved)
    && Spanned(stack, carved.Keys)
  }

  /** Every opened room off the stack has all its rooms two apart opened. */
  ghost predicate Spanned(stack: seq<Cell>, cells: set<Cell>) {
    forall r, k :: r in cells && Room(r) && r !in stack && 0 <= k < 4 && Room(Jump(r, k)) ==> Jump(r, k) in cells
  }

  /** Opening more cells, none of them a room but the one pushed, keeps Spanned. */
  lemma SpannedGrow(stack: seq<Cell>, cells: set<Cell>, target: Cell, cells': set<Cell>)
    requires Spanned(stack, cells) && cells <= cells'
    requires forall c :: c in cells' && Room(c) ==> c in cells || c == target
    ensures Spanned(stack + [target], cells')
  {
    forall r, k | r in cells' && Room(r) && r !in stack + [target] && 0 <= k < 4 && Room(Jump(r, k))
      ensures Jump(r, k) in cells'
    {
      assert r in cells && r !in stack;
    }
  }

  /** Opening a cell next to an opened cell, one deeper, keeps the carving linked. */
  lemma LinkedExtend(carved: map<Cell, nat>, parent: map<Cell, Cell>, from: Cell, c: Cell)
    requires Linked(carved, parent) && from in carved && Adjacent(from, c) && c !in carved
    ensures Linked(carved[c := carved[from] + 1], parent[c := from])
  {
    var carved', parent' := carved[c := carved[from] + 1], parent[c := from];
    forall d | d in parent' ensures parent'[d] in carved' && Adjacent(parent'[d], d) && carved'[parent'[d]] < carved'[d] {
      if d != c {
        assert parent'[d] == parent[d] && parent[d] != c;
      }
    }
  }

  /** The wall between a room and a room two apart from it is carvable and is not a room. */
  lemma MidpointCarvable(top: Cell, target: Cell)
    requires Room(top) && Room(target) && TwoApart(top, target)
    ensures Carvable(Midpoint(top, target)) && !Room(Midpoint(top, target))
  {
    if top.x == target.x {
      assert Midpoint(top, target) == Cell(top.x, if target.y < top.y then top.y - 1 else top.y + 1);
    } else {
      assert Midpoint(top, target) == Cell(if target.x < top.x then top.x - 1 else top.x + 1, top.y);
    }
  }

  /** A room is carvable. */
  lemma RoomCarvable(c: Cell)
    requires Room(c)
    ensures Carvable(c)
  {
    assert c.x != MazeWidth - 2 && c.y != MazeHeight - 2;
  }

  /**
   * Opening the wall to an unopened room two apart from the top, and the
   * room, keeps Carving and adds exactly those two cells: carved' gives the
   * wall one more than the top's depth (unless it was open) and the room one
   * more than the wall's.
   */
  lemma CarveKeeps(stack: seq<Cell>, carved: map<Cell, nat>, parent: map<Cell, Cell>, top: Cell, target: Cell)
    returns (carved': map<Cell, nat>, parent': map<Cell, Cell>)
    requires Carving(stack, carved, parent) && stack != [] && top == stack[|stack| - 1]
    requires TwoApart(top, target) && Room(target) && target !in carved
    ensures carved'.Keys == carved.Keys + {Midpoint(top, target), target}
    ensures Carving(stack + [target], carved', parent')
    ensures AllCells() - carved'.Keys < AllCells() - carved.Keys
  {
    var mid := Midpoint(top, target);
    var withMid := if mid in carved then carved else carved[mid := carved[top] + 1];
    var parentMid := if mid in carved then parent else parent[mid := top];
    carved' := withMid[target := withMid[mid] + 1];
    parent' := parentMid[target := mid];
    assert top in carved;
    MidpointCarvable(top, target);
    if mid !in carved {
      LinkedExtend(carved, parent, top, mid);
    }
    LinkedExtend(withMid, parentMid, mid, target);
    assert carved'.Keys == carved.Keys + {mid, target};
    RoomCarvable(target);
    assert forall c {:trigger Carvable(c)} :: c in carved' ==> Carvable(c);
    SpannedGrow(stack, carved.Keys, target, carved'.Keys);
    var stack' := stack + [target];
    forall i | 0 <= i < |stack'| ensures Room(stack'[i]) && stack'[i] in carved' {
      if i < |stack| {
        assert stack'[i] == stack[i];
      }
    }
    assert target in AllCells() - carved.Keys;
  }

  /** Dropping a top whose rooms two apart are all opened keeps Carving. */
  lemma BacktrackKeeps(stack: seq<Cell>, carved: map<Cell, nat>, parent: map<Cell, Cell>, top: Cell)
    requires Carving(stack, carved, parent) && stack != [] && top == stack[|stack| - 1]
    requires forall k :: 0 <= k < 4 && Room(Jump(top, k)) ==> Jump(top, k) in carved
    ensures Carving(stack[..|stack| - 1], carved, parent)
  {
    var rest := stack[..|stack| - 1];
    assert stack == rest + [top];
    forall r, k | r in carved && Room(r) && r !in rest && 0 <= k < 4 && Room(Jump(r, k))
      ensures Jump(r, k) in carved
    {
      if r != top {
        assert r !in stack;
      }
    }
    forall i | 0 <= i < |rest| ensures Room(rest[i]) && rest[i] in carved {
      assert rest[i] == stack[i];
    }
  }

  /** When the stack is empty every room has been opened: the carve spans all rooms. */
  lemma {:induction false} AllRoomsCarved(carved: map<Cell, nat>, parent: map<Cell, Cell>, r: Cell)
    requires Carving([], carved, parent) && Room(r)
    ensures r in carved
    decreases r.x + r.y
  {
    if r.x > 1 {
      var left := Cell(r.x - 2, r.y);
      AllRoomsCarved(carved, parent, left);
      assert Jump(left, 1) == r;
    } else if r.y > 1 {
      var up := Cell(r.x, r.y - 2);
      AllRoomsCarved(carved, parent, up);
      assert Jump(up, 3) == r;
    } else {
      assert r == Entrance;
    }
  }

  /** A linked set of open cells is reachable from the entrance, cell by cell. */
  lemma {:induction false} LinkedReachable(maze: array2<int>, carved: map<Cell, nat>, parent: map<Cell, Cell>, c: Cell)
    requires Linked(carved, parent) && c in carved
    requires forall o :: o in carved ==> Passable(maze, o)
    ensures Reachable(maze, Entrance, c)
    decreases carved[c]
  {
    if c == Entrance {
      assert IsRoute(maze, [Entrance], Entrance, c);
    } else {
      var n := parent[c];
      LinkedReachable(maze, carved, parent, n);
      var p :| IsRoute(maze, p, Entrance, n);
      assert IsRoute(maze, p + [c], Entrance, c);
    }
  }

  /**
   * A maze as the generator leaves it, given the carved cells and the cells
   * opened afterwards: walls all round, only 0s and 1s, every room carved,
   * carving linked to the entrance, and a cell open exactly when it was
   * carved or opened afterwards.
   */
  ghost predicate Generated(maze: array2<int>, carved: map<Cell, nat>, parent: map<Cell, Cell>, extras: seq<Cell>)
    reads maze
  {
    && BorderWalls(maze) && Binary(maze)
    && Linked(carved, parent)
    && (forall c :: c in carved ==> Carvable(c))
    && (forall r :: Room(r) ==> r in carved)
    && (forall i :: 0 <= i < |extras| ==> Interior(extras[i]))
    && (forall c :: InBounds(c) ==> (maze[c.y, c.x] == OpenCell <==> c in carved || c in extras))
  }

  /**
   * A route to the exit ends with a move from (W-3, H-2) or (W-2, H-3): the
   * exit's two other neighbours are border walls.
   */
  lemma ExitEntry(maze: array2<int>, p: seq<Cell>)
    requires BorderWalls(maze) && IsRoute(maze, p, Entrance, Exit)
    ensures Passable(maze, Exit)
    ensures Passable(maze, Cell(MazeWidth - 3, MazeHeight - 2)) || Passable(maze, Cell(MazeWidth - 2, MazeHeight - 3))
  {
    RouteEndsOpen(maze, p, Entrance, Exit);
    var prev := p[|p| - 2];
    assert |p| >= 3;
    assert Step(maze, p[|p| - 3], prev);
    assert maze[Exit.y, 0] == WallCell && maze[Exit.y, MazeWidth - 1] == WallCell;
    assert maze[0, Exit.x] == WallCell && maze[MazeHeight - 1, Exit.x] == WallCell;
  }

  /**
   * The exit of a generated maze can be reached from the entrance exactly
   * when the exit and one of its two inner neighbours, (W-3, H-2) or
   * (W-2, H-3), were opened after the carve: none of the three is carvable.
   */
  lemma GeneratedSolvable(maze: array2<int>, carved: map<Cell, nat>, parent: map<Cell, Cell>, extras: seq<Cell>)
    requires Generated(maze, carved, parent, extras)
    ensures Reachable(maze, Entrance, Exit) <==>
              Exit in extras && (Cell(MazeWidth - 3, MazeHeight - 2) in extras || Cell(MazeWidth - 2, MazeHeight - 3) in extras)
  {
    if Reachable(maze, Entrance, Exit) {
      var p :| IsRoute(maze, p, Entrance, Exit);
      ExitEntry(maze, p);
      assert !Carvable(Exit) && !Carvable(Cell(MazeWidth - 3, MazeHeight - 2)) && !Carvable(Cell(MazeWidth - 2, MazeHeight - 3));
    }
    if Exit in extras && (Cell(MazeWidth - 3, MazeHeight - 2) in extras || Cell(MazeWidth - 2, MazeHeight - 3) in extras) {
      ExitOpened(maze, carved, parent, extras);
    }
  }

  /** With the exit and one of its inner neighbours opened, the room at (W-3, H-3) leads to the exit. */
  lemma ExitOpened(maze: array2<int>, carved: map<Cell, nat>, parent: map<Cell, Cell>, extras: seq<Cell>)
    requires Generated(maze, carved, parent, extras)
    requires Exit in extras && (Cell(MazeWidth - 3, MazeHeight - 2) in extras || Cell(MazeWidth - 2, MazeHeight - 3) in extras)
    ensures Reachable(maze, Entrance, Exit)
  {
    var left, up := Cell(MazeWidth - 3, MazeHeight - 2), Cell(MazeWidth - 2, MazeHeight - 3);
    var corner := Cell(MazeWidth - 3, MazeHeight - 3);
    assert Room(corner);
    forall o | o in carved ensures Passable(maze, o) {
      assert Carvable(o);
    }
    LinkedReachable(maze, carved, parent, corner);
    var p :| IsRoute(maze, p, Entrance, corner);
    var via := if left in extras then left else up;
    assert Passable(maze, via) && Passable(maze, Exit);
    assert IsRoute(maze, p + [via, Exit], Entrance, Exit);
  }

  /**
   * The carve of generate_maze: from (1, 1), repeatedly open the wall to an
   * arbitrary unopened room two apart from the top of the stack and push
   * that room, or pop the top when it has none.
   */
  method Carve(maze: array2<int>) returns (ghost carved: map<Cell, nat>, ghost parent: map<Cell, Cell>)
    requires Mirrors(maze, {Entrance})
    modifies maze
    ensures Mirrors(maze, carved.Keys) && Carving([], carved, parent)
  {
    var stack := [Entrance];
    carved, parent := map[Entrance := 0], map[];
    while stack != []
      invariant Mirrors(maze, carved.Keys) && Carving(stack, carved, parent)
      decreases AllCells() - carved.Keys, |stack|
    {
      stack, carved, parent := CarveStep(maze, stack, carved, parent);
    }
  }

  /**
   * One turn of the carve loop: from the top of the stack, open the wall to
   * an arbitrary unopened room two apart and that room, and push it; with no
   * such room, pop. Either the opened cells grow or the stack shrinks.
   */
  method CarveStep(maze: array2<int>, stack: seq<Cell>, ghost carved: map<Cell, nat>, ghost parent: map<Cell, Cell>)
    returns (stack': seq<Cell>, ghost carved': map<Cell, nat>, ghost parent': map<Cell, Cell>)
    requires Mirrors(maze, carved.Keys) && Carving(stack, carved, parent) && stack != []
    modifies maze
    ensures Mirrors(maze, carved'.Keys) && Carving(stack', carved', parent')
    ensures AllCells() - carved'.Keys < AllCells() - carved.Keys ||
            (carved'.Keys == carved.Keys && |stack'| < |stack|)
    ensures || (stack' == stack[..|stack| - 1] && carved' == carved)
            || (&& |stack'| == |stack| + 1 && stack'[..|stack|] == stack
                && Room(stack'[|stack|]) && stack'[|stack|] !in carved && TwoApart(stack[|stack| - 1], stack'[|stack|])
                && carved'.Keys == carved.Keys + {Midpoint(stack[|stack| - 1], stack'[|stack|]), stack'[|stack|]})
  {
    var top := stack[|stack| - 1];
    var neighbors := Unopened(maze, carved, top);
    if neighbors != [] {
      var i :| 0 <= i < |neighbors|;
      var target := neighbors[i];
      var mid := OpenWay(maze, carved.Keys, top, target);
      carved', parent' := CarveKeeps(stack, carved, parent, top, target);
      stack' := stack + [target];
      assert stack'[..|stack|] == stack;
    } else {
      BacktrackKeeps(stack, carved, parent, top);
      stack', carved', parent' := stack[..|stack| - 1], carved, parent;
    }
  }

  /** Opens the wall between top and target, then target, and returns that wall cell. */
  method OpenWay(maze: array2<int>, ghost cells: set<Cell>, top: Cell, target: Cell) returns (mid: Cell)
    requires Mirrors(maze, cells) && Room(top) && Room(target) && TwoApart(top, target)
    modifies maze
    ensures mid == Midpoint(top, target)
    ensures Mirrors(maze, cells + {mid, target})
  {
    mid := Cell((top.x + target.x) / 2, (top.y + target.y) / 2);
    OpenCellAt(maze, cells, mid);
    OpenCellAt(maze, cells + {mid}, target);
    assert cells + {mid} + {target} == cells + {mid, target};
  }

  /** Sets one in-bounds cell to 0. */
  method OpenCellAt(maze: array2<int>, ghost cells: set<Cell>, c: Cell)
    requires Mirrors(maze, cells) && InBounds(c)
    modifies maze
    ensures Mirrors(maze, cells + {c})
  {
    maze[c.y, c.x] := OpenCell;
  }

  /** The source's neighbour list: the unopened rooms two apart from top, in Jumps order. */
  method Unopened(maze: array2<int>, ghost carved: map<Cell, nat>, top: Cell) returns (neighbors: seq<Cell>)
    requires Mirrors(maze, carved.Keys) && Room(top)
    ensures forall i :: 0 <= i < |neighbors| ==> Room(neighbors[i]) && neighbors[i] !in carved && TwoApart(top, neighbors[i])
    ensures forall k :: 0 <= k < 4 && Room(Jump(top, k)) && Jump(top, k) !in carved ==> Jump(top, k) in neighbors
  {
    neighbors := [];
    for k := 0 to 4
      invariant forall i :: 0 <= i < |neighbors| ==> Room(neighbors[i]) && neighbors[i] !in carved && TwoApart(top, neighbors[i])
      invariant forall j :: 0 <= j < k && Room(Jump(top, j)) && Jump(top, j) !in carved ==> Jump(top, j) in neighbors
    {
      var next := Cell(top.x + Jumps[k].0, top.y + Jumps[k].1);
      assert next == Jump(top, k);
      if 0 < next.x < MazeWidth - 1 && 0 < next.y < MazeHeight - 1 && maze[next.y, next.x] == WallCell {
        neighbors := neighbors + [next];
      }
    }
  }

  /** The random openings of generate_maze: W*H/5 arbitrary interior cells set open. */
  method OpenExtras(maze: array2<int>, ghost carved: map<Cell, nat>) returns (ghost extras: seq<Cell>)
    requires Mirrors(maze, carved.Keys)
    modifies maze
    ensures |extras| == ExtraOpenings
    ensures forall i :: 0 <= i < |extras| ==> Interior(extras[i])
    ensures forall y, x :: 0 <= y < MazeHeight && 0 <= x < MazeWidth ==>
              maze[y, x] == if Cell(x, y) in carved || Cell(x, y) in extras then OpenCell else WallCell
  {
    extras := [];
    for n := 0 to ExtraOpenings
      invariant |extras| == n
      invariant forall i :: 0 <= i < |extras| ==> Interior(extras[i])
      invariant forall y, x :: 0 <= y < MazeHeight && 0 <= x < MazeWidth ==>
                  maze[y, x] == if Cell(x, y) in carved || Cell(x, y) in extras then OpenCell else WallCell
    {
      var x :| 1 <= x <= MazeWidth - 2;
      var y :| 1 <= y <= MazeHeight - 2;
      maze[y, x] := OpenCell;
      extras := extras + [Cell(x, y)];
    }
  }

  /**
   * generate_maze: an all-wall grid, the carve from (1, 1), then the random
   * openings. The random choices are arbitrary; carved (with each cell's
   * depth) and extras record what the carve and the random openings opened.
   */
  method GenerateMaze() returns (maze: array2<int>, ghost carved: map<Cell, nat>, ghost parent: map<Cell, Cell>,
                                 ghost extras: seq<Cell>)
    ensures fresh(maze)
    ensures Generated(maze, carved, parent, extras)
    ensures |extras| == ExtraOpenings
  {
    maze := new int[MazeHeight, MazeWidth]((_, _) => WallCell);
    maze[Entrance.y, Entrance.x] := OpenCell;
    carved, parent := Carve(maze);
    forall r | Room(r) ensures r in carved {
      AllRoomsCarved(carved, parent, r);
    }
    extras := OpenExtras(maze, carved);
    assert forall c :: c in carved ==> Carvable(c);
  }

  /**
   * ensure_maze_has_solution: keep the given maze if find_path reaches exit
   * from entrance, and otherwise generate fresh mazes until one does. The
   * fresh mazes are used as generated: their entrance and exit are not
   * opened again. The source loops without bound; here at most maxAttempts
   * mazes are generated and solved reports whether the last one is solvable.
   */
  method EnsureMazeHasSolution(maze: array2<int>, entrance: Cell, exit: Cell, maxAttempts: nat)
    returns (m: array2<int>, solved: bool)
    requires Shaped(maze)
    ensures Shaped(m)
    ensures solved <==> Reachable(m, entrance, exit)
    ensures Reachable(maze, entrance, exit) ==> m == maze
    ensures m == maze || (fresh(m) && exists carved, parent, extras :: Generated(m, carved, parent, extras))
    ensures !Reachable(maze, entrance, exit) && maxAttempts > 0 ==>
              fresh(m) && exists carved, parent, extras :: Generated(m, carved, parent, extras)
  {
    m := maze;
    var path := PathFinder.FindPath(m, entrance, exit);
    var attempts := 0;
    ghost var carved: map<Cell, nat>, parent: map<Cell, Cell>, extras: seq<Cell> := map[], map[], [];
    while path == [] && attempts < maxAttempts
      invariant Shaped(m) && (path != [] <==> Reachable(m, entrance, exit))
      invariant Reachable(maze, entrance, exit) ==> m == maze && path != []
      invariant m == maze || (fresh(m) && Generated(m, carved, parent, extras))
      invariant attempts <= maxAttempts
      invariant attempts > 0 ==> fresh(m) && Generated(m, carved, parent, extras)
      decreases maxAttempts - attempts
    {
      m, carved, parent, extras := GenerateMaze();
      path := PathFinder.FindPath(m, entrance, exit);
      attempts := attempts + 1;
    }
    solved := path != [];
  }

  /** Setting an interior cell to 0 after generation counts as one more opening after the carve. */
  method OpenLater(maze: array2<int>, ghost carved: map<Cell, nat>, ghost parent: map<Cell, Cell>, ghost extras: seq<Cell>,
                   c: Cell)
    requires Generated(maze, carved, parent, extras) && Interior(c)
    modifies maze
    ensures Generated(maze, carved, parent, extras + [c])
  {
    maze[c.y, c.x] := OpenCell;
    assert forall d :: d in extras + [c] <==> d in extras || d == c;
    BorderFromLayout(maze, carved, extras + [c]);
  }

  /** Only carvable and interior cells are open, so the border is all walls. */
  lemma BorderFromLayout(maze: array2<int>, carved: map<Cell, nat>, extras: seq<Cell>)
    requires Binary(maze)
    requires forall c {:trigger Carvable(c)} :: c in carved ==> Carvable(c)
    requires forall i :: 0 <= i < |extras| ==> Interior(extras[i])
    requires forall c :: InBounds(c) ==> (maze[c.y, c.x] == OpenCell <==> c in carved || c in extras)
    ensures BorderWalls(maze)
  {
    forall x | 0 <= x < MazeWidth ensures maze[0, x] == WallCell && maze[MazeHeight - 1, x] == WallCell {
      assert !Carvable(Cell(x, 0)) && !Interior(Cell(x, 0)) && !Carvable(Cell(x, MazeHeight - 1)) && !Interior(Cell(x, MazeHeight - 1));
      assert maze[Cell(x, 0).y, Cell(x, 0).x] != OpenCell;
      assert maze[Cell(x, MazeHeight - 1).y, Cell(x, MazeHeight - 1).x] != OpenCell;
    }
    forall y | 0 <= y < MazeHeight ensures maze[y, 0] == WallCell && maze[y, MazeWidth - 1] == WallCell {
      assert !Carvable(Cell(0, y)) && !Interior(Cell(0, y)) && !Carvable(Cell(MazeWidth - 1, y)) && !Interior(Cell(MazeWidth - 1, y));
      assert maze[Cell(0, y).y, Cell(0, y).x] != OpenCell;
      assert maze[Cell(MazeWidth - 1, y).y, Cell(MazeWidth - 1, y).x] != OpenCell;
    }
  }

  /**
   * The maze set-up at the start of main: generate, open the entrance and
   * the exit, then ensure a solution. The first maze is solvable exactly when
   * the carve-independent cell beside the exit, (W-3, H-2) or (W-2, H-3), was
   * among its random openings. first is the first generated grid, after
   * its entrance and exit were opened, and firstExtras its random openings;
   * a solvable first grid is the one kept.
   */
  method PrepareMaze(maxAttempts: nat)
    returns (maze: array2<int>, solved: bool, ghost first: array2<int>, ghost firstExtras: seq<Cell>, ghost firstSolvable: bool)
    ensures fresh(maze) && BorderWalls(maze) && Binary(maze) && Passable(maze, Entrance)
    ensures solved <==> Reachable(maze, Entrance, Exit)
    ensures fresh(first) && |firstExtras| == ExtraOpenings
    ensures exists carved, parent :: Generated(first, carved, parent, firstExtras + [Entrance, Exit])
    ensures firstSolvable <==> Reachable(first, Entrance, Exit)
    ensures firstSolvable <==> Cell(MazeWidth - 3, MazeHeight - 2) in firstExtras || Cell(MazeWidth - 2, MazeHeight - 3) in firstExtras
    ensures firstSolvable ==> maze == first && solved
  {
    var generated: array2<int>;
    ghost var carved, parent;
    generated, carved, parent, firstExtras := GenerateMaze();
    OpenLater(generated, carved, parent, firstExtras, Entrance);
    OpenLater(generated, carved, parent, firstExtras + [Entrance], Exit);
    assert firstExtras + [Entrance] + [Exit] == firstExtras + [Entrance, Exit];
    GeneratedSolvable(generated, carved, parent, firstExtras + [Entrance, Exit]);
    first := generated;
    firstSolvable := Cell(MazeWidth - 3, MazeHeight - 2) in firstExtras || Cell(MazeWidth - 2, MazeHeight - 3) in firstExtras;
    assert Entrance in carved;
    maze, solved := EnsureMazeHasSolution(generated, Entrance, Exit, maxAttempts);
    if maze != generated {
      ghost var c, p, e :| Generated(maze, c, p, e);
      assert Entrance in c;
    }
    assert Generated(first, carved, parent, firstExtras + [Entrance, Exit]);
  }
}
