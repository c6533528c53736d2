/**
 * The shortest-path finder behind the "Show Path" hint: a breadth-first search
 * from the entrance with a FIFO queue, a visited set and a parent map, whose
 * path is rebuilt from the exit back to the entrance and then reversed.
 */
module PathFinder {
  import opened Grid

  /**
   * The search tree built so far: every visited cell but the entrance was
   * reached by a Step from its parent, one move further than the parent. The
   * distances are ghost: the source keeps none.
   */
  ghost predicate Tree(maze: array2<int>, entrance: Cell, visited: set<Cell>,
                       parent: map<Cell, Option<Cell>>, dist: map<Cell, nat>)
    reads maze
  {
    && entrance in visited && parent.Keys == visited && dist.Keys == visited
    && parent[entrance] == None && dist[entrance] == 0
    && forall v {:trigger parent[v]} :: v in visited && v != entrance ==>
         && parent[v].Some? && parent[v].value in visited
         && Step(maze, parent[v].value, v)
         && dist[v] == dist[parent[v].value] + 1
  }

  /** The queue holds visited cells in order of distance, spanning at most two layers. */
  ghost predicate Layered(visited: set<Cell>, dist: map<Cell, nat>, queue: seq<Cell>)
    requires dist.Keys == visited
  {
    && (forall i :: 0 <= i < |queue| ==> queue[i] in visited)
    && (forall i, j :: 0 <= i <= j < |queue| ==> dist[queue[i]] <= dist[queue[j]])
    && (queue != [] ==> forall v :: v in visited ==> dist[v] <= dist[queue[0]] + 1)
  }

  /** Every visited cell that has left the queue has had all its neighbours visited. */
  ghost predicate Expanded(maze: array2<int>, visited: set<Cell>, dist: map<Cell, nat>, queue: seq<Cell>)
    requires dist.Keys == visited
    reads maze
  {
    forall u, w :: u in visited && u !in queue && Step(maze, u, w) ==>
      w in visited && dist[w] <= dist[u] + 1
  }

  /**
   * Breadth-first layers: every cell of a route from the entrance up to
   * position bound has been visited, at a distance no larger than its position,
   * provided every visited cell nearer than bound has been expanded.
   */
  lemma {:induction false} Layers(maze: array2<int>, entrance: Cell, visited: set<Cell>,
                                  dist: map<Cell, nat>, bound: int, p: seq<Cell>, t: Cell, i: nat)
    requires dist.Keys == visited && entrance in visited && dist[entrance] == 0
    requires IsRoute(maze, p, entrance, t)
    requires forall u, w :: u in visited && dist[u] < bound && Step(maze, u, w) ==>
               w in visited && dist[w] <= dist[u] + 1
    requires i < |p| && i <= bound
    ensures p[i] in visited && dist[p[i]] <= i
  {
    if i > 0 {
      Layers(maze, entrance, visited, dist, bound, p, t, i - 1);
      assert Step(maze, p[i - 1], p[i]);
    }
  }

  /** The exit at the head of the queue: no route to it is shorter than its layer. */
  lemma ShortestFound(maze: array2<int>, entrance: Cell, exit: Cell, visited: set<Cell>,
                      parent: map<Cell, Option<Cell>>, dist: map<Cell, nat>, queue: seq<Cell>)
    requires Tree(maze, entrance, visited, parent, dist)
    requires Layered(visited, dist, queue) && Expanded(maze, visited, dist, queue)
    requires queue != [] && queue[0] == exit
    ensures forall p :: IsRoute(maze, p, entrance, exit) ==> dist[exit] + 1 <= |p|
  {
    forall p | IsRoute(maze, p, entrance, exit) ensures dist[exit] + 1 <= |p| {
      ShortestAtFront(maze, entrance, visited, dist, queue, p, exit);
    }
  }

  /** find_path: the cells of a shortest route from entrance to exit, or [] when there is none. */
  method FindPath(maze: array2<int>, entrance: Cell, exit: Cell) returns (path: seq<Cell>)
    requires Shaped(maze)
    ensures path != [] ==> IsRoute(maze, path, entrance, exit)
    ensures path == [] <==> !Reachable(maze, entrance, exit)
    ensures forall p :: IsRoute(maze, p, entrance, exit) ==> |path| <= |p|
  {
    var queue := [entrance];
    var visited := {entrance};
    var parent := map[entrance := None];
    ghost var dist: map<Cell, nat> := map[entrance := 0];
    while queue != []
      invariant Tree(maze, entrance, visited, parent, dist)
      invariant Layered(visited, dist, queue)
      invariant Expanded(maze, visited, dist, queue)
      invariant exit in visited ==> exit in queue
      decreases AllCells() - visited, |queue|
    {
      ghost var front := queue;
      var current := queue[0];
      queue := queue[1..];
      if current == exit {
        path := Rebuild(maze, entrance, exit, visited, parent, dist);
        ShortestFound(maze, entrance, exit, visited, parent, dist, front);
        return;
      }
      ghost var visited0 := visited;
      Dequeued(maze, entrance, exit, front, visited, parent, dist);
      queue, visited, parent, dist := Expand(maze, entrance, exit, current, queue, visited, parent, dist);
      assert AllCells() - visited < AllCells() - visited0 || visited == visited0;
    }
    path := [];
    Unreached(maze, entrance, exit, visited, parent, dist);
  }

  /** A queue run dry before the exit was visited: no route leads there. */
  lemma Unreached(maze: array2<int>, entrance: Cell, exit: Cell, visited: set<Cell>,
                  parent: map<Cell, Option<Cell>>, dist: map<Cell, nat>)
    requires Tree(maze, entrance, visited, parent, dist)
    requires Expanded(maze, visited, dist, []) && exit !in visited
    ensures !Reachable(maze, entrance, exit)
  {
    if Reachable(maze, entrance, exit) {
      var p :| IsRoute(maze, p, entrance, exit);
      Layers(maze, entrance, visited, dist, |p|, p, exit, |p| - 1);
    }
  }

  /**
   * What holds while the neighbours of current (at distance level) are being
   * queued: the tree, a queue sorted by distance starting no lower than level,
   * every visited cell at most one layer beyond level, and every cell that has
   * left the queue, other than current, expanded.
   */
  ghost predicate Expanding(maze: array2<int>, entrance: Cell, exit: Cell, current: Cell, level: nat,
                            queue: seq<Cell>, visited: set<Cell>, parent: map<Cell, Option<Cell>>,
                            dist: map<Cell, nat>)
    reads maze
  {
    && Tree(maze, entrance, visited, parent, dist)
    && current in visited && dist[current] == level
    && (forall i :: 0 <= i < |queue| ==> queue[i] in visited && level <= dist[queue[i]])
    && (forall i, j :: 0 <= i <= j < |queue| ==> dist[queue[i]] <= dist[queue[j]])
    && (forall v :: v in visited ==> dist[v] <= level + 1)
    && (forall u, w :: u in visited && u !in queue && u != current && Step(maze, u, w) ==>
          w in visited && dist[w] <= dist[u] + 1)
    && (exit in visited ==> exit in queue)
  }

  /** Taking the head off the queue, when it is not the exit, leaves it to be expanded. */
  lemma Dequeued(maze: array2<int>, entrance: Cell, exit: Cell, queue: seq<Cell>, visited: set<Cell>,
                 parent: map<Cell, Option<Cell>>, dist: map<Cell, nat>)
    requires Tree(maze, entrance, visited, parent, dist)
    requires Layered(visited, dist, queue) && Expanded(maze, visited, dist, queue)
    requires exit in visited ==> exit in queue
    requires queue != [] && queue[0] != exit
    ensures Expanding(maze, entrance, exit, queue[0], dist[queue[0]], queue[1..], visited, parent, dist)
  {
    var rest := queue[1..];
    assert forall i :: 0 <= i < |rest| ==> rest[i] == queue[i + 1];
  }

  /** Queueing one fresh neighbour of current keeps Expanding. */
  lemma Visit(maze: array2<int>, entrance: Cell, exit: Cell, current: Cell, level: nat,
              queue: seq<Cell>, visited: set<Cell>, parent: map<Cell, Option<Cell>>,
              dist: map<Cell, nat>, neighbor: Cell)
    requires Expanding(maze, entrance, exit, current, level, queue, visited, parent, dist)
    requires Step(maze, current, neighbor) && neighbor !in visited
    ensures Expanding(maze, entrance, exit, current, level, queue + [neighbor], visited + {neighbor},
                      parent[neighbor := Some(current)], dist[neighbor := level + 1])
  {
    var queue', visited' := queue + [neighbor], visited + {neighbor};
    var parent', dist' := parent[neighbor := Some(current)], dist[neighbor := level + 1];
    forall v | v in visited' && v != entrance
      ensures parent'[v].Some? && parent'[v].value in visited'
      ensures Step(maze, parent'[v].value, v) && dist'[v] == dist'[parent'[v].value] + 1
    {
      if v != neighbor {
        assert parent'[v] == parent[v] && dist'[v] == dist[v];
        assert dist'[parent[v].value] == dist[parent[v].value];
      }
    }
    forall i, j | 0 <= i <= j < |queue'| ensures dist'[queue'[i]] <= dist'[queue'[j]] {
      if j < |queue| {
        assert queue'[i] == queue[i] && queue'[j] == queue[j];
      }
    }
  }

  /** Once all four neighbours of current are visited, current counts as expanded. */
  lemma Finish(maze: array2<int>, entrance: Cell, exit: Cell, current: Cell, level: nat,
               queue: seq<Cell>, visited: set<Cell>, parent: map<Cell, Option<Cell>>,
               dist: map<Cell, nat>)
    requires Expanding(maze, entrance, exit, current, level, queue, visited, parent, dist)
    requires forall j :: 0 <= j < 4 && Step(maze, current, Neighbor(current, j)) ==>
               Neighbor(current, j) in visited && dist[Neighbor(current, j)] <= level + 1
    ensures Tree(maze, entrance, visited, parent, dist)
    ensures Layered(visited, dist, queue) && Expanded(maze, visited, dist, queue)
    ensures exit in visited ==> exit in queue
  {
    forall w | Step(maze, current, w) ensures w in visited && dist[w] <= level + 1 {
      assert w == Neighbor(current, DirIndex(current, w));
    }
  }

  /**
   * What the direction loop has done so far: queue' is queue followed by the
   * newly visited cells, each an open neighbour of current with current as parent.
   */
  ghost predicate Grown(maze: array2<int>, current: Cell, queue: seq<Cell>, visited: set<Cell>, parent: map<Cell, Option<Cell>>,
                        queue': seq<Cell>, visited': set<Cell>, parent': map<Cell, Option<Cell>>)
    reads maze
  {
    && visited <= visited' && visited' <= parent'.Keys
    && |queue| <= |queue'| && queue'[..|queue|] == queue
    && (forall i :: |queue| <= i < |queue'| ==> queue'[i] in visited' - visited)
    && multiset(queue'[|queue|..]) == multiset(visited' - visited)
    && (forall w :: w in visited && w in parent ==> parent'[w] == parent[w])
    && (forall w :: w in visited' - visited ==> Step(maze, current, w) && parent'[w] == Some(current))
  }

  /** Appending a cell not yet in a set to a sequence listing that set once per element keeps the listing. */
  lemma QueuedOnce(queued: seq<Cell>, cells: set<Cell>, n: Cell)
    requires multiset(queued) == multiset(cells) && n !in cells
    ensures multiset(queued + [n]) == multiset(cells + {n})
  {
    assert multiset(cells + {n}) == multiset(cells) + multiset{n};
  }

  /** Queueing one more open, unvisited neighbour keeps Grown. */
  lemma GrowOne(maze: array2<int>, current: Cell, queue: seq<Cell>, visited: set<Cell>, parent: map<Cell, Option<Cell>>,
                queue': seq<Cell>, visited': set<Cell>, parent': map<Cell, Option<Cell>>, n: Cell)
    requires Grown(maze, current, queue, visited, parent, queue', visited', parent')
    requires Step(maze, current, n) && n !in visited'
    ensures Grown(maze, current, queue, visited, parent, queue' + [n], visited' + {n}, parent'[n := Some(current)])
  {
    var fresh', parent'' := (visited' + {n}) - visited, parent'[n := Some(current)];
    assert (queue' + [n])[..|queue|] == queue'[..|queue|];
    assert (queue' + [n])[|queue|..] == queue'[|queue|..] + [n];
    assert fresh' == (visited' - visited) + {n};
    QueuedOnce(queue'[|queue|..], visited' - visited, n);
    assert forall w :: w in visited && w in parent ==> parent''[w] == parent[w];
    assert forall w :: w in fresh' ==> Step(maze, current, w) && parent''[w] == Some(current);
  }

  /** Once every open neighbour of current is visited, Grown gives Expand's account of the new cells. */
  lemma GrownAll(maze: array2<int>, current: Cell, queue: seq<Cell>, visited: set<Cell>, parent: map<Cell, Option<Cell>>,
                 queue': seq<Cell>, visited': set<Cell>, parent': map<Cell, Option<Cell>>)
    requires Grown(maze, current, queue, visited, parent, queue', visited', parent')
    requires forall j :: 0 <= j < 4 && Step(maze, current, Neighbor(current, j)) ==> Neighbor(current, j) in visited'
    ensures visited' - visited <= AllCells()
    ensures visited' == visited ==> |queue'| == |queue|
    ensures forall w :: w in visited' - visited <==> Step(maze, current, w) && w !in visited
  {
    forall w | Step(maze, current, w) && w !in visited ensures w in visited' {
      assert w == Neighbor(current, DirIndex(current, w));
    }
    if visited' == visited && |queue'| > |queue| {
      assert queue'[|queue|] in visited' - visited;
    }
  }

  /** The direction loop's invariant after k directions: Expanding, those k neighbours visited, and Grown. */
  ghost predicate Scanned(maze: array2<int>, entrance: Cell, exit: Cell, current: Cell, level: nat, k: int,
                          queue0: seq<Cell>, visited0: set<Cell>, parent0: map<Cell, Option<Cell>>,
                          queue: seq<Cell>, visited: set<Cell>, parent: map<Cell, Option<Cell>>, dist: map<Cell, nat>)
    reads maze
  {
    && 0 <= k <= 4
    && Expanding(maze, entrance, exit, current, level, queue, visited, parent, dist)
    && dist.Keys == visited
    && (forall j :: 0 <= j < k && Step(maze, current, Neighbor(current, j)) ==>
          Neighbor(current, j) in visited && dist[Neighbor(current, j)] <= level + 1)
    && Grown(maze, current, queue0, visited0, parent0, queue, visited, parent)
  }

  /**
   * One pass of the source's direction loop: the k-th neighbour of current,
   * when in bounds, open and not yet visited, is queued, marked visited and
   * given current as its parent; otherwise nothing changes.
   */
  method VisitNeighbor(maze: array2<int>, entrance: Cell, exit: Cell, current: Cell, ghost level: nat, k: int,
                       ghost queue0: seq<Cell>, ghost visited0: set<Cell>, ghost parent0: map<Cell, Option<Cell>>,
                       queue: seq<Cell>, visited: set<Cell>, parent: map<Cell, Option<Cell>>, ghost dist: map<Cell, nat>)
    returns (queue': seq<Cell>, visited': set<Cell>, parent': map<Cell, Option<Cell>>, ghost dist': map<Cell, nat>)
    requires Shaped(maze) && 0 <= k < 4
    requires Scanned(maze, entrance, exit, current, level, k, queue0, visited0, parent0, queue, visited, parent, dist)
    ensures Scanned(maze, entrance, exit, current, level, k + 1, queue0, visited0, parent0, queue', visited', parent', dist')
    ensures Step(maze, current, Neighbor(current, k)) && Neighbor(current, k) !in visited ==>
              && queue' == queue + [Neighbor(current, k)] && visited' == visited + {Neighbor(current, k)}
              && parent' == parent[Neighbor(current, k) := Some(current)]
    ensures !(Step(maze, current, Neighbor(current, k)) && Neighbor(current, k) !in visited) ==>
              queue' == queue && visited' == visited && parent' == parent
  {
    queue', visited', parent', dist' := queue, visited, parent, dist;
    var neighbor := Cell(current.x + Directions[k].0, current.y + Directions[k].1);
    assert neighbor == Neighbor(current, k);
    if 0 <= neighbor.x < MazeWidth && 0 <= neighbor.y < MazeHeight
       && maze[neighbor.y, neighbor.x] == OpenCell && neighbor !in visited
    {
      Visit(maze, entrance, exit, current, level, queue, visited, parent, dist, neighbor);
      GrowOne(maze, current, queue0, visited0, parent0, queue, visited, parent, neighbor);
      assert dist[neighbor := level + 1][neighbor] == level + 1;
      queue' := queue + [neighbor];
      visited' := visited + {neighbor};
      parent' := parent[neighbor := Some(current)];
      dist' := dist[neighbor := level + 1];
    }
  }

  /**
   * The source's loop over the four directions: every in-bounds open neighbour
   * of current not yet visited is queued, marked visited and given current as
   * its parent.
   */
  method Expand(maze: array2<int>, entrance: Cell, exit: Cell, current: Cell, queue: seq<Cell>,
                visited: set<Cell>, parent: map<Cell, Option<Cell>>, ghost dist: map<Cell, nat>)
    returns (queue': seq<Cell>, visited': set<Cell>, parent': map<Cell, Option<Cell>>, ghost dist': map<Cell, nat>)
    requires Shaped(maze) && current != exit && current in dist
    requires Expanding(maze, entrance, exit, current, dist[current], queue, visited, parent, dist)
    ensures Tree(maze, entrance, visited', parent', dist')
    ensures Layered(visited', dist', queue') && Expanded(maze, visited', dist', queue')
    ensures exit in visited' ==> exit in queue'
    ensures visited <= visited' && visited' - visited <= AllCells()
    ensures visited' == visited ==> |queue'| == |queue|
    ensures |queue| <= |queue'| && queue'[..|queue|] == queue
    ensures forall i :: |queue| <= i < |queue'| ==> queue'[i] in visited' - visited
    ensures forall w :: w in visited' - visited <==> Step(maze, current, w) && w !in visited
    ensures forall w :: w in visited' - visited ==> parent'[w] == Some(current)
    ensures multiset(queue'[|queue|..]) == multiset(visited' - visited)
    ensures forall w :: w in visited ==> parent'[w] == parent[w]
  {
    queue', visited', parent', dist' := queue, visited, parent, dist;
    ghost var level := dist[current];
    for k := 0 to 4
      invariant Scanned(maze, entrance, exit, current, level, k, queue, visited, parent, queue', visited', parent', dist')
    {
      queue', visited', parent', dist' :=
        VisitNeighbor(maze, entrance, exit, current, level, k, queue, visited, parent, queue', visited', parent', dist');
    }
    Finish(maze, entrance, exit, current, level, queue', visited', parent', dist');
    GrownAll(maze, current, queue, visited, parent, queue', visited', parent');
  }

  /** No route to the cell at the head of the queue is shorter than its distance. */
  lemma ShortestAtFront(maze: array2<int>, entrance: Cell, visited: set<Cell>, dist: map<Cell, nat>,
                        queue: seq<Cell>, p: seq<Cell>, t: Cell)
    requires dist.Keys == visited && entrance in visited && dist[entrance] == 0
    requires Layered(visited, dist, queue) && Expanded(maze, visited, dist, queue)
    requires queue != [] && queue[0] == t
    requires IsRoute(maze, p, entrance, t)
    ensures dist[t] + 1 <= |p|
  {
    var bound := dist[t];
    assert forall u, w :: u in visited && dist[u] < bound && Step(maze, u, w) ==>
      w in visited && dist[w] <= dist[u] + 1;
    if |p| - 1 < bound {
      Layers(maze, entrance, visited, dist, bound, p, t, |p| - 1);
    }
  }

  /**
   * The source's rebuild loop: walk the parent map from the exit back to the
   * entrance, then reverse. The result is a route exactly dist[exit] moves long.
   */
  method Rebuild(maze: array2<int>, entrance: Cell, exit: Cell, visited: set<Cell>,
                 parent: map<Cell, Option<Cell>>, ghost dist: map<Cell, nat>) returns (path: seq<Cell>)
    requires Tree(maze, entrance, visited, parent, dist) && exit in visited
    ensures IsRoute(maze, path, entrance, exit)
    ensures |path| == dist[exit] + 1
  {
    var current := Some(exit);
    var trail := [];
    while current.Some?
      invariant current.Some? ==> current.value in visited
      invariant |trail| + (if current.Some? then dist[current.value] + 1 else 0) == dist[exit] + 1
      invariant trail == [] ==> current == Some(exit)
      invariant trail != [] ==> trail[0] == exit
      invariant trail != [] && current.Some? ==> Step(maze, current.value, trail[|trail| - 1])
      invariant current.None? ==> trail != [] && trail[|trail| - 1] == entrance
      invariant forall i :: 0 < i < |trail| ==> Step(maze, trail[i], trail[i - 1])
      decreases if current.Some? then dist[current.value] + 1 else 0
    {
      trail := trail + [current.value];
      current := parent[current.value];
    }
    path := Reverse(trail);
    ReverseSteps(maze, trail);
  }
}
