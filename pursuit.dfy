/**
 * The pursuit search the monster runs towards the player: A* with the
 * Manhattan distance as heuristic, a binary-heap frontier of (f, cell) pairs,
 * a best-known g map and a came-from map. There is no closed set: a cell is
 * pushed again whenever its g strictly drops, and stale entries are expanded
 * again when popped.
 */
module Pursuit {
  import opened Grid

  function Abs(n: int): (r: nat)
    ensures r == n || r == -n
  {
    if n < 0 then -n else n
  }

  /** heuristic: the Manhattan distance between a and b, zero exactly on equal cells and one exactly on adjacent ones. */
  function Heuristic(a: Cell, b: Cell): (h: nat)
    ensures h == 0 <==> a == b
    ensures h == 1 <==> Adjacent(a, b)
  {
    Abs(a.x - b.x) + Abs(a.y - b.y)
  }

  /** The heuristic is a distance: symmetric, and it changes by at most one per move. */
  lemma HeuristicIsDistance(a: Cell, b: Cell, c: Cell)
    ensures Heuristic(a, b) == Heuristic(b, a)
    ensures Adjacent(a, c) ==> Heuristic(c, b) <= Heuristic(a, b) + 1 && Heuristic(a, b) <= Heuristic(c, b) + 1
  {
  }

  /** The heuristic never overestimates: every route from s to t makes at least Heuristic(s, t) moves. */
  lemma {:induction false} HeuristicAdmissible(maze: array2<int>, p: seq<Cell>, s: Cell, t: Cell)
    requires IsRoute(maze, p, s, t)
    ensures Heuristic(s, t) <= |p| - 1
  {
    if |p| > 1 {
      var q := p[..|p| - 1];
      var u := q[|q| - 1];
      assert IsRoute(maze, q, s, u) by {
        forall i | 0 < i < |q| ensures Step(maze, q[i - 1], q[i]) {
          assert q[i - 1] == p[i - 1] && q[i] == p[i];
        }
      }
      HeuristicAdmissible(maze, q, s, u);
      assert Step(maze, p[|p| - 2], p[|p| - 1]);
    }
  }

  /** A frontier entry: the priority f and the cell, ordered as Python orders the tuple (f, (x, y)). */
  datatype Entry = Entry(f: int, cell: Cell)

  predicate EntryLe(a: Entry, b: Entry) {
    a.f < b.f ||
    (a.f == b.f && (a.cell.x < b.cell.x || (a.cell.x == b.cell.x && a.cell.y <= b.cell.y)))
  }

  /**
   * heappop: removes and returns a least entry. The heap's internal layout is
   * not modelled; the frontier is the multiset of its entries.
   */
  method PopMin(heap: seq<Entry>) returns (e: Entry, rest: seq<Entry>)
    requires heap != []
    ensures e in heap && forall d :: d in heap ==> EntryLe(e, d)
    ensures multiset(rest) + multiset{e} == multiset(heap) && |rest| == |heap| - 1
    ensures forall d :: d in rest ==> d in heap
    ensures forall d :: d in heap && d != e ==> d in rest
  {
    var m := 0;
    for i := 1 to |heap|
      invariant 0 <= m < |heap|
      invariant forall j :: 0 <= j < i ==> EntryLe(heap[m], heap[j])
    {
      if !EntryLe(heap[m], heap[i]) {
        m := i;
      }
    }
    e := heap[m];
    rest := heap[..m] + heap[m + 1..];
    assert heap == heap[..m] + [e] + heap[m + 1..];
  }

  /** The cells that have at least one entry in the frontier. */
  ghost function Pending(heap: seq<Entry>): set<Cell> {
    set d | d in heap :: d.cell
  }

  /**
   * The came-from links: start is scored 0 and has no predecessor, every other
   * scored cell has one, reached by a Step, with a strictly smaller score.
   */
  ghost predicate Links(maze: array2<int>, start: Cell, cameFrom: map<Cell, Cell>, gScore: map<Cell, nat>)
    reads maze
  {
    && start in gScore && gScore[start] == 0 && start !in cameFrom
    && cameFrom.Keys <= gScore.Keys
    && (forall n :: n in gScore && n != start ==> n in cameFrom)
    && (forall n {:trigger cameFrom[n]} :: n in cameFrom ==>
          cameFrom[n] in gScore && Step(maze, cameFrom[n], n) && gScore[cameFrom[n]] < gScore[n])
  }

  /**
   * The search invariant: the links, every frontier entry names a scored cell,
   * every scored cell without a frontier entry has all its neighbours scored,
   * and a scored goal still has a frontier entry (popping it ends the search).
   */
  ghost predicate Search(maze: array2<int>, start: Cell, goal: Cell, heap: seq<Entry>,
                         cameFrom: map<Cell, Cell>, gScore: map<Cell, nat>)
    reads maze
  {
    && Links(maze, start, cameFrom, gScore)
    && (forall d :: d in heap ==> d.cell in gScore)
    && (forall k, w :: k in gScore && k !in Pending(heap) && Step(maze, k, w) ==> w in gScore)
    && (goal in gScore ==> goal in Pending(heap))
  }

  /** g of an in-bounds cell, 0 while it has none. */
  ghost function Pot(gScore: map<Cell, nat>, c: Cell): nat {
    if c in gScore then gScore[c] else 0
  }

  ghost function RowPotential(gScore: map<Cell, nat>, y: int, count: nat): nat {
    if count == 0 then 0 else RowPotential(gScore, y, count - 1) + Pot(gScore, Cell(count - 1, y))
  }

  ghost function GridPotential(gScore: map<Cell, nat>, rows: nat): nat {
    if rows == 0 then 0 else GridPotential(gScore, rows - 1) + RowPotential(gScore, rows - 1, MazeWidth)
  }

  /** The sum of g over the scored in-bounds cells. */
  ghost function Potential(gScore: map<Cell, nat>): nat {
    GridPotential(gScore, MazeHeight)
  }

  lemma {:induction false} RowPotentialDrop(gScore: map<Cell, nat>, n: Cell, v: nat, y: int, count: nat)
    requires n in gScore && v <= gScore[n]
    ensures RowPotential(gScore[n := v], y, count) + (if n.y == y && 0 <= n.x < count then gScore[n] - v else 0)
            == RowPotential(gScore, y, count)
  {
    if count > 0 {
      RowPotentialDrop(gScore, n, v, y, count - 1);
    }
  }

  lemma {:induction false} GridPotentialDrop(gScore: map<Cell, nat>, n: Cell, v: nat, rows: nat)
    requires n in gScore && v <= gScore[n] && InBounds(n)
    ensures GridPotential(gScore[n := v], rows) + (if n.y < rows then gScore[n] - v else 0)
            == GridPotential(gScore, rows)
  {
    if rows > 0 {
      GridPotentialDrop(gScore, n, v, rows - 1);
      RowPotentialDrop(gScore, n, v, rows - 1, MazeWidth);
    }
  }

  /** Lowering the g of one in-bounds cell lowers the potential by exactly the drop. */
  lemma PotentialDrop(gScore: map<Cell, nat>, n: Cell, v: nat)
    requires n in gScore && v <= gScore[n] && InBounds(n)
    ensures Potential(gScore[n := v]) + gScore[n] - v == Potential(gScore)
  {
    GridPotentialDrop(gScore, n, v, MazeHeight);
  }

  /**
   * What holds while the neighbours of current are being relaxed: the links,
   * frontier entries name scored cells, every scored cell other than current
   * without a frontier entry has its neighbours scored, and a scored goal is
   * still pending.
   */
  ghost predicate Relaxing(maze: array2<int>, start: Cell, goal: Cell, current: Cell, heap: seq<Entry>,
                           cameFrom: map<Cell, Cell>, gScore: map<Cell, nat>)
    reads maze
  {
    && Links(maze, start, cameFrom, gScore) && current in gScore
    && (forall d :: d in heap ==> d.cell in gScore)
    && (forall k, w :: k in gScore && k !in Pending(heap) && k != current && Step(maze, k, w) ==> w in gScore)
    && (goal in gScore ==> goal in Pending(heap))
  }

  /**
   * Giving an open neighbour of current the score g(current) + 1, when that is
   * lower than its score or it has none, and pushing it keeps Relaxing.
   */
  lemma Improve(maze: array2<int>, start: Cell, goal: Cell, current: Cell, heap: seq<Entry>,
                cameFrom: map<Cell, Cell>, gScore: map<Cell, nat>, neighbor: Cell, f: int)
    requires Relaxing(maze, start, goal, current, heap, cameFrom, gScore)
    requires Improves(maze, current, neighbor, gScore)
    ensures Relaxing(maze, start, goal, current, heap + [Entry(f, neighbor)],
                     cameFrom[neighbor := current], gScore[neighbor := gScore[current] + 1])
  {
    LinksExtend(maze, start, current, cameFrom, gScore, neighbor);
    var heap' := heap + [Entry(f, neighbor)];
    assert Entry(f, neighbor) in heap';
    assert Pending(heap') == Pending(heap) + {neighbor};
  }

  /**
   * An improving update does not make the termination measure grow: it scores
   * a new in-bounds cell, or lowers a g by at least one while the frontier
   * grows by one entry.
   */
  lemma ImproveMeasure(maze: array2<int>, current: Cell, neighbor: Cell, gScore: map<Cell, nat>, heap: seq<Entry>, f: int)
    requires Improves(maze, current, neighbor, gScore)
    ensures NoWorse(gScore, heap, gScore[neighbor := gScore[current] + 1], heap + [Entry(f, neighbor)])
  {
    if neighbor in gScore {
      PotentialDrop(gScore, neighbor, gScore[current] + 1);
    }
  }

  /** Linking an open neighbour of a scored cell to it, one move further, keeps Links. */
  lemma LinksExtend(maze: array2<int>, start: Cell, current: Cell, cameFrom: map<Cell, Cell>, gScore: map<Cell, nat>,
                    neighbor: Cell)
    requires Links(maze, start, cameFrom, gScore) && current in gScore
    requires Step(maze, current, neighbor)
    requires neighbor !in gScore || gScore[current] + 1 < gScore[neighbor]
    ensures Links(maze, start, cameFrom[neighbor := current], gScore[neighbor := gScore[current] + 1])
  {
    var cameFrom', gScore' := cameFrom[neighbor := current], gScore[neighbor := gScore[current] + 1];
    forall n | n in cameFrom'
      ensures cameFrom'[n] in gScore' && Step(maze, cameFrom'[n], n) && gScore'[cameFrom'[n]] < gScore'[n]
    {
      if n != neighbor {
        assert cameFrom'[n] == cameFrom[n];
      }
    }
  }

  /**
   * The search measure does not grow from (g0, h0) to (g, h): the scored
   * cells only gain in-bounds cells, and when they gain none, twice the
   * potential plus the frontier length does not grow.
   */
  ghost predicate NoWorse(g0: map<Cell, nat>, h0: seq<Entry>, g: map<Cell, nat>, h: seq<Entry>) {
    && g0.Keys <= g.Keys && g.Keys - g0.Keys <= AllCells()
    && (g.Keys == g0.Keys ==> 2 * Potential(g) + |h| <= 2 * Potential(g0) + |h0|)
  }

  lemma NoWorseTransitive(g0: map<Cell, nat>, h0: seq<Entry>, g1: map<Cell, nat>, h1: seq<Entry>,
                          g2: map<Cell, nat>, h2: seq<Entry>)
    requires NoWorse(g0, h0, g1, h1) && NoWorse(g1, h1, g2, h2)
    ensures NoWorse(g0, h0, g2, h2)
  {
  }

  /** Moving from current to n is open and would strictly lower n's g, or give it one. */
  ghost predicate Improves(maze: array2<int>, current: Cell, n: Cell, gScore: map<Cell, nat>)
    reads maze
  {
    current in gScore && Step(maze, current, n) && (n !in gScore || gScore[current] + 1 < gScore[n])
  }

  /**
   * One pass of the source's direction loop: if the k-th neighbour of current
   * is in bounds and open and its g would strictly drop (or it has none), it
   * gets current as predecessor, the new g and f, and a new frontier entry.
   */
  method RelaxNeighbor(maze: array2<int>, start: Cell, goal: Cell, current: Cell, k: int, heap: seq<Entry>,
                       cameFrom: map<Cell, Cell>, gScore: map<Cell, nat>, fScore: map<Cell, int>)
    returns (heap': seq<Entry>, cameFrom': map<Cell, Cell>, gScore': map<Cell, nat>, fScore': map<Cell, int>)
    requires Shaped(maze) && 0 <= k < 4 && current in gScore
    ensures Improves(maze, current, Neighbor(current, k), gScore) ==>
              && cameFrom' == cameFrom[Neighbor(current, k) := current]
              && gScore' == gScore[Neighbor(current, k) := gScore[current] + 1]
              && fScore' == fScore[Neighbor(current, k) := gScore[current] + 1 + Heuristic(Neighbor(current, k), goal)]
              && heap' == heap + [Entry(gScore[current] + 1 + Heuristic(Neighbor(current, k), goal), Neighbor(current, k))]
    ensures !Improves(maze, current, Neighbor(current, k), gScore) ==>
              heap' == heap && cameFrom' == cameFrom && gScore' == gScore && fScore' == fScore
  {
    heap', cameFrom', gScore', fScore' := heap, cameFrom, gScore, fScore;
    var neighbor := Cell(current.x + Directions[k].0, current.y + Directions[k].1);
    assert neighbor == Neighbor(current, k);
    if 0 <= neighbor.x < MazeWidth && 0 <= neighbor.y < MazeHeight && maze[neighbor.y, neighbor.x] == OpenCell {
      var tentative := gScore[current] + 1;
      if neighbor !in gScore || tentative < gScore[neighbor] {
        var f := tentative + Heuristic(neighbor, goal);
        cameFrom' := cameFrom[neighbor := current];
        gScore' := gScore[neighbor := tentative];
        fScore' := fScore[neighbor := f];
        heap' := heap + [Entry(fScore'[neighbor], neighbor)];
      }
    }
  }

  /** What one RelaxNeighbor pass keeps: Relaxing, the k-th open neighbour scored, and a measure that does not grow. */
  lemma Relaxed(maze: array2<int>, start: Cell, goal: Cell, current: Cell, k: int,
                heap: seq<Entry>, cameFrom: map<Cell, Cell>, gScore: map<Cell, nat>,
                heap': seq<Entry>, cameFrom': map<Cell, Cell>, gScore': map<Cell, nat>)
    requires 0 <= k < 4 && Relaxing(maze, start, goal, current, heap, cameFrom, gScore)
    requires Improves(maze, current, Neighbor(current, k), gScore) ==>
               && cameFrom' == cameFrom[Neighbor(current, k) := current]
               && gScore' == gScore[Neighbor(current, k) := gScore[current] + 1]
               && heap' == heap + [Entry(gScore[current] + 1 + Heuristic(Neighbor(current, k), goal), Neighbor(current, k))]
    requires !Improves(maze, current, Neighbor(current, k), gScore) ==>
               heap' == heap && cameFrom' == cameFrom && gScore' == gScore
    ensures Relaxing(maze, start, goal, current, heap', cameFrom', gScore')
    ensures Step(maze, current, Neighbor(current, k)) ==> Neighbor(current, k) in gScore'
    ensures NoWorse(gScore, heap, gScore', heap')
  {
    var n := Neighbor(current, k);
    if Improves(maze, current, n, gScore) {
      Improve(maze, start, goal, current, heap, cameFrom, gScore, n, gScore[current] + 1 + Heuristic(n, goal));
      ImproveMeasure(maze, current, n, gScore, heap, gScore[current] + 1 + Heuristic(n, goal));
    }
  }

  /** The direction loop's invariant after k directions: Relaxing, those k neighbours scored, no growth since the start. */
  ghost predicate Relaxation(maze: array2<int>, start: Cell, goal: Cell, current: Cell, k: int,
                             heap0: seq<Entry>, gScore0: map<Cell, nat>,
                             heap: seq<Entry>, cameFrom: map<Cell, Cell>, gScore: map<Cell, nat>)
    reads maze
  {
    && 0 <= k <= 4
    && Relaxing(maze, start, goal, current, heap, cameFrom, gScore)
    && (forall j :: 0 <= j < k && Step(maze, current, Neighbor(current, j)) ==> Neighbor(current, j) in gScore)
    && NoWorse(gScore0, heap0, gScore, heap)
  }

  /** One RelaxNeighbor pass takes the loop invariant from k directions to k + 1. */
  lemma ScanOn(maze: array2<int>, start: Cell, goal: Cell, current: Cell, k: int,
               heap0: seq<Entry>, gScore0: map<Cell, nat>,
               heap: seq<Entry>, cameFrom: map<Cell, Cell>, gScore: map<Cell, nat>,
               heap': seq<Entry>, cameFrom': map<Cell, Cell>, gScore': map<Cell, nat>)
    requires k < 4 && Relaxation(maze, start, goal, current, k, heap0, gScore0, heap, cameFrom, gScore)
    requires Improves(maze, current, Neighbor(current, k), gScore) ==>
               && cameFrom' == cameFrom[Neighbor(current, k) := current]
               && gScore' == gScore[Neighbor(current, k) := gScore[current] + 1]
               && heap' == heap + [Entry(gScore[current] + 1 + Heuristic(Neighbor(current, k), goal), Neighbor(current, k))]
    requires !Improves(maze, current, Neighbor(current, k), gScore) ==>
               heap' == heap && cameFrom' == cameFrom && gScore' == gScore
    ensures Relaxation(maze, start, goal, current, k + 1, heap0, gScore0, heap', cameFrom', gScore')
  {
    Relaxed(maze, start, goal, current, k, heap, cameFrom, gScore, heap', cameFrom', gScore');
    NoWorseTransitive(gScore0, heap0, gScore, heap, gScore', heap');
  }

  /**
   * The g and came_from update made by the first k directions, against the
   * state before them: each neighbour in those directions that Improves gets
   * g(current) + 1 and current as predecessor; every other entry is as it was.
   */
  ghost predicate ScoresUpdated(maze: array2<int>, current: Cell, k: int,
                                cameFrom0: map<Cell, Cell>, gScore0: map<Cell, nat>,
                                cameFrom: map<Cell, Cell>, gScore: map<Cell, nat>)
    reads maze
  {
    && current in gScore0 && current in gScore && gScore[current] == gScore0[current]
    && (forall w :: Improves(maze, current, w, gScore0) && DirIndex(current, w) < k ==>
          w in gScore && gScore[w] == gScore0[current] + 1 && w in cameFrom && cameFrom[w] == current)
    && (forall w :: !(Improves(maze, current, w, gScore0) && DirIndex(current, w) < k) ==>
          && (w in gScore <==> w in gScore0) && (w in gScore0 ==> gScore[w] == gScore0[w])
          && (w in cameFrom <==> w in cameFrom0) && (w in cameFrom0 ==> cameFrom[w] == cameFrom0[w]))
  }

  /**
   * The frontier entries pushed by the first k directions, in direction
   * order: one for each neighbour that Improves on gScore0, with
   * f = g(current) + 1 + heuristic.
   */
  ghost function Pushed(maze: array2<int>, goal: Cell, current: Cell, k: int, gScore0: map<Cell, nat>): seq<Entry>
    requires 0 <= k <= 4
    reads maze
  {
    if k == 0 then []
    else
      var n := Neighbor(current, k - 1);
      Pushed(maze, goal, current, k - 1, gScore0)
        + (if Improves(maze, current, n, gScore0) then [Entry(gScore0[current] + 1 + Heuristic(n, goal), n)] else [])
  }

  /** Pushed holds an entry for every improving neighbour in the first k directions, and no other entry. */
  lemma {:induction false} PushedEntries(maze: array2<int>, goal: Cell, current: Cell, k: int, gScore0: map<Cell, nat>)
    requires 0 <= k <= 4
    ensures forall w :: Improves(maze, current, w, gScore0) && DirIndex(current, w) < k ==>
              Entry(gScore0[current] + 1 + Heuristic(w, goal), w) in Pushed(maze, goal, current, k, gScore0)
    ensures forall e :: e in Pushed(maze, goal, current, k, gScore0) ==>
              && Improves(maze, current, e.cell, gScore0) && DirIndex(current, e.cell) < k
              && e.f == gScore0[current] + 1 + Heuristic(e.cell, goal)
  {
    if k > 0 {
      PushedEntries(maze, goal, current, k - 1, gScore0);
      var n := Neighbor(current, k - 1);
      forall w | Improves(maze, current, w, gScore0) && DirIndex(current, w) == k - 1
        ensures w == n
      {
      }
    }
  }

  /** The frontier after the first k directions: the old frontier followed by Pushed. */
  ghost predicate PushesUpdated(maze: array2<int>, goal: Cell, current: Cell, k: int,
                                gScore0: map<Cell, nat>, heap0: seq<Entry>, heap: seq<Entry>)
    reads maze
  {
    0 <= k <= 4 && heap == heap0 + Pushed(maze, goal, current, k, gScore0)
  }

  /** The neighbour in direction k has not been touched by the first k directions, so it Improves now as it did before them. */
  lemma NotYetScored(maze: array2<int>, current: Cell, k: int,
                     cameFrom0: map<Cell, Cell>, gScore0: map<Cell, nat>,
                     cameFrom: map<Cell, Cell>, gScore: map<Cell, nat>)
    requires 0 <= k < 4 && ScoresUpdated(maze, current, k, cameFrom0, gScore0, cameFrom, gScore)
    ensures Improves(maze, current, Neighbor(current, k), gScore) <==> Improves(maze, current, Neighbor(current, k), gScore0)
  {
  }

  /** A direction whose neighbour does not improve changes nothing, and both halves move to k + 1. */
  lemma UpdateSame(maze: array2<int>, goal: Cell, current: Cell, k: int,
                   heap0: seq<Entry>, cameFrom0: map<Cell, Cell>, gScore0: map<Cell, nat>,
                   heap: seq<Entry>, cameFrom: map<Cell, Cell>, gScore: map<Cell, nat>)
    requires 0 <= k < 4
    requires ScoresUpdated(maze, current, k, cameFrom0, gScore0, cameFrom, gScore)
    requires PushesUpdated(maze, goal, current, k, gScore0, heap0, heap)
    requires !Improves(maze, current, Neighbor(current, k), gScore0)
    ensures ScoresUpdated(maze, current, k + 1, cameFrom0, gScore0, cameFrom, gScore)
    ensures PushesUpdated(maze, goal, current, k + 1, gScore0, heap0, heap)
  {
    var n := Neighbor(current, k);
    forall w | Improves(maze, current, w, gScore0) && DirIndex(current, w) == k
      ensures w == n
    {
    }
    assert Pushed(maze, goal, current, k + 1, gScore0) == Pushed(maze, goal, current, k, gScore0) + [];
  }

  /** An improving neighbour n in direction k gets its new g and link, and ScoresUpdated moves to k + 1. */
  lemma ScoresNew(maze: array2<int>, current: Cell, k: int,
                  cameFrom0: map<Cell, Cell>, gScore0: map<Cell, nat>,
                  cameFrom: map<Cell, Cell>, gScore: map<Cell, nat>)
    requires 0 <= k < 4 && ScoresUpdated(maze, current, k, cameFrom0, gScore0, cameFrom, gScore)
    requires Improves(maze, current, Neighbor(current, k), gScore0)
    ensures var n := Neighbor(current, k);
            ScoresUpdated(maze, current, k + 1, cameFrom0, gScore0, cameFrom[n := current], gScore[n := gScore[current] + 1])
  {
    var n := Neighbor(current, k);
    var cameFrom', gScore' := cameFrom[n := current], gScore[n := gScore[current] + 1];
    assert n != current;
    forall w | Improves(maze, current, w, gScore0) && DirIndex(current, w) < k + 1
      ensures w in gScore' && gScore'[w] == gScore0[current] + 1 && w in cameFrom' && cameFrom'[w] == current
    {
      if DirIndex(current, w) == k {
        assert w == n;
      }
    }
    forall w | !(Improves(maze, current, w, gScore0) && DirIndex(current, w) < k + 1)
      ensures && (w in gScore' <==> w in gScore0) && (w in gScore0 ==> gScore'[w] == gScore0[w])
              && (w in cameFrom' <==> w in cameFrom0) && (w in cameFrom0 ==> cameFrom'[w] == cameFrom0[w])
    {
      assert w != n;
    }
  }

  /** An improving neighbour n in direction k gets its frontier entry, and PushesUpdated moves to k + 1. */
  lemma PushesNew(maze: array2<int>, goal: Cell, current: Cell, k: int,
                  gScore0: map<Cell, nat>, heap0: seq<Entry>, heap: seq<Entry>)
    requires 0 <= k < 4 && PushesUpdated(maze, goal, current, k, gScore0, heap0, heap)
    requires Improves(maze, current, Neighbor(current, k), gScore0)
    ensures var n := Neighbor(current, k);
            PushesUpdated(maze, goal, current, k + 1, gScore0, heap0, heap + [Entry(gScore0[current] + 1 + Heuristic(n, goal), n)])
  {
    var n := Neighbor(current, k);
    var e := Entry(gScore0[current] + 1 + Heuristic(n, goal), n);
    assert Pushed(maze, goal, current, k + 1, gScore0) == Pushed(maze, goal, current, k, gScore0) + [e];
    assert heap0 + Pushed(maze, goal, current, k, gScore0) + [e] == heap0 + (Pushed(maze, goal, current, k, gScore0) + [e]);
  }

  /** RelaxNeighbor's update for direction k moves both halves of the account from k directions to k + 1. */
  lemma UpdateOn(maze: array2<int>, goal: Cell, current: Cell, k: int,
                 heap0: seq<Entry>, cameFrom0: map<Cell, Cell>, gScore0: map<Cell, nat>,
                 heap: seq<Entry>, cameFrom: map<Cell, Cell>, gScore: map<Cell, nat>,
                 heap': seq<Entry>, cameFrom': map<Cell, Cell>, gScore': map<Cell, nat>)
    requires 0 <= k < 4
    requires ScoresUpdated(maze, current, k, cameFrom0, gScore0, cameFrom, gScore)
    requires PushesUpdated(maze, goal, current, k, gScore0, heap0, heap)
    requires Improves(maze, current, Neighbor(current, k), gScore) ==>
               && cameFrom' == cameFrom[Neighbor(current, k) := current]
               && gScore' == gScore[Neighbor(current, k) := gScore[current] + 1]
               && heap' == heap + [Entry(gScore[current] + 1 + Heuristic(Neighbor(current, k), goal), Neighbor(current, k))]
    requires !Improves(maze, current, Neighbor(current, k), gScore) ==>
               heap' == heap && cameFrom' == cameFrom && gScore' == gScore
    ensures ScoresUpdated(maze, current, k + 1, cameFrom0, gScore0, cameFrom', gScore')
    ensures PushesUpdated(maze, goal, current, k + 1, gScore0, heap0, heap')
  {
    NotYetScored(maze, current, k, cameFrom0, gScore0, cameFrom, gScore);
    if Improves(maze, current, Neighbor(current, k), gScore) {
      ScoresNew(maze, current, k, cameFrom0, gScore0, cameFrom, gScore);
      PushesNew(maze, goal, current, k, gScore0, heap0, heap);
    } else {
      UpdateSame(maze, goal, current, k, heap0, cameFrom0, gScore0, heap, cameFrom, gScore);
    }
  }

  /**
   * The whole update of relaxing current's neighbours (the loop over the
   * four directions): every neighbour that Improves gets g(current) + 1 and
   * current as its came_from entry, and every other g and came_from entry is
   * unchanged; the frontier is the old one followed by Pushed, one entry per
   * improving neighbour in direction order (PushedEntries).
   */
  ghost predicate RelaxUpdate(maze: array2<int>, goal: Cell, current: Cell,
                              heap: seq<Entry>, cameFrom: map<Cell, Cell>, gScore: map<Cell, nat>,
                              heap': seq<Entry>, cameFrom': map<Cell, Cell>, gScore': map<Cell, nat>)
    reads maze
  {
    && current in gScore
    && (forall w {:trigger Improves(maze, current, w, gScore)} :: Improves(maze, current, w, gScore) ==>
          w in gScore' && gScore'[w] == gScore[current] + 1 && w in cameFrom' && cameFrom'[w] == current)
    && (forall w {:trigger Improves(maze, current, w, gScore)} :: !Improves(maze, current, w, gScore) ==>
          && (w in gScore' <==> w in gScore) && (w in gScore ==> gScore'[w] == gScore[w])
          && (w in cameFrom' <==> w in cameFrom) && (w in cameFrom ==> cameFrom'[w] == cameFrom[w]))
    && heap' == heap + Pushed(maze, goal, current, 4, gScore)
  }

  /** After all four directions the two halves cover every neighbour: together they are RelaxUpdate. */
  lemma UpdateDone(maze: array2<int>, goal: Cell, current: Cell,
                   heap: seq<Entry>, cameFrom: map<Cell, Cell>, gScore: map<Cell, nat>,
                   heap': seq<Entry>, cameFrom': map<Cell, Cell>, gScore': map<Cell, nat>)
    requires ScoresUpdated(maze, current, 4, cameFrom, gScore, cameFrom', gScore')
    requires PushesUpdated(maze, goal, current, 4, gScore, heap, heap')
    ensures RelaxUpdate(maze, goal, current, heap, cameFrom, gScore, heap', cameFrom', gScore')
  {
  }

  /**
   * The source's loop over the four directions of current, relaxing each
   * neighbour in turn; afterwards current's neighbours are all scored.
   */
  method Relax(maze: array2<int>, start: Cell, goal: Cell, current: Cell, heap: seq<Entry>,
               cameFrom: map<Cell, Cell>, gScore: map<Cell, nat>, fScore: map<Cell, int>)
    returns (heap': seq<Entry>, cameFrom': map<Cell, Cell>, gScore': map<Cell, nat>, fScore': map<Cell, int>)
    requires Shaped(maze) && current != goal
    requires Relaxing(maze, start, goal, current, heap, cameFrom, gScore)
    ensures Search(maze, start, goal, heap', cameFrom', gScore')
    ensures AllCells() - gScore'.Keys <= AllCells() - gScore.Keys
    ensures AllCells() - gScore'.Keys == AllCells() - gScore.Keys ==>
              2 * Potential(gScore') + |heap'| <= 2 * Potential(gScore) + |heap|
    ensures RelaxUpdate(maze, goal, current, heap, cameFrom, gScore, heap', cameFrom', gScore')
  {
    heap', cameFrom', gScore', fScore' := heap, cameFrom, gScore, fScore;
    for k := 0 to 4
      invariant Relaxation(maze, start, goal, current, k, heap, gScore, heap', cameFrom', gScore')
      invariant ScoresUpdated(maze, current, k, cameFrom, gScore, cameFrom', gScore')
      invariant PushesUpdated(maze, goal, current, k, gScore, heap, heap')
    {
      var heap0, cameFrom0, gScore0 := heap', cameFrom', gScore';
      heap', cameFrom', gScore', fScore' := RelaxNeighbor(maze, start, goal, current, k, heap', cameFrom', gScore', fScore');
      ScanOn(maze, start, goal, current, k, heap, gScore, heap0, cameFrom0, gScore0, heap', cameFrom', gScore');
      UpdateOn(maze, goal, current, k, heap, cameFrom, gScore, heap0, cameFrom0, gScore0, heap', cameFrom', gScore');
    }
    UpdateDone(maze, goal, current, heap, cameFrom, gScore, heap', cameFrom', gScore');
    RelaxDone(maze, start, goal, current, heap', cameFrom', gScore');
  }

  /** Once every open neighbour of current is scored, the Search invariant is back. */
  lemma RelaxDone(maze: array2<int>, start: Cell, goal: Cell, current: Cell, heap: seq<Entry>,
                  cameFrom: map<Cell, Cell>, gScore: map<Cell, nat>)
    requires Relaxing(maze, start, goal, current, heap, cameFrom, gScore)
    requires forall j :: 0 <= j < 4 && Step(maze, current, Neighbor(current, j)) ==> Neighbor(current, j) in gScore
    ensures Search(maze, start, goal, heap, cameFrom, gScore)
  {
    forall c, w | c in gScore && c !in Pending(heap) && Step(maze, c, w) ensures w in gScore {
      if c == current {
        assert w == Neighbor(current, DirIndex(current, w));
      }
    }
  }

  /**
   * The rebuild loop's invariant: trail holds the cells from goal back to just
   * after current, each linked, and each a Step back from the one before.
   */
  ghost predicate Tracing(maze: array2<int>, goal: Cell, cameFrom: map<Cell, Cell>, gScore: map<Cell, nat>,
                          current: Cell, trail: seq<Cell>)
    reads maze
  {
    && current in gScore
    && (trail == [] ==> current == goal)
    && (trail != [] ==> trail[0] == goal && Step(maze, current, trail[|trail| - 1]))
    && (forall i :: 0 <= i < |trail| ==> trail[i] in cameFrom)
    && (forall i :: 0 < i < |trail| ==> Step(maze, trail[i], trail[i - 1]))
  }

  /** Following one more link keeps Tracing. */
  lemma TraceStep(maze: array2<int>, start: Cell, goal: Cell, cameFrom: map<Cell, Cell>, gScore: map<Cell, nat>,
                  current: Cell, trail: seq<Cell>)
    requires Links(maze, start, cameFrom, gScore) && current in cameFrom
    requires Tracing(maze, goal, cameFrom, gScore, current, trail)
    ensures Tracing(maze, goal, cameFrom, gScore, cameFrom[current], trail + [current])
    ensures gScore[cameFrom[current]] < gScore[current]
  {
    var t := trail + [current];
    forall i | 0 < i < |t| ensures Step(maze, t[i], t[i - 1]) {
      if i < |trail| {
        assert t[i] == trail[i] && t[i - 1] == trail[i - 1];
      }
    }
  }

  /** Once the walk stops at start, the reversed trail is what Trace promises. */
  lemma TraceDone(maze: array2<int>, start: Cell, goal: Cell, cameFrom: map<Cell, Cell>, gScore: map<Cell, nat>,
                  current: Cell, trail: seq<Cell>)
    requires Links(maze, start, cameFrom, gScore) && current !in cameFrom
    requires Tracing(maze, goal, cameFrom, gScore, current, trail)
    ensures Reverse(trail) == [] <==> goal == start
    ensures Reverse(trail) != [] ==>
              Reverse(trail)[|trail| - 1] == goal && start !in Reverse(trail) && Step(maze, start, Reverse(trail)[0])
    ensures forall i :: 0 < i < |trail| ==> Step(maze, Reverse(trail)[i - 1], Reverse(trail)[i])
  {
    assert current == start;
    ReverseSteps(maze, trail);
    var path := Reverse(trail);
    assert forall i :: 0 <= i < |path| ==> path[i] in cameFrom;
  }

  /**
   * The source's rebuild loop: follow came-from links from the goal until a
   * cell without one (start), then reverse. start itself is never appended.
   */
  method Trace(maze: array2<int>, start: Cell, goal: Cell, cameFrom: map<Cell, Cell>, gScore: map<Cell, nat>)
    returns (path: seq<Cell>)
    requires Links(maze, start, cameFrom, gScore) && goal in gScore
    ensures path == [] <==> goal == start
    ensures path != [] ==> path[|path| - 1] == goal && start !in path && Step(maze, start, path[0])
    ensures forall i :: 0 < i < |path| ==> Step(maze, path[i - 1], path[i])
  {
    var current := goal;
    var trail := [];
    while current in cameFrom
      invariant Tracing(maze, goal, cameFrom, gScore, current, trail)
      decreases gScore[current]
    {
      TraceStep(maze, start, goal, cameFrom, gScore, current, trail);
      trail := trail + [current];
      current := cameFrom[current];
    }
    TraceDone(maze, start, goal, cameFrom, gScore, current, trail);
    path := Reverse(trail);
  }

  /** Taking the least entry off a Search frontier leaves its cell to be relaxed. */
  lemma AfterPop(maze: array2<int>, start: Cell, goal: Cell, heap: seq<Entry>, entry: Entry, rest: seq<Entry>,
                 cameFrom: map<Cell, Cell>, gScore: map<Cell, nat>)
    requires Search(maze, start, goal, heap, cameFrom, gScore)
    requires entry in heap && entry.cell != goal
    requires multiset(rest) + multiset{entry} == multiset(heap)
    ensures Relaxing(maze, start, goal, entry.cell, rest, cameFrom, gScore)
  {
    forall d | d in rest ensures d in heap {
      assert d in multiset(rest);
      assert d in multiset(heap);
    }
    forall c | c in Pending(heap) ensures c in Pending(rest) + {entry.cell} {
      var d :| d in heap && d.cell == c;
      if d != entry {
        assert d in multiset(heap);
        assert d in multiset(rest);
      }
    }
  }

  /** The start cell put in front of a traced path makes a route from start to goal. */
  lemma Prefixed(maze: array2<int>, start: Cell, goal: Cell, path: seq<Cell>)
    requires path != [] && path[|path| - 1] == goal && Step(maze, start, path[0])
    requires forall i :: 0 < i < |path| ==> Step(maze, path[i - 1], path[i])
    ensures IsRoute(maze, [start] + path, start, goal)
  {
    var p := [start] + path;
    forall i | 0 < i < |p| ensures Step(maze, p[i - 1], p[i]) {
      if i > 1 {
        assert p[i - 1] == path[i - 2] && p[i] == path[i - 1];
      }
    }
  }

  /** An emptied frontier without the goal scored: the goal is out of reach. */
  lemma Exhausted(maze: array2<int>, start: Cell, goal: Cell, cameFrom: map<Cell, Cell>, gScore: map<Cell, nat>)
    requires Search(maze, start, goal, [], cameFrom, gScore)
    ensures !Reachable(maze, start, goal)
  {
    if Reachable(maze, start, goal) {
      var p :| IsRoute(maze, p, start, goal);
      RouteStaysInside(maze, p, start, goal, gScore.Keys);
    }
  }

  /**
   * a_star: a path from start towards goal that leaves start out and ends at
   * goal, each move a Step; [] exactly when start is goal or goal cannot be
   * reached.
   */
  method AStar(maze: array2<int>, start: Cell, goal: Cell) returns (path: seq<Cell>)
    requires Shaped(maze)
    ensures path != [] ==> path[|path| - 1] == goal && start !in path && Step(maze, start, path[0])
    ensures forall i :: 0 < i < |path| ==> Step(maze, path[i - 1], path[i])
    ensures path == [] <==> start == goal || !Reachable(maze, start, goal)
  {
    var heap := [Entry(0, start)];
    var cameFrom: map<Cell, Cell> := map[];
    var gScore: map<Cell, nat> := map[start := 0];
    var fScore: map<Cell, int> := map[start := Heuristic(start, goal)];
    assert Pending(heap) == {start};
    while heap != []
      invariant Search(maze, start, goal, heap, cameFrom, gScore)
      decreases AllCells() - gScore.Keys, 2 * Potential(gScore) + |heap|
    {
      var entry, rest := PopMin(heap);
      var current := entry.cell;
      if current == goal {
        path := Trace(maze, start, goal, cameFrom, gScore);
        if path != [] {
          Prefixed(maze, start, goal, path);
        }
        return;
      }
      AfterPop(maze, start, goal, heap, entry, rest, cameFrom, gScore);
      heap, cameFrom, gScore, fScore := Relax(maze, start, goal, current, rest, cameFrom, gScore, fScore);
    }
    path := [];
    Exhausted(maze, start, goal, cameFrom, gScore);
  }
}
