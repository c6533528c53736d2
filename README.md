# Maze game core in Dafny

A model of the game logic in `main.py` of a small pygame maze game:

- the 40 x 40 grid of walls (1) and open cells (0), indexed `maze[y][x]`;
- the depth-first maze carve with its random extra openings (`generate_maze`);
- the regenerate-until-solvable loop (`ensure_maze_has_solution`);
- the breadth-first "Show Path" hint (`find_path`);
- the A* search the monster uses to chase the player (`heuristic`, `a_star`);
- the monster's move and respawn (`move_monster`, `respawn_monster`);
- one pass of `main`'s game loop: key presses, the win check, the monster's
  move, the move counter and logs, and the collision and lives rules.

Files, one module each:

- `grid.dfy` (`Grid`): cells, the grid shape, open cells, Steps and routes.
- `maze_gen.dfy` (`MazeGen`): generation, the solvability loop and the
  set-up at the start of `main`.
- `path_finder.dfy` (`PathFinder`): breadth-first search.
- `pursuit.dfy` (`Pursuit`): the heuristic and A*.
- `session.dfy` (`Session`): the player's keys, the respawn and the `Game`
  class that holds the state of `main`.

The grid is an `array2<int>` that the carve changes in place. Both searches
are methods with loops over a queue or frontier and maps, as in the source.
`main`'s local state (player, monster, lives, counter, logs) becomes the
fields of `Session.Game`, and one pass of its loop is `Game.Tick`.

The searches' shared vocabulary:

- a *Step* is a move to a 4-adjacent cell that is in bounds and open;
- a *route* from `s` to `t` is a sequence that starts at `s`, ends at `t`
  and moves by Steps;
- `Reachable` means that some route exists.

Random choices (`random.choice`, `random.randint`) are arbitrary choices
within the source's ranges (`:|`). `respawn_monster`'s draws come in as a
sequence.

Two behaviours of the code are worth knowing. The model follows the code in
both.

- **The carve never reaches the exit.** The carve opens only cells with an
  odd coordinate inside 1..W-3 by 1..H-3. The exit (38, 38) and its two
  inner neighbours (37, 38) and (38, 37) are never among them. So a
  generated maze is solvable exactly when the random openings opened the
  exit and one of those two neighbours (`MazeGen.GeneratedSolvable`). It is
  the rejection loop, not the carve, that makes the game solvable. Also,
  `ensure_maze_has_solution` does not reopen the entrance or the exit of a
  regenerated maze.
- **Order within a tick.** The win check comes before the monster moves,
  so reaching the exit wins even if the monster would have stepped onto the
  player. A collision sends the player back to the entrance and respawns
  the monster before lives are tested for zero.

## Model

| member | source | states |
|---|---|---|
| Grid.Neighbor | main.py:146-147 | the k-th neighbour is 4-adjacent to the cell and lies in direction k of the shared direction list |
| Grid.OpenCellIsInterior | main.py:276-283 | with walls all round the border, an open cell is off the border, so the player's unchecked ±1 reads stay in bounds |
| Grid.Reverse | main.py:143 | the result has the same length, and its i-th element is the input's (n-1-i)-th |
| Grid.ReverseSteps | main.py:139-143 | a trail built by following parents back from the goal, once reversed, moves forwards by Steps |
| Grid.ReachableStep | main.py:276-283 | one Step past a reachable cell is reachable |
| Grid.RouteStaysInside | main.py:167-188 | every route from a cell in a set closed under Steps ends inside that set |
| PathFinder.FindPath | main.py:129-153 | a non-empty result is a route from entrance to exit; the result is empty exactly when exit is unreachable; no route is shorter than the result |
| PathFinder.Rebuild | main.py:138-144 | following parents from the exit and reversing gives a route from entrance to exit with one cell more than the exit's BFS layer |
| PathFinder.Expand | main.py:146-151 | after the four directions, the queue is the old queue followed by the new cells, each queued exactly once; the new cells are exactly the open, unvisited neighbours of current, each with current as parent; earlier cells keep their parents; the BFS tree and layer invariants are kept |
| PathFinder.VisitNeighbor | main.py:147-151 | an in-bounds, open, unvisited k-th neighbour is appended to the queue, marked visited and given current as parent; otherwise nothing changes |
| PathFinder.Visit | main.py:148-151 | queueing a fresh open neighbour one layer deeper keeps the tree, layer order and expansion invariants |
| PathFinder.Finish | main.py:146-151 | once all open neighbours of the popped cell are visited, it counts as expanded and the loop invariant is back |
| PathFinder.Dequeued | main.py:136-138 | popping a non-exit head of the queue leaves it to be expanded at its own layer |
| PathFinder.ShortestAtFront | main.py:136-144 | no route to the cell at the head of the queue is shorter than its layer plus one |
| PathFinder.ShortestFound | main.py:138-144 | when the exit is popped, every route to it has at least its layer plus one cells |
| PathFinder.Unreached | main.py:153 | a queue emptied without visiting the exit means no route reaches it |
| PathFinder.Layers | main.py:136-153 | every cell of a route up to the expanded layers has been visited at a layer no larger than its position |
| PathFinder.GrowOne | main.py:149-151 | appending one more open, unvisited neighbour keeps the queue an extension of the old one that lists each new cell once, with current as the new cells' parent and earlier parents kept |
| PathFinder.GrownAll | main.py:146-151 | once all four directions are done, the new cells are exactly the open unvisited neighbours, and no new cell means no new queue entry |
| Pursuit.Abs | main.py:157 | the absolute value is n or -n and is never negative |
| Pursuit.Heuristic | main.py:156-157 | the Manhattan distance is 0 exactly on equal cells and 1 exactly on adjacent cells |
| Pursuit.HeuristicIsDistance | main.py:156-157 | the heuristic is symmetric and changes by at most 1 per move |
| Pursuit.HeuristicAdmissible | main.py:156-157 | no route from s to t makes fewer moves than the heuristic of s and t |
| Pursuit.PopMin | main.py:168 | the popped entry is in the frontier and no greater than any entry under tuple order (f, x, y); the rest is the frontier minus that one entry |
| Pursuit.AfterPop | main.py:167-170 | popping a non-goal entry from a frontier that keeps the search invariant leaves its cell to be relaxed |
| Pursuit.LinksExtend | main.py:181-184 | linking an open neighbour to a scored cell with a strictly smaller g keeps every link a Step to a cell with smaller g |
| Pursuit.Improve | main.py:181-186 | giving an open neighbour a strictly lower g, current as predecessor and a frontier entry keeps the relaxation invariant |
| Pursuit.PotentialDrop | main.py:182-184 | lowering one cell's g lowers the sum of g over the grid by exactly the drop |
| Pursuit.RelaxNeighbor | main.py:179-186 | when the k-th neighbour is in bounds, open and its g would strictly drop (or it has none), came_from, g, f and the frontier gain exactly that update; otherwise nothing changes |
| Pursuit.ImproveMeasure | main.py:182-186 | an improving update either scores a new in-bounds cell, or lowers a g by at least one while adding one frontier entry, so the termination measure does not grow |
| Pursuit.Relaxed | main.py:179-186 | after one direction's update the relaxation invariant holds, an open k-th neighbour is scored, and the termination measure has not grown |
| Pursuit.ScanOn | main.py:178-186 | one direction's update carries the loop invariant from k directions done to k + 1 |
| Pursuit.Relax | main.py:178-186 | every neighbour that is open and in bounds and whose g strictly drops (or that has none) gets g(current) + 1 and current as came_from; every other g and came_from entry is unchanged; the frontier is the old one followed by one entry (g + heuristic, cell) per such neighbour in direction order; the search invariant holds again; the scored cells grow, or twice the g sum plus the frontier size does not grow |
| Pursuit.PushedEntries | main.py:182-186 | the entries pushed by the first k directions are one per improving neighbour in those directions, with f = g(current) + 1 + heuristic, and no other |
| Pursuit.NotYetScored | main.py:179-183 | the neighbour in direction k is untouched by the earlier directions, so it improves now exactly when it improved before them |
| Pursuit.UpdateSame | main.py:181-183 | a direction whose neighbour does not improve changes no g, came_from or frontier entry |
| Pursuit.ScoresNew | main.py:183-184 | an improving neighbour gets g(current) + 1 and current as came_from, and no other entry changes |
| Pursuit.PushesNew | main.py:185-186 | an improving neighbour's entry is pushed after those of the earlier directions |
| Pursuit.UpdateOn | main.py:178-186 | one direction's update extends the account of the g, came_from and frontier changes from k directions to k + 1 |
| Pursuit.UpdateDone | main.py:178-186 | after the four directions that account is the whole relaxation update of current |
| Pursuit.RelaxDone | main.py:178-186 | once every open neighbour of current is scored, every scored cell without a frontier entry has all its neighbours scored |
| Pursuit.NoWorseTransitive | main.py:178-186 | the no-growth relation on the termination measure composes across directions |
| Pursuit.TraceStep | main.py:172-174 | following one more came_from link keeps the trail a backward walk by Steps from the goal |
| Pursuit.TraceDone | main.py:172-176 | when the walk stops, the reversed trail ends at the goal, does not contain start, begins one Step from start and moves by Steps |
| Pursuit.Trace | main.py:170-176 | the rebuilt path is empty exactly when goal is start; otherwise it ends at goal, excludes start, starts one Step from start and moves by Steps |
| Pursuit.Prefixed | main.py:170-176 | start placed in front of a traced path gives a route from start to goal |
| Pursuit.Exhausted | main.py:167-188 | a frontier emptied before the goal was popped means the goal is unreachable |
| Pursuit.AStar | main.py:159-188 | a non-empty result ends at goal, excludes start, begins one Step from start and moves by Steps; the result is empty exactly when start is goal or goal is unreachable |
| MazeGen.Jump | main.py:39-40 | each carve move goes to a cell two apart along a row or column |
| MazeGen.Midpoint | main.py:46 | the cell between two cells two apart is adjacent to both |
| MazeGen.MidpointCarvable | main.py:46 | the wall opened between two rooms is a carvable cell that is not a room |
| MazeGen.RoomCarvable | main.py:41 | every room the carve may push is a carvable cell |
| MazeGen.Unopened | main.py:37-42 | the neighbour list holds only unopened rooms two apart from the top, and holds every one of them |
| MazeGen.OpenCellAt | main.py:46-47 | setting one in-bounds cell to 0 makes the grid open exactly on the old open cells plus that cell |
| MazeGen.OpenWay | main.py:46-47 | the wall cell between top and target and the target are opened, and nothing else |
| MazeGen.SpannedGrow | main.py:44-48 | opening a new room and its wall keeps every room off the stack with all its neighbouring rooms opened |
| MazeGen.LinkedExtend | main.py:44-48 | opening a cell adjacent to an opened cell, one deeper, keeps the parent links back to the entrance |
| MazeGen.CarveKeeps | main.py:44-48 | a push opens exactly the wall and the target, keeps the carve invariant and strictly shrinks the set of unopened cells |
| MazeGen.BacktrackKeeps | main.py:49-50 | popping a top whose neighbouring rooms are all opened keeps the carve invariant |
| MazeGen.CarveStep | main.py:35-50 | one turn either pops the stack, or pushes an unopened room two apart and opens exactly it and the wall between; the carve invariant holds and the loop measure drops |
| MazeGen.Carve | main.py:32-50 | when the stack empties, the grid is open exactly on the opened cells; these are carvable and linked back to the entrance, and every opened room has all its neighbouring rooms opened |
| MazeGen.AllRoomsCarved | main.py:32-50 | every room of the grid is opened once the stack is empty |
| MazeGen.LinkedReachable | main.py:32-50 | every opened cell is reachable from the entrance through opened cells |
| MazeGen.OpenExtras | main.py:53-55 | exactly W*H/5 interior cells are drawn and opened; the grid is open exactly on the carved cells and the drawn cells |
| MazeGen.GenerateMaze | main.py:30-57 | a fresh grid with walls all round the border and only 0s and 1s; every room is carved and linked to (1, 1); it is open exactly on the carved and drawn cells |
| MazeGen.BorderFromLayout | main.py:30-57 | a 0/1 grid open only on carvable and interior cells has walls all round the border |
| MazeGen.ExitEntry | main.py:250 | a route to the exit needs the exit and one of its two inner neighbours open |
| MazeGen.ExitOpened | main.py:53-55 | if the random openings opened the exit and one of its inner neighbours, the exit is reachable from the entrance |
| MazeGen.GeneratedSolvable | main.py:30-57 | a generated grid is solvable exactly when the random openings opened the exit and one of its two inner neighbours |
| MazeGen.OpenLater | main.py:251-252 | opening one interior cell of a generated grid leaves it a generated grid with that cell among the openings |
| MazeGen.EnsureMazeHasSolution | main.py:60-65 | solved holds exactly when the returned grid is solvable; a solvable input is returned unchanged; an unsolvable input is replaced by a freshly generated grid whenever any attempt is allowed |
| MazeGen.PrepareMaze | main.py:248-253 | the grid has walls all round the border, only 0s and 1s and an open entrance; solved holds exactly when the exit is reachable; the first grid is a generated grid with the entrance and exit opened; it is solvable exactly when its random openings include (W-3, H-2) or (W-2, H-3), and then it is the grid kept and solved holds |
| Session.Toward | main.py:276-283 | each arrow key names a 4-adjacent cell; any other key names the current cell |
| Session.ApplyKey | main.py:276-283 | the player moves exactly when the key is an arrow and the cell in its direction is open, and then by one Step; the player always stays on an open cell |
| Session.PressKey | main.py:276-283 | the four guarded key tests compute exactly ApplyKey |
| Session.ApplyKeys | main.py:270-283 | the key presses of one pass, taken in order, leave the player on an open cell |
| Session.KeysFollowRoute | main.py:270-283 | after a sequence of keys, the player is at the end of a route from where it was, with at most one move per key |
| Session.RespawnMonster | main.py:241-245 | the monster lands on the first open draw, an interior open cell |
| Session.Game.constructor | main.py:256-267 | the player is at the entrance, lives are 3, the counter is 0 and the logs are empty; the monster is on the first open draw; the hint is a shortest route from entrance to exit |
| Session.Game.MoveMonster | main.py:234-238 | on an odd counter the monster stays; on an even counter it moves exactly when it is not on the player and can reach it, and then by one Step to a cell from which the player is still reachable |
| Session.Game.HandleKeys | main.py:270-283 | the player ends where the keys, applied in order, take it, and the game invariant is kept |
| Session.Game.LoseLife | main.py:302-310 | lives drop by one, the player goes back to the entrance, the monster respawns at the first open draw, and the game is lost exactly when no lives are left |
| Session.Game.FinishTick | main.py:296-310 | the counter goes up by one; each log gains the tick's position; lives drop by one exactly when player and monster meet; the monster moved by at most one Step, none on an odd counter, and on an even counter a Step exactly when it was off the player and could reach it |
| Session.Game.Tick | main.py:269-310 | reaching the exit wins with nothing else changed; otherwise the counter and logs grow by one, lives drop exactly on a collision, and the collision rules apply; on an even counter the monster steps exactly when it is off the moved player and can reach it; the maze and hint never change |

## Left out

- Rendering is not modelled: `draw_maze`, `draw_arrow`, fonts, the display and the clock (main.py:190-231, 312-313). They are pygame UI.
- pygame event polling and the QUIT event are not modelled (main.py:270-274). A tick's key presses are a parameter of `Game.Tick`, with every non-arrow key as `Other`.
- The mouse hit-test and the "Show Path" toggle are not modelled (main.py:284-288). They only change what is drawn.
- The save and load round trip through `maze.txt` is treated as the identity (main.py:68-83, 254-255). It is file I/O.
- The sqlite functions are left out (main.py:86-126, 272, 292, 308). They are external storage.
- `print`, `pygame.quit` and `sys.exit` become the `Won` and `Lost` states.
- The uniformity of `random.choice` and `random.randint` is not modelled. Each draw is an arbitrary value in the source's range.
- MazeGen.EnsureMazeHasSolution: the source loops until a solvable maze appears. Here at most `maxAttempts` fresh mazes are generated, and `solved` says whether the last one is solvable. Unbounded loops cannot be proved to terminate.
- Session.RespawnMonster: the source draws until it hits an open cell. Here the draws are a given sequence that contains an open cell, so the loop ends.
- Pursuit.AStar: optimality of the returned path is not stated, only that it is a valid route and complete. The heap's internal array layout is replaced by a multiset of entries with a least-entry pop.
- Python's negative indexing is not modelled. With walls all round the border (`Grid.OpenCellIsInterior`), no index ever goes below 0 or past the last row or column.
- The player and monster positions are Python lists mutated in place. Here they are `Cell` values in fields of `Game`, because the source never aliases them.
