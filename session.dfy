/**
 * One game of the maze: the player walks with the keyboard from the entrance
 * towards the exit, a monster chases the player along A* paths on every other
 * tick, and a collision costs a life and sends the player back to the
 * entrance. Every tick that does not end in a win appends the player's and
 * the monster's positions to two logs.
 */
module Session {
  import opened Grid
  import PathFinder
  import Pursuit

  /** The lives a game starts with. */
  const StartLives: int := 3

  /**
   * A key press: Up stands for W and the up arrow, Down for S and the down
   * arrow, Left for A and the left arrow, Right for D and the right arrow.
   */
  datatype Key = Up | Down | Left | Right | Other

  datatype Status = Playing | Won | Lost

  /** The cell a key would move to from pos, or pos for a key that does not move. */
  function Toward(pos: Cell, key: Key): (t: Cell)
    ensures key != Other ==> Adjacent(pos, t)
    ensures key == Other ==> t == pos
  {
    match key
    case Up => Cell(pos.x, pos.y - 1)
    case Down => Cell(pos.x, pos.y + 1)
    case Left => Cell(pos.x - 1, pos.y)
    case Right => Cell(pos.x + 1, pos.y)
    case Other => pos
  }

  /**
   * One key press in main's event loop: the player moves one cell in the
   * key's direction when that cell is open, and otherwise stays put.
   */
  function ApplyKey(maze: array2<int>, pos: Cell, key: Key): (p: Cell)
    requires BorderWalls(maze) && Passable(maze, pos)
    reads maze
    ensures Passable(maze, p)
    ensures p == pos || Step(maze, pos, p)
    ensures p != pos <==> key != Other && Passable(maze, Toward(pos, key))
  {
    OpenCellIsInterior(maze, pos);
    var t := Toward(pos, key);
    if key != Other && maze[t.y, t.x] == OpenCell then t else pos
  }

  /** main's four key tests for one press, each reading the maze cell next to the player. */
  method PressKey(maze: array2<int>, pos: Cell, key: Key) returns (p: Cell)
    requires BorderWalls(maze) && Passable(maze, pos)
    ensures p == ApplyKey(maze, pos, key)
  {
    OpenCellIsInterior(maze, pos);
    p := pos;
    if key == Up && maze[pos.y - 1, pos.x] == OpenCell {
      p := pos.(y := pos.y - 1);
    } else if key == Down && maze[pos.y + 1, pos.x] == OpenCell {
      p := pos.(y := pos.y + 1);
    } else if key == Left && maze[pos.y, pos.x - 1] == OpenCell {
      p := pos.(x := pos.x - 1);
    } else if key == Right && maze[pos.y, pos.x + 1] == OpenCell {
      p := pos.(x := pos.x + 1);
    }
  }

  /** The player's cell after a tick's key presses, taken in order. */
  function ApplyKeys(maze: array2<int>, pos: Cell, keys: seq<Key>): (p: Cell)
    requires BorderWalls(maze) && Passable(maze, pos)
    reads maze
    ensures Passable(maze, p)
    decreases |keys|
  {
    if keys == [] then pos
    else ApplyKey(maze, ApplyKeys(maze, pos, keys[..|keys| - 1]), keys[|keys| - 1])
  }

  /**
   * The key presses walk the player along a route of open cells with at most
   * one move per key: the player never leaves the part of the maze it is in.
   */
  lemma {:induction false} KeysFollowRoute(maze: array2<int>, pos: Cell, keys: seq<Key>)
    requires BorderWalls(maze) && Passable(maze, pos)
    ensures exists p :: IsRoute(maze, p, pos, ApplyKeys(maze, pos, keys)) && |p| <= |keys| + 1
    decreases |keys|
  {
    if keys == [] {
      assert IsRoute(maze, [pos], pos, pos);
    } else {
      var before := ApplyKeys(maze, pos, keys[..|keys| - 1]);
      var after := ApplyKey(maze, before, keys[|keys| - 1]);
      KeysFollowRoute(maze, pos, keys[..|keys| - 1]);
      var p :| IsRoute(maze, p, pos, before) && |p| <= |keys|;
      if after == before {
        assert IsRoute(maze, p, pos, after);
      } else {
        assert IsRoute(maze, p + [after], pos, after);
      }
    }
  }

  /**
   * respawn_monster: the source draws random interior cells until one is
   * open. The draws are given here in order; the monster goes to the first
   * open one.
   */
  method RespawnMonster(maze: array2<int>, draws: seq<Cell>) returns (m: Cell)
    requires Shaped(maze)
    requires forall i :: 0 <= i < |draws| ==> Interior(draws[i])
    requires exists i :: 0 <= i < |draws| && Passable(maze, draws[i])
    ensures Interior(m) && Passable(maze, m)
    ensures exists i :: 0 <= i < |draws| && m == draws[i] && forall j :: 0 <= j < i ==> !Passable(maze, draws[j])
  {
    var i := 0;
    while true
      invariant 0 <= i < |draws|
      invariant forall j :: 0 <= j < i ==> !Passable(maze, draws[j])
      decreases |draws| - i
    {
      var c := draws[i];
      if maze[c.y, c.x] == OpenCell {
        return c;
      }
      i := i + 1;
    }
  }

  /** The state main keeps between ticks. */
  class Game {
    var maze: array2<int>
    var player: Cell
    var monster: Cell
    var lives: int
    var moveCounter: nat
    var playerMoves: seq<Cell>
    var monsterMoves: seq<Cell>
    var status: Status
    /** The solution path find_path gave at start-up, shown on request. */
    var hint: seq<Cell>

    ghost predicate Valid()
      reads this, maze
    {
      && BorderWalls(maze)
      && Passable(maze, Entrance) && Reachable(maze, Entrance, Exit)
      && IsRoute(maze, hint, Entrance, Exit)
      && Passable(maze, player) && Reachable(maze, Entrance, player)
      && Passable(maze, monster)
      && 0 <= lives <= StartLives
      && (status == Lost <==> lives == 0)
      && (status == Won ==> player == Exit)
      && |playerMoves| == moveCounter && |monsterMoves| == moveCounter
    }

    /**
     * The start of main once the maze is ready: the hint path, the player at
     * the entrance, the monster respawned, three lives and empty logs.
     */
    constructor(m: array2<int>, draws: seq<Cell>)
      requires BorderWalls(m) && Passable(m, Entrance) && Reachable(m, Entrance, Exit)
      requires forall i :: 0 <= i < |draws| ==> Interior(draws[i])
      requires exists i :: 0 <= i < |draws| && Passable(m, draws[i])
      ensures Valid()
      ensures maze == m && player == Entrance && lives == StartLives && status == Playing
      ensures moveCounter == 0 && playerMoves == [] && monsterMoves == []
      ensures forall p :: IsRoute(m, p, Entrance, Exit) ==> |hint| <= |p|
      ensures exists i :: 0 <= i < |draws| && monster == draws[i] && forall j :: 0 <= j < i ==> !Passable(m, draws[j])
    {
      var path := PathFinder.FindPath(m, Entrance, Exit);
      var spawn := RespawnMonster(m, draws);
      maze := m;
      hint := path;
      player := Entrance;
      monster := spawn;
      lives := StartLives;
      status := Playing;
      moveCounter := 0;
      playerMoves := [];
      monsterMoves := [];
      assert IsRoute(m, [Entrance], Entrance, Entrance);
    }

    /**
     * move_monster: on an even counter the monster takes the first cell of
     * the A* path to the player, if there is one; on an odd counter it stays.
     */
    method MoveMonster()
      requires Valid()
      modifies this`monster
      ensures Valid()
      ensures old(moveCounter) % 2 == 1 ==> monster == old(monster)
      ensures monster == old(monster) || Step(maze, old(monster), monster)
      ensures moveCounter % 2 == 0 ==>
                (monster != old(monster) <==> old(monster) != player && Reachable(maze, old(monster), player))
      ensures monster != old(monster) ==> Reachable(maze, monster, player)
    {
      if moveCounter % 2 == 0 {
        var path := Pursuit.AStar(maze, monster, player);
        if path != [] {
          assert IsRoute(maze, path, path[0], player);
          monster := path[0];
        }
      }
    }

    /**
     * One pass of main's loop: the key presses move the player; reaching the
     * exit wins at once; otherwise the monster moves, the counter goes up,
     * both positions are logged, and if the two meet the player loses a life,
     * goes back to the entrance and the monster respawns; at no lives left
     * the game is lost.
     */
    method Tick(keys: seq<Key>, draws: seq<Cell>)
      requires Valid() && status == Playing
      requires forall i :: 0 <= i < |draws| ==> Interior(draws[i])
      requires exists i :: 0 <= i < |draws| && Passable(maze, draws[i])
      modifies this
      ensures Valid()
      ensures maze == old(maze) && hint == old(hint)
      ensures var moved := ApplyKeys(maze, old(player), keys);
              moved == Exit ==>
                && status == Won && player == moved && monster == old(monster) && lives == old(lives)
                && moveCounter == old(moveCounter) && playerMoves == old(playerMoves) && monsterMoves == old(monsterMoves)
      ensures var moved := ApplyKeys(maze, old(player), keys);
              moved != Exit ==>
                && moveCounter == old(moveCounter) + 1
                && playerMoves == old(playerMoves) + [moved]
                && |monsterMoves| == |old(monsterMoves)| + 1
                && monsterMoves[..|old(monsterMoves)|] == old(monsterMoves)
                && lives == (if moved == monsterMoves[|old(monsterMoves)|] then old(lives) - 1 else old(lives))
                && Chased(old(monster), old(moveCounter), moved, monsterMoves[|old(monsterMoves)|], draws)
    {
      HandleKeys(keys);
      if player == Exit {
        status := Won;
        return;
      }
      FinishTick(draws);
    }

    /**
     * What follows the monster's move in a tick that did not end in a win,
     * given where the monster was, the counter before the tick, where the
     * player moved to and where the monster moved to (chaser): the move is a
     * Step or none, none on an odd counter, and on an even counter a Step
     * exactly when the monster is off the player and can reach it; meeting the player costs a life,
     * sends the player back to the entrance and respawns the monster at the
     * first open draw, and at no lives left the game is lost; otherwise
     * nothing else changes.
     */
    ghost predicate Chased(monster0: Cell, counter0: int, moved: Cell, chaser: Cell, draws: seq<Cell>)
      reads this, maze
    {
      && (chaser == monster0 || Step(maze, monster0, chaser))
      && (counter0 % 2 == 1 ==> chaser == monster0)
      && (counter0 % 2 == 0 ==> (chaser != monster0 <==> monster0 != moved && Reachable(maze, monster0, moved)))
      && (moved == chaser ==>
            && player == Entrance
            && (exists i :: 0 <= i < |draws| && monster == draws[i] && forall j :: 0 <= j < i ==> !Passable(maze, draws[j]))
            && status == (if lives == 0 then Lost else Playing))
      && (moved != chaser ==> player == moved && monster == chaser && status == Playing)
    }

    /** The rest of a tick once the player is not on the exit: monster move, counter, logs, collision. */
    method FinishTick(draws: seq<Cell>)
      requires Valid() && status == Playing && player != Exit
      requires forall i :: 0 <= i < |draws| ==> Interior(draws[i])
      requires exists i :: 0 <= i < |draws| && Passable(maze, draws[i])
      modifies this
      ensures Valid()
      ensures maze == old(maze) && hint == old(hint)
      ensures moveCounter == old(moveCounter) + 1
      ensures playerMoves == old(playerMoves) + [old(player)]
      ensures |monsterMoves| == |old(monsterMoves)| + 1 && monsterMoves[..|old(monsterMoves)|] == old(monsterMoves)
      ensures lives == if old(player) == monsterMoves[|old(monsterMoves)|] then old(lives) - 1 else old(lives)
      ensures Chased(old(monster), old(moveCounter), old(player), monsterMoves[|old(monsterMoves)|], draws)
    {
      MoveMonster();
      moveCounter := moveCounter + 1;
      playerMoves := playerMoves + [player];
      monsterMoves := monsterMoves + [monster];
      if player == monster {
        LoseLife(draws);
      }
    }

    /** The key presses of one pass of main's event loop, applied in order to the player. */
    method HandleKeys(keys: seq<Key>)
      requires Valid() && status == Playing
      modifies this`player
      ensures Valid()
      ensures player == ApplyKeys(maze, old(player), keys)
    {
      var pos := player;
      for i := 0 to |keys|
        invariant player == old(player) && Valid()
        invariant Passable(maze, pos) && Reachable(maze, Entrance, pos)
        invariant pos == ApplyKeys(maze, player, keys[..i])
      {
        ghost var before := pos;
        pos := PressKey(maze, pos, keys[i]);
        assert keys[..i + 1][..i] == keys[..i];
        if pos != before {
          ReachableStep(maze, Entrance, before, pos);
        }
      }
      assert keys[..|keys|] == keys;
      player := pos;
    }

    /**
     * The collision branch of main's loop: one life less, the player back at
     * the entrance, the monster respawned, and the game lost at no lives left.
     */
    method LoseLife(draws: seq<Cell>)
      requires Valid() && status == Playing
      requires forall i :: 0 <= i < |draws| ==> Interior(draws[i])
      requires exists i :: 0 <= i < |draws| && Passable(maze, draws[i])
      modifies this`lives, this`player, this`monster, this`status
      ensures Valid()
      ensures lives == old(lives) - 1 && player == Entrance
      ensures exists i :: 0 <= i < |draws| && monster == draws[i] && forall j :: 0 <= j < i ==> !Passable(maze, draws[j])
      ensures status == if lives == 0 then Lost else Playing
    {
      lives := lives - 1;
      player := Entrance;
      monster := RespawnMonster(maze, draws);
      assert IsRoute(maze, [Entrance], Entrance, Entrance);
      if lives == 0 {
        status := Lost;
      }
    }
  }
}
