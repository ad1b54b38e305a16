/**
 * The game around the maze: the player moves one cell per W/A/S/D key press,
 * but only into an in-bounds cell that is not a wall, and SPACE asks the
 * breadth-first search for a path to the goal. Rendering, the clock and the
 * event queue are not modelled; key presses arrive as `Key` values.
 */
module MazeGame {
  import opened Wrappers
  import opened MazeGrid
  import MazeSearch

  datatype Key = KeyW | KeyA | KeyS | KeyD | KeySpace | OtherKey

  predicate IsDirection(key: Key) {
    key.KeyW? || key.KeyA? || key.KeyS? || key.KeyD?
  }

  /** The offset a key moves the player by: W up, S down, A left, D right. */
  function Offset(key: Key): (d: Option<(int, int)>)
    ensures d.Some? <==> IsDirection(key)
    ensures d.Some? ==> d.value in Moves
  {
    match key
    case KeyW => Some((-1, 0))
    case KeyS => Some((1, 0))
    case KeyA => Some((0, -1))
    case KeyD => Some((0, 1))
    case _ => None
  }

  /** The cell a direction key aims at, wall or not. */
  function Target(p: Pos, key: Key): Pos
    requires IsDirection(key)
  {
    Pos(p.r + Offset(key).value.0, p.c + Offset(key).value.1)
  }

  /** Where the player stands after one key press. */
  function Moved(g: Grid, p: Pos, key: Key): Pos {
    if IsDirection(key) && Passable(g, Target(p, key)) then Target(p, key) else p
  }

  /** The player where a sequence of key presses leaves it. */
  function Play(g: Grid, p: Pos, keys: seq<Key>): Pos
    decreases |keys|
  {
    if keys == [] then p else Moved(g, Play(g, p, keys[..|keys| - 1]), keys[|keys| - 1])
  }

  /** The key whose offset is `d`; OtherKey when no key has it. */
  function KeyFor(d: (int, int)): (key: Key)
    ensures d in Moves ==> IsDirection(key) && Offset(key) == Some(d)
  {
    if d == (-1, 0) then KeyW
    else if d == (1, 0) then KeyS
    else if d == (0, -1) then KeyA
    else if d == (0, 1) then KeyD
    else OtherKey
  }

  /**
   * A key press moves the player exactly when it is a direction key whose
   * target is in bounds and not a wall, and then by one move into a passable
   * cell; SPACE and every other key leave the player where it is.
   */
  lemma MoveRule(g: Grid, p: Pos, key: Key)
    ensures Moved(g, p, key) != p <==> IsDirection(key) && Passable(g, Target(p, key))
    ensures Moved(g, p, key) != p ==> Adjacent(p, Moved(g, p, key)) && Passable(g, Moved(g, p, key))
    ensures !IsDirection(key) ==> Moved(g, p, key) == p
  {
    if IsDirection(key) {
      assert Offset(key).value in Moves;
      assert Target(p, key) != p;
    }
  }

  /** Whatever keys are pressed, the player only ever stands where a walk from its start leads. */
  lemma {:induction false} PlayIsWalk(g: Grid, p: Pos, keys: seq<Key>) returns (q: seq<Pos>)
    ensures IsPath(g, p, Play(g, p, keys), q)
    decreases |keys|
  {
    if keys == [] {
      q := [p];
    } else {
      var before := Play(g, p, keys[..|keys| - 1]);
      q := PlayIsWalk(g, p, keys[..|keys| - 1]);
      var key := keys[|keys| - 1];
      MoveRule(g, before, key);
      if Moved(g, before, key) != before {
        WalkExtend(g, p, q, Moved(g, before, key));
        q := q + [Moved(g, before, key)];
      }
    }
  }

  /** Conversely, every walk can be followed with the keys, one press per step. */
  lemma {:induction false} WalkIsPlay(g: Grid, p: Pos, q: seq<Pos>) returns (keys: seq<Key>)
    requires Walk(g, p, q)
    ensures |keys| == |q| - 1 && Play(g, p, keys) == q[|q| - 1]
    decreases |q|
  {
    if |q| == 1 {
      keys := [];
    } else {
      WalkPrefix(g, p, q, |q| - 1);
      var front := WalkIsPlay(g, p, q[..|q| - 1]);
      var a, b := q[|q| - 2], q[|q| - 1];
      assert StepOk(g, q, |q| - 1);
      var key := KeyFor((b.r - a.r, b.c - a.c));
      keys := front + [key];
      assert keys[..|keys| - 1] == front;
      assert Target(a, key) == b;
    }
  }

  /** The goal is reachable exactly when some sequence of key presses brings the player there. */
  lemma ReachableByKeys(g: Grid, p: Pos, goal: Pos)
    ensures Reachable(g, p, goal) <==> exists keys :: Play(g, p, keys) == goal
  {
    if Reachable(g, p, goal) {
      var q :| IsPath(g, p, goal, q);
      var keys := WalkIsPlay(g, p, q);
    }
    if exists keys :: Play(g, p, keys) == goal {
      var keys :| Play(g, p, keys) == goal;
      var q := PlayIsWalk(g, p, keys);
    }
  }

  /**
   * The game state the event loop updates: the maze and the goal are fixed,
   * the player's cell and the displayed path change with key presses.
   */
  class Game {
    const maze: Grid
    const goal: Pos
    var player: Pos
    var path: seq<Pos>

    /** The player always stands on an in-bounds cell that is not a wall. */
    ghost predicate Valid()
      reads this
    {
      WellFormed(maze) && Passable(maze, player)
    }

    /**
     * The start-up: the player on the first 'S' and the goal on the first 'G'
     * in row-major order, and no path shown. Without an 'S' or a 'G' the
     * program fails when it first draws them.
     */
    constructor (grid: Grid)
      requires WellFormed(grid) && Occurs(grid, 'S') && Occurs(grid, 'G')
      ensures Valid() && maze == grid && path == []
      ensures InBounds(grid, goal) && grid[player.r][player.c] == 'S' && grid[goal.r][goal.c] == 'G'
      ensures forall i, j :: 0 <= i < Rows(grid) && 0 <= j < Cols(grid) && RowMajorBefore(i, j, player) ==> grid[i][j] != 'S'
      ensures forall i, j :: 0 <= i < Rows(grid) && 0 <= j < Cols(grid) && RowMajorBefore(i, j, goal) ==> grid[i][j] != 'G'
    {
      var s := Find(grid, 'S');
      var t := Find(grid, 'G');
      maze := grid;
      player := s.value;
      goal := t.value;
      path := [];
    }

    /** One KEYDOWN event of the game loop. */
    method KeyDown(key: Key)
      requires Valid()
      modifies this
      ensures Valid()
      ensures key != KeySpace ==> player == Moved(maze, old(player), key) && path == old(path)
      ensures key == KeySpace ==> player == old(player)
      ensures key == KeySpace && path != [] ==> IsShortest(maze, player, goal, path) && Distinct(path)
      ensures key == KeySpace ==> (path == [] <==> !Reachable(maze, player, goal))
    {
      var x, y := player.r, player.c;
      var nx, ny;
      if key == KeyW {
        nx, ny := x - 1, y;
      } else if key == KeyS {
        nx, ny := x + 1, y;
      } else if key == KeyA {
        nx, ny := x, y - 1;
      } else if key == KeyD {
        nx, ny := x, y + 1;
      } else if key == KeySpace {
        ghost var order;
        path, order := MazeSearch.Bfs(maze, player, goal);
        return;
      } else {
        return;
      }
      assert Pos(nx, ny) == Target(old(player), key);
      if 0 <= nx < Rows(maze) && 0 <= ny < Cols(maze) && maze[nx][ny] != Wall {
        player := Pos(nx, ny);
      }
    }
  }
}
