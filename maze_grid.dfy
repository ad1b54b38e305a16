/**
 * The maze of the solver game: a grid of characters in which '1' is a wall,
 * 'S' marks the start and 'G' the goal. This module fixes what a cell, a
 * move and a path through the maze are, and holds the row-major search for a
 * symbol that places the player and the goal.
 */
module MazeGrid {
  import opened Wrappers

  /** A cell by row `r` and column `c`; neighbours of border cells lie outside the grid. */
  datatype Pos = Pos(r: int, c: int)

  type Grid = seq<seq<char>>

  const Wall: char := '1'

  /** The four offsets, in the order the search tries them: up, down, left, right. */
  const Moves: seq<(int, int)> := [(-1, 0), (1, 0), (0, -1), (0, 1)]

  /**
   * The column count is the length of the first row, so the grid needs a first
   * row, and every cell (i, j) with j below that count is indexed, so no row
   * may be shorter than the first.
   */
  predicate WellFormed(g: Grid) {
    |g| > 0 && forall i :: 0 <= i < |g| ==> |g[i]| >= |g[0]|
  }

  function Rows(g: Grid): nat { |g| }

  function Cols(g: Grid): nat { if |g| == 0 then 0 else |g[0]| }

  predicate InBounds(g: Grid, p: Pos) {
    0 <= p.r < Rows(g) && 0 <= p.c < Cols(g)
  }

  /** In bounds and not a wall; the middle conjunct follows from WellFormed(g). */
  predicate Passable(g: Grid, p: Pos) {
    InBounds(g, p) && p.c < |g[p.r]| && g[p.r][p.c] != Wall
  }

  /** The cell reached from `p` by the offset `Moves[m]`. */
  function Step(p: Pos, m: nat): Pos
    requires m < |Moves|
  {
    Pos(p.r + Moves[m].0, p.c + Moves[m].1)
  }

  /** `q` is one of the four offsets away from `p`. */
  predicate Adjacent(p: Pos, q: Pos) {
    (q.r - p.r, q.c - p.c) in Moves
  }

  /**
   * A walk from `s`: it starts at `s`, and every later cell is passable and one
   * move away from the cell before it. The start cell itself is not checked,
   * just as the search never inspects the cell it starts from.
   */
  predicate Walk(g: Grid, s: Pos, q: seq<Pos>) {
    |q| > 0 && q[0] == s && forall i :: 0 < i < |q| ==> StepOk(g, q, i)
  }

  /** The `i`-th cell of `q` is passable and one move away from the cell before it. */
  predicate StepOk(g: Grid, q: seq<Pos>, i: int) {
    0 < i < |q| && Passable(g, q[i]) && Adjacent(q[i - 1], q[i])
  }

  predicate IsPath(g: Grid, s: Pos, t: Pos, q: seq<Pos>) {
    Walk(g, s, q) && q[|q| - 1] == t
  }

  ghost predicate Reachable(g: Grid, s: Pos, t: Pos) {
    exists q :: IsPath(g, s, t, q)
  }

  /** A path from `s` to `t` with no fewer cells than any other such path. */
  ghost predicate IsShortest(g: Grid, s: Pos, t: Pos, q: seq<Pos>) {
    IsPath(g, s, t, q) && forall q' {:trigger IsPath(g, s, t, q')} :: IsPath(g, s, t, q') ==> |q| <= |q'|
  }

  predicate Distinct(q: seq<Pos>) {
    forall i, j :: 0 <= i < j < |q| ==> q[i] != q[j]
  }

  /** Cell (i, j) comes before `p` in row-major order. */
  predicate RowMajorBefore(i: int, j: int, p: Pos) {
    i < p.r || (i == p.r && j < p.c)
  }

  ghost predicate Occurs(g: Grid, symbol: char)
    requires WellFormed(g)
  {
    exists i, j :: 0 <= i < Rows(g) && 0 <= j < Cols(g) && g[i][j] == symbol
  }

  /**
   * The row-major scan for a symbol: the first cell holding it, or None when
   * no cell of the grid does.
   */
  method Find(g: Grid, symbol: char) returns (found: Option<Pos>)
    requires WellFormed(g)
    ensures found.Some? ==> InBounds(g, found.value) && g[found.value.r][found.value.c] == symbol
    ensures found.Some? ==> forall i, j :: 0 <= i < Rows(g) && 0 <= j < Cols(g) && RowMajorBefore(i, j, found.value) ==> g[i][j] != symbol
    ensures found.None? <==> !Occurs(g, symbol)
  {
    for i := 0 to Rows(g)
      invariant forall a, b :: 0 <= a < i && 0 <= b < Cols(g) ==> g[a][b] != symbol
    {
      for j := 0 to Cols(g)
        invariant forall b :: 0 <= b < j ==> g[i][b] != symbol
      {
        if g[i][j] == symbol {
          return Some(Pos(i, j));
        }
      }
    }
    return None;
  }

  lemma AdjacentCases(p: Pos, q: Pos)
    requires Adjacent(p, q)
    ensures exists m :: 0 <= m < |Moves| && q == Step(p, m)
  {
    var d := (q.r - p.r, q.c - p.c);
    var m :| 0 <= m < |Moves| && Moves[m] == d;
    assert q == Step(p, m);
  }

  lemma StepAdjacent(p: Pos, m: nat)
    requires m < |Moves|
    ensures Adjacent(p, Step(p, m))
  {
    assert (Step(p, m).r - p.r, Step(p, m).c - p.c) == Moves[m];
  }

  lemma WalkPrefix(g: Grid, s: Pos, q: seq<Pos>, n: nat)
    requires Walk(g, s, q) && 0 < n <= |q|
    ensures Walk(g, s, q[..n])
  {
    forall i | 0 < i < n
      ensures StepOk(g, q[..n], i)
    {
      assert StepOk(g, q, i);
    }
  }

  lemma WalkExtend(g: Grid, s: Pos, q: seq<Pos>, x: Pos)
    requires Walk(g, s, q) && Passable(g, x) && Adjacent(q[|q| - 1], x)
    ensures Walk(g, s, q + [x])
  {
    forall i | 0 < i < |q| + 1
      ensures StepOk(g, q + [x], i)
    {
      if i < |q| {
        assert StepOk(g, q, i);
      }
    }
  }

  /** Cutting the loop between two visits of one cell leaves a walk to the same end. */
  lemma CutLoop(g: Grid, s: Pos, q: seq<Pos>, i: nat, j: nat)
    requires Walk(g, s, q) && i < j < |q| && q[i] == q[j]
    ensures IsPath(g, s, q[|q| - 1], q[..i + 1] + q[j + 1..])
    ensures |q[..i + 1] + q[j + 1..]| < |q|
  {
    var q' := q[..i + 1] + q[j + 1..];
    forall k | 0 < k < |q'|
      ensures StepOk(g, q', k)
    {
      if k <= i {
        assert StepOk(g, q, k) && q'[k] == q[k] && q'[k - 1] == q[k - 1];
      } else if k == i + 1 {
        assert StepOk(g, q, j + 1) && q'[k] == q[j + 1] && q'[k - 1] == q[j];
      } else {
        assert StepOk(g, q, k + j - i) && q'[k] == q[k + j - i] && q'[k - 1] == q[k + j - i - 1];
      }
    }
    assert q'[|q'| - 1] == q[|q| - 1];
  }

  /** A shortest path never visits a cell twice. */
  lemma ShortestIsSimple(g: Grid, s: Pos, t: Pos, q: seq<Pos>)
    requires IsShortest(g, s, t, q)
    ensures Distinct(q)
  {
    if !Distinct(q) {
      var i, j :| 0 <= i < j < |q| && q[i] == q[j];
      CutLoop(g, s, q, i, j);
    }
  }
}
