/**
 * Breadth-first search from the player to the goal. The search keeps a FIFO
 * queue of (cell, path-so-far) entries and a visited set that is marked when
 * a cell is enqueued; it answers the first path whose last cell is the goal,
 * or the empty path once the queue runs dry.
 *
 * The proof keeps a ghost set `done` of the cells already taken off the queue
 * (the "closed" cells of the textbook argument) and shows three things:
 * the neighbours of closed cells have been visited (so an exhausted queue
 * means the goal is unreachable); no walk to a queued cell is shorter than
 * its stored path; and every walk shorter than the head's path ends in a
 * closed cell.
 */
module MazeSearch {
  import opened MazeGrid

  datatype Entry = Entry(cell: Pos, path: seq<Pos>)

  function Cells(queue: seq<Entry>): set<Pos> {
    set e {:trigger e in queue} | e in queue :: e.cell
  }

  ghost function AllCells(g: Grid): set<Pos> {
    set r, c | 0 <= r < Rows(g) && 0 <= c < Cols(g) :: Pos(r, c)
  }

  /** The stored path is a walk to the entry's cell, and no walk there is shorter. */
  ghost predicate Sound(g: Grid, s: Pos, e: Entry) {
    IsPath(g, s, e.cell, e.path) &&
    forall q {:trigger IsPath(g, s, e.cell, q)} :: IsPath(g, s, e.cell, q) ==> |e.path| <= |q|
  }

  /** Every passable neighbour of a closed cell has been visited. */
  ghost predicate Closed(g: Grid, done: set<Pos>, visited: set<Pos>) {
    forall u, w {:trigger Adjacent(u, w)} :: u in done && Adjacent(u, w) && Passable(g, w) ==> w in visited
  }

  /** Every walk with fewer than `k` cells ends in a closed cell. */
  ghost predicate Settled(g: Grid, s: Pos, done: set<Pos>, k: nat) {
    forall q {:trigger Walk(g, s, q)} :: Walk(g, s, q) && |q| < k ==> q[|q| - 1] in done
  }

  /**
   * What holds of the queue, the visited set and the closed cells throughout:
   * the start is visited, every visited cell is closed or queued (not both),
   * every entry is sound, no cell is queued twice, and path lengths never
   * decrease from the front of the queue to its back.
   */
  ghost predicate QueueInv(g: Grid, s: Pos, queue: seq<Entry>, visited: set<Pos>, done: set<Pos>) {
    && s in visited
    && visited == done + Cells(queue) && done !! Cells(queue)
    && visited <= AllCells(g) + {s}
    && (forall i :: 0 <= i < |queue| ==> Sound(g, s, queue[i]))
    && (forall i, j :: 0 <= i < j < |queue| ==> queue[i].cell != queue[j].cell)
    && (forall i, j :: 0 <= i < j < |queue| ==> |queue[i].path| <= |queue[j].path|)
  }

  /** The enqueue order starts at `s`, repeats no cell, and lists exactly the visited cells. */
  ghost predicate OrderInv(g: Grid, s: Pos, order: seq<Pos>, visited: set<Pos>) {
    && |order| > 0 && order[0] == s && Distinct(order)
    && (forall i :: 0 < i < |order| ==> Passable(g, order[i]))
    && (forall x :: x in order <==> x in visited)
  }

  /** The invariant of the search loop. */
  ghost predicate SearchInv(g: Grid, s: Pos, goal: Pos, queue: seq<Entry>, visited: set<Pos>, done: set<Pos>, order: seq<Pos>) {
    && QueueInv(g, s, queue, visited, done) && OrderInv(g, s, order, visited)
    && goal !in done
    && (forall i :: 0 <= i < |queue| ==> |queue[i].path| <= |queue[0].path| + 1)
    && Closed(g, done, visited)
    && (queue != [] ==> Settled(g, s, done, |queue[0].path|))
  }

  /**
   * The search. `order` lists the cells in the order they were enqueued: it
   * starts with the player, holds no cell twice, and every later cell is in
   * bounds and not a wall.
   */
  method Bfs(g: Grid, player: Pos, goal: Pos) returns (path: seq<Pos>, ghost order: seq<Pos>)
    requires WellFormed(g)
    ensures path != [] ==> IsShortest(g, player, goal, path) && Distinct(path)
    ensures path == [] <==> !Reachable(g, player, goal)
    ensures player == goal ==> path == [player]
    ensures |order| > 0 && order[0] == player && Distinct(order)
    ensures forall i :: 0 < i < |order| ==> Passable(g, order[i])
  {
    var queue := [Entry(player, [player])];
    var visited := {player};
    ghost var done: set<Pos> := {};
    order := [player];
    Start(g, player, goal);
    while queue != []
      invariant SearchInv(g, player, goal, queue, visited, done, order)
      decreases AllCells(g) + {player} - done
    {
      var e := queue[0];
      ghost var prev := done;
      Dequeue(g, player, goal, queue, visited, done, order);
      queue := queue[1..];
      if e.cell == goal {
        Found(g, player, goal, e);
        return e.path, order;
      }
      queue, visited, order := Expand(g, player, e, queue, visited, order, prev);
      done := done + {e.cell};
      Expanded(g, player, goal, e, prev, queue, visited, order);
    }
    Exhausted(g, player, goal, visited, done, order);
    return [], order;
  }

  lemma Start(g: Grid, s: Pos, goal: Pos)
    ensures SearchInv(g, s, goal, [Entry(s, [s])], {s}, {}, [s])
  {
    CellsOfAppend([], Entry(s, [s]));
    assert [] + [Entry(s, [s])] == [Entry(s, [s])];
    assert s in AllCells(g) + {s};
    assert Sound(g, s, Entry(s, [s]));
  }

  /** Taking the head off the queue and closing its cell establishes what the expansion needs. */
  lemma Dequeue(g: Grid, s: Pos, goal: Pos, queue: seq<Entry>, visited: set<Pos>, done: set<Pos>, order: seq<Pos>)
    requires queue != [] && SearchInv(g, s, goal, queue, visited, done, order)
    ensures QueueInv(g, s, queue[1..], visited, done + {queue[0].cell}) && OrderInv(g, s, order, visited)
    ensures queue[0].cell in (AllCells(g) + {s}) - done
    ensures Sound(g, s, queue[0]) && goal !in done
    ensures forall i :: 0 <= i < |queue[1..]| ==> |queue[0].path| <= |queue[1..][i].path| <= |queue[0].path| + 1
    ensures Closed(g, done, visited) && Settled(g, s, done, |queue[0].path|)
  {
    CellsOfTail(queue);
    assert queue[0] in queue;
  }

  /** A dequeued goal entry answers a shortest path, which repeats no cell. */
  lemma Found(g: Grid, s: Pos, goal: Pos, e: Entry)
    requires Sound(g, s, e) && e.cell == goal
    ensures e.path != [] && IsShortest(g, s, goal, e.path) && Distinct(e.path)
    ensures Reachable(g, s, goal)
    ensures s == goal ==> e.path == [s]
  {
    ShortestIsSimple(g, s, goal, e.path);
    if s == goal {
      assert IsPath(g, s, goal, [s]);
    }
  }

  /** After the expansion of `e`, with `e`'s cell now closed, the search invariant holds again. */
  lemma Expanded(g: Grid, s: Pos, goal: Pos, e: Entry, prev: set<Pos>,
                 queue: seq<Entry>, visited: set<Pos>, order: seq<Pos>)
    requires QueueInv(g, s, queue, visited, prev + {e.cell}) && OrderInv(g, s, order, visited)
    requires forall i :: 0 <= i < |queue| ==> |e.path| <= |queue[i].path| <= |e.path| + 1
    requires Closed(g, prev + {e.cell}, visited) && Closed(g, prev, visited)
    requires Settled(g, s, prev, |e.path|) && goal !in prev && e.cell != goal
    ensures SearchInv(g, s, goal, queue, visited, prev + {e.cell}, order)
  {
    if queue != [] {
      AdvanceFrontier(g, s, prev, prev + {e.cell}, visited, queue, |e.path|);
    }
  }

  /** Once the queue is empty, every cell a walk from the player reaches is closed, and the goal is not. */
  lemma Exhausted(g: Grid, s: Pos, goal: Pos, visited: set<Pos>, done: set<Pos>, order: seq<Pos>)
    requires SearchInv(g, s, goal, [], visited, done, order)
    ensures !Reachable(g, s, goal)
    ensures s != goal
  {
    assert Cells([]) == {};
    ClosedHoldsWalks(g, s, done);
  }

  /**
   * The loop over the four moves of the head entry `e`: every in-bounds,
   * non-wall, unvisited neighbour is marked visited and enqueued with the
   * head's path extended by it. Afterwards every passable neighbour of the
   * head is visited, so the head may join the closed cells `prev`.
   */
  method Expand(g: Grid, player: Pos, e: Entry, queue0: seq<Entry>, visited0: set<Pos>,
                ghost order0: seq<Pos>, ghost prev: set<Pos>)
    returns (queue: seq<Entry>, visited: set<Pos>, ghost order: seq<Pos>)
    requires WellFormed(g)
    requires QueueInv(g, player, queue0, visited0, prev + {e.cell}) && OrderInv(g, player, order0, visited0)
    requires Sound(g, player, e)
    requires forall i :: 0 <= i < |queue0| ==> |e.path| <= |queue0[i].path| <= |e.path| + 1
    requires Closed(g, prev, visited0) && Settled(g, player, prev, |e.path|)
    ensures QueueInv(g, player, queue, visited, prev + {e.cell}) && OrderInv(g, player, order, visited)
    ensures forall i :: 0 <= i < |queue| ==> |e.path| <= |queue[i].path| <= |e.path| + 1
    ensures Closed(g, prev + {e.cell}, visited)
    ensures visited0 <= visited
    ensures queue0 <= queue
    ensures forall i :: |queue0| <= i < |queue| ==>
              Adjacent(e.cell, queue[i].cell) && Passable(g, queue[i].cell) && queue[i].cell !in visited0 &&
              queue[i].path == e.path + [queue[i].cell]
    ensures visited == visited0 + Cells(queue[|queue0|..])
    ensures forall m :: 0 <= m < |Moves| && Passable(g, Step(e.cell, m)) && Step(e.cell, m) !in visited0 ==>
              Step(e.cell, m) in Cells(queue[|queue0|..])
  {
    queue, visited, order := queue0, visited0, order0;
    assert queue0[|queue0|..] == [] && Cells([]) == {};
    for m := 0 to |Moves|
      invariant ExpandInv(g, player, e, prev, visited0, queue, visited, order, m)
      invariant Grown(e, queue0, visited0, queue, visited)
    {
      var n := Step(e.cell, m);
      if 0 <= n.r < Rows(g) && 0 <= n.c < Cols(g) && g[n.r][n.c] != Wall && n !in visited {
        EnqueueStep(g, player, e, prev, visited0, queue, visited, order, m);
        GrowStep(e, queue0, visited0, queue, visited, n);
        visited := visited + {n};
        queue := queue + [Entry(n, e.path + [n])];
        order := order + [n];
      } else {
        SkipStep(g, player, e, prev, visited0, queue, visited, order, m);
      }
    }
    CloseCell(g, prev, e.cell, visited);
    NewEntriesPassable(g, player, queue0, queue);
    forall m | 0 <= m < |Moves| && Passable(g, Step(e.cell, m)) && Step(e.cell, m) !in visited0
      ensures Step(e.cell, m) in Cells(queue[|queue0|..])
    {
      StepAdjacent(e.cell, m);
    }
  }

  /** Every entry enqueued after `queue0` holds a cell that is in bounds and not a wall. */
  lemma NewEntriesPassable(g: Grid, s: Pos, queue0: seq<Entry>, queue: seq<Entry>)
    requires queue0 <= queue && forall i :: 0 <= i < |queue| ==> Sound(g, s, queue[i])
    requires forall i :: |queue0| <= i < |queue| ==> |queue[i].path| > 1
    ensures forall i :: |queue0| <= i < |queue| ==> Passable(g, queue[i].cell)
  {
    forall i | |queue0| <= i < |queue|
      ensures Passable(g, queue[i].cell)
    {
      var q := queue[i].path;
      assert StepOk(g, q, |q| - 1);
    }
  }

  /**
   * What the expansion of `e` adds: the old queue stays in front, every new
   * entry is an unvisited neighbour of `e`'s cell carrying `e`'s path extended
   * by that neighbour, and the newly visited cells are exactly the new entries'.
   */
  ghost predicate Grown(e: Entry, queue0: seq<Entry>, visited0: set<Pos>, queue: seq<Entry>, visited: set<Pos>) {
    && queue0 <= queue
    && (forall i :: |queue0| <= i < |queue| ==>
          Adjacent(e.cell, queue[i].cell) && queue[i].cell !in visited0 && queue[i].path == e.path + [queue[i].cell])
    && visited == visited0 + Cells(queue[|queue0|..])
  }

  /** Enqueueing an unvisited neighbour of `e`'s cell keeps what the expansion adds as described. */
  lemma GrowStep(e: Entry, queue0: seq<Entry>, visited0: set<Pos>, queue: seq<Entry>, visited: set<Pos>, n: Pos)
    requires Grown(e, queue0, visited0, queue, visited) && visited0 <= visited
    requires Adjacent(e.cell, n) && n !in visited
    ensures Grown(e, queue0, visited0, queue + [Entry(n, e.path + [n])], visited + {n})
  {
    var x := Entry(n, e.path + [n]);
    assert (queue + [x])[|queue0|..] == queue[|queue0|..] + [x];
    CellsOfAppend(queue[|queue0|..], x);
  }

  /** The move `m` from `u` has been tried: if it leads to a passable cell, that cell is visited. */
  ghost predicate Handled(g: Grid, u: Pos, m: int, visited: set<Pos>) {
    0 <= m < |Moves| && (Passable(g, Step(u, m)) ==> Step(u, m) in visited)
  }

  /** The invariant of the loop over the moves of `e`, after the first `m` of them. */
  ghost predicate ExpandInv(g: Grid, s: Pos, e: Entry, prev: set<Pos>, visited0: set<Pos>,
                            queue: seq<Entry>, visited: set<Pos>, order: seq<Pos>, m: int)
  {
    && QueueInv(g, s, queue, visited, prev + {e.cell}) && OrderInv(g, s, order, visited)
    && (forall i :: 0 <= i < |queue| ==> |e.path| <= |queue[i].path| <= |e.path| + 1)
    && Closed(g, prev, visited) && visited0 <= visited
    && (forall j :: 0 <= j < m ==> Handled(g, e.cell, j, visited))
  }

  lemma EnqueueStep(g: Grid, s: Pos, e: Entry, prev: set<Pos>, visited0: set<Pos>,
                    queue: seq<Entry>, visited: set<Pos>, order: seq<Pos>, m: nat)
    requires ExpandInv(g, s, e, prev, visited0, queue, visited, order, m) && m < |Moves|
    requires Sound(g, s, e) && Settled(g, s, prev, |e.path|)
    requires Passable(g, Step(e.cell, m)) && Step(e.cell, m) !in visited
    ensures ExpandInv(g, s, e, prev, visited0, queue + [Entry(Step(e.cell, m), e.path + [Step(e.cell, m)])],
                      visited + {Step(e.cell, m)}, order + [Step(e.cell, m)], m + 1)
  {
    var n := Step(e.cell, m);
    StepAdjacent(e.cell, m);
    Enqueue(g, s, queue, visited, prev + {e.cell}, order, prev, e, n);
    forall j | 0 <= j < m + 1
      ensures Handled(g, e.cell, j, visited + {n})
    {
      if j < m {
        assert Handled(g, e.cell, j, visited);
      }
    }
  }

  lemma SkipStep(g: Grid, s: Pos, e: Entry, prev: set<Pos>, visited0: set<Pos>,
                 queue: seq<Entry>, visited: set<Pos>, order: seq<Pos>, m: nat)
    requires ExpandInv(g, s, e, prev, visited0, queue, visited, order, m) && m < |Moves|
    requires !Passable(g, Step(e.cell, m)) || Step(e.cell, m) in visited
    ensures ExpandInv(g, s, e, prev, visited0, queue, visited, order, m + 1)
  {
    assert Handled(g, e.cell, m, visited);
  }

  /** Enqueueing an unvisited passable neighbour of the expanded head keeps the invariants of the expansion. */
  lemma Enqueue(g: Grid, s: Pos, queue: seq<Entry>, visited: set<Pos>, done: set<Pos>, order: seq<Pos>,
                prev: set<Pos>, e: Entry, n: Pos)
    requires QueueInv(g, s, queue, visited, done) && OrderInv(g, s, order, visited)
    requires Sound(g, s, e) && Passable(g, n) && Adjacent(e.cell, n) && n !in visited
    requires Settled(g, s, prev, |e.path|) && Closed(g, prev, visited)
    requires forall i :: 0 <= i < |queue| ==> |e.path| <= |queue[i].path| <= |e.path| + 1
    ensures QueueInv(g, s, queue + [Entry(n, e.path + [n])], visited + {n}, done)
    ensures OrderInv(g, s, order + [n], visited + {n})
    ensures forall i :: 0 <= i < |queue| + 1 ==> |e.path| <= |(queue + [Entry(n, e.path + [n])])[i].path| <= |e.path| + 1
  {
    var x := Entry(n, e.path + [n]);
    NewEntrySound(g, s, prev, visited, e, n);
    CellsOfAppend(queue, x);
    assert n in AllCells(g);
    AppendEntry(g, s, queue, x, Cells(queue));
    AppendCell(g, s, order, n, visited);
  }

  /** Appending a sound entry for a new cell, with the longest path so far, keeps the entry-wise invariants. */
  lemma AppendEntry(g: Grid, s: Pos, queue: seq<Entry>, x: Entry, cells: set<Pos>)
    requires cells == Cells(queue) && x.cell !in cells && Sound(g, s, x)
    requires forall i :: 0 <= i < |queue| ==> Sound(g, s, queue[i])
    requires forall i, j :: 0 <= i < j < |queue| ==> queue[i].cell != queue[j].cell
    requires forall i, j :: 0 <= i < j < |queue| ==> |queue[i].path| <= |queue[j].path|
    requires forall i :: 0 <= i < |queue| ==> |queue[i].path| <= |x.path|
    ensures forall i :: 0 <= i < |queue + [x]| ==> Sound(g, s, (queue + [x])[i])
    ensures forall i, j :: 0 <= i < j < |queue + [x]| ==> (queue + [x])[i].cell != (queue + [x])[j].cell
    ensures forall i, j :: 0 <= i < j < |queue + [x]| ==> |(queue + [x])[i].path| <= |(queue + [x])[j].path|
  {
    forall i | 0 <= i < |queue|
      ensures queue[i].cell != x.cell
    {
      assert queue[i] in queue;
    }
  }

  /** Appending an unvisited passable cell to the enqueue order keeps it free of repeats. */
  lemma AppendCell(g: Grid, s: Pos, order: seq<Pos>, n: Pos, visited: set<Pos>)
    requires OrderInv(g, s, order, visited) && Passable(g, n) && n !in visited
    ensures OrderInv(g, s, order + [n], visited + {n})
  {
    assert forall x :: x in order + [n] <==> x in order || x == n;
  }

  lemma CellsOfTail(queue: seq<Entry>)
    requires queue != []
    requires forall i, j :: 0 <= i < j < |queue| ==> queue[i].cell != queue[j].cell
    ensures Cells(queue) == {queue[0].cell} + Cells(queue[1..])
    ensures queue[0].cell !in Cells(queue[1..])
  {
    assert queue == [queue[0]] + queue[1..];
    forall x | x in queue[1..]
      ensures x.cell != queue[0].cell
    {
      var i :| 0 <= i < |queue[1..]| && queue[1..][i] == x;
      assert queue[i + 1] == x;
    }
    forall c | c in Cells(queue)
      ensures c in {queue[0].cell} + Cells(queue[1..])
    {
      var y :| y in queue && y.cell == c;
      if y != queue[0] {
        assert y in queue[1..];
      }
    }
    forall c | c in Cells(queue[1..])
      ensures c in Cells(queue)
    {
      var y :| y in queue[1..] && y.cell == c;
      assert y in queue;
    }
    assert queue[0] in queue;
  }

  lemma CellsOfAppend(queue: seq<Entry>, e: Entry)
    ensures Cells(queue + [e]) == Cells(queue) + {e.cell}
  {
    forall c | c in Cells(queue + [e])
      ensures c in Cells(queue) + {e.cell}
    {
      var y :| y in queue + [e] && y.cell == c;
      if y != e {
        assert y in queue;
      }
    }
    forall c | c in Cells(queue)
      ensures c in Cells(queue + [e])
    {
      var y :| y in queue && y.cell == c;
      assert y in queue + [e];
    }
    assert e in queue + [e];
  }

  /** A cell enqueued from a head whose path has `k` cells has no walk shorter than `k + 1` cells. */
  lemma NewEntrySound(g: Grid, s: Pos, prev: set<Pos>, visited: set<Pos>, e: Entry, n: Pos)
    requires Sound(g, s, e) && Passable(g, n) && Adjacent(e.cell, n)
    requires Settled(g, s, prev, |e.path|) && Closed(g, prev, visited)
    requires s in visited && n !in visited
    ensures Sound(g, s, Entry(n, e.path + [n]))
  {
    WalkExtend(g, s, e.path, n);
    forall q | IsPath(g, s, n, q)
      ensures |e.path| + 1 <= |q|
    {
      assert |q| > 1;
      WalkPrefix(g, s, q, |q| - 1);
      var y := q[|q| - 2];
      assert StepOk(g, q, |q| - 1);
      assert q[..|q| - 1][|q| - 2] == y && Adjacent(y, n);
      assert y !in prev;
    }
  }

  /** Once all four neighbours of `u` are handled, `u` may join the closed cells. */
  lemma CloseCell(g: Grid, prev: set<Pos>, u: Pos, visited: set<Pos>)
    requires Closed(g, prev, visited)
    requires forall j :: 0 <= j < |Moves| ==> Handled(g, u, j, visited)
    ensures Closed(g, prev + {u}, visited)
  {
    forall x, w | x in prev + {u} && Adjacent(x, w) && Passable(g, w)
      ensures w in visited
    {
      if x == u {
        AdjacentCases(u, w);
        var j :| 0 <= j < |Moves| && w == Step(u, j);
        assert Handled(g, u, j, visited);
      }
    }
  }

  /**
   * After a head with a `k`-cell path is expanded, every walk shorter than the
   * new head's path ends in a closed cell: walks of `k` cells end in a cell
   * that was visited from a closed cell and cannot still be queued, because
   * every queued path is longer.
   */
  lemma AdvanceFrontier(g: Grid, s: Pos, prev: set<Pos>, done: set<Pos>, visited: set<Pos>, queue: seq<Entry>, k: nat)
    requires queue != [] && prev <= done && s in visited
    requires visited == done + Cells(queue)
    requires Settled(g, s, prev, k) && Closed(g, prev, visited)
    requires forall i :: 0 <= i < |queue| ==> Sound(g, s, queue[i])
    requires forall i :: 0 <= i < |queue| ==> k <= |queue[i].path| <= k + 1
    requires forall i, j :: 0 <= i < j < |queue| ==> |queue[i].path| <= |queue[j].path|
    ensures Settled(g, s, done, |queue[0].path|)
  {
    forall q | Walk(g, s, q) && |q| < |queue[0].path|
      ensures q[|q| - 1] in done
    {
      var v := q[|q| - 1];
      if |q| == k {
        if |q| > 1 {
          WalkPrefix(g, s, q, |q| - 1);
          assert q[..|q| - 1][|q| - 2] in prev;
          assert StepOk(g, q, |q| - 1);
        }
        assert v in visited;
        assert forall i :: 0 <= i < |queue| && queue[i].cell == v ==> IsPath(g, s, queue[i].cell, q);
        assert v !in Cells(queue);
      }
    }
  }

  /** Walks from a closed start through a set closed under moves never leave it. */
  lemma {:induction false} ClosedHoldsWalks(g: Grid, s: Pos, done: set<Pos>)
    requires s in done && Closed(g, done, done)
    ensures forall q :: Walk(g, s, q) ==> q[|q| - 1] in done
  {
    forall q | Walk(g, s, q)
      ensures q[|q| - 1] in done
    {
      WalkEndsIn(g, s, done, q);
    }
  }

  lemma {:induction false} WalkEndsIn(g: Grid, s: Pos, done: set<Pos>, q: seq<Pos>)
    requires s in done && Closed(g, done, done) && Walk(g, s, q)
    ensures q[|q| - 1] in done
    decreases |q|
  {
    if |q| > 1 {
      WalkPrefix(g, s, q, |q| - 1);
      WalkEndsIn(g, s, done, q[..|q| - 1]);
      assert StepOk(g, q, |q| - 1) && q[..|q| - 1][|q| - 2] == q[|q| - 2];
    }
  }
}
