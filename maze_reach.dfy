/**
 * Reachability of the start cell (1, 1) through open floor, and the
 * breadth-first search `is_reachable_from_start` of server/src/maze.rs that
 * decides it.
 */
module MazeReach {
  import opened Cells
  import opened MazeGrid

  /** A cell as (row, column). */
  type Cell = (int, int)

  /** The cell every path must reach. */
  const START: Cell := (1, 1)

  /** The four moves as (dx, dy), in the order both loops of maze.rs try them: down, up, right, left. */
  const MOVES: seq<(int, int)> := [(0, 1), (0, -1), (1, 0), (-1, 0)]

  /** A grid of at least one row whose rows all have the width of the first. */
  predicate Rectangular(g: Grid) {
    |g| >= 1 && forall r :: 0 <= r < |g| ==> |g[r]| == |g[0]|
  }

  predicate InBounds(g: Grid, x: Cell)
    requires Rectangular(g)
  {
    0 <= x.0 < |g| && 0 <= x.1 < |g[0]|
  }

  /** An in-bounds cell whose kind is EMPTY. */
  predicate IsOpen(g: Grid, x: Cell)
    requires Rectangular(g)
  {
    InBounds(g, x) && g[x.0][x.1] == EMPTY
  }

  /** The cell one move away from x by MOVES[i]: row + dy, column + dx. */
  function Neighbour(x: Cell, i: int): (n: Cell)
    requires 0 <= i < 4
    ensures n == (x.0 + MOVES[i].1, x.1 + MOVES[i].0)
  {
    if i == 0 then (x.0 + 1, x.1) else if i == 1 then (x.0 - 1, x.1)
    else if i == 2 then (x.0, x.1 + 1) else (x.0, x.1 - 1)
  }

  predicate Adjacent(a: Cell, b: Cell) {
    b == Neighbour(a, 0) || b == Neighbour(a, 1) || b == Neighbour(a, 2) || b == Neighbour(a, 3)
  }

  /** A walk: each step goes to a 4-neighbour that is in bounds and EMPTY (the first cell may be anything). */
  ghost predicate IsWalk(g: Grid, p: seq<Cell>)
    requires Rectangular(g)
  {
    |p| >= 1 && forall k :: 1 <= k < |p| ==> IsOpen(g, p[k]) && Adjacent(p[k - 1], p[k])
  }

  ghost predicate IsWalkBetween(g: Grid, p: seq<Cell>, from: Cell, to: Cell)
    requires Rectangular(g)
  {
    IsWalk(g, p) && p[0] == from && p[|p| - 1] == to
  }

  /** Some walk leads from `from` to the start cell (1, 1). */
  ghost predicate ReachesStart(g: Grid, from: Cell)
    requires Rectangular(g)
  {
    exists p :: IsWalkBetween(g, p, from, START)
  }

  lemma WalkExtend(g: Grid, p: seq<Cell>, from: Cell, x: Cell, n: Cell)
    requires Rectangular(g) && IsWalkBetween(g, p, from, x) && IsOpen(g, n) && Adjacent(x, n)
    ensures IsWalkBetween(g, p + [n], from, n)
  {
    var q := p + [n];
    forall k | 1 <= k < |q|
      ensures IsOpen(g, q[k]) && Adjacent(q[k - 1], q[k])
    {
      if k < |p| {
        assert q[k] == p[k] && q[k - 1] == p[k - 1];
      }
    }
  }

  /** A walk that starts inside a set closed under open neighbours never leaves it. */
  lemma ClosedSetHoldsWalk(g: Grid, p: seq<Cell>, s: set<Cell>)
    requires Rectangular(g) && IsWalk(g, p) && p[0] in s
    requires forall x, i :: x in s && 0 <= i < 4 && IsOpen(g, Neighbour(x, i)) ==> Neighbour(x, i) in s
    ensures forall k :: 0 <= k < |p| ==> p[k] in s
  {
    var k := 1;
    while k < |p|
      invariant 1 <= k <= |p|
      invariant forall j :: 0 <= j < k ==> p[j] in s
    {
      assert Adjacent(p[k - 1], p[k]) && IsOpen(g, p[k]);
      k := k + 1;
    }
  }

  function AllCells(g: Grid): set<Cell>
    requires Rectangular(g)
  {
    set r, c | 0 <= r < |g| && 0 <= c < |g[0]| :: (r, c)
  }

  /** Everything the walks recorded so far say: each recorded cell is reached from `start` by its walk. */
  ghost predicate WalksFrom(g: Grid, start: Cell, paths: map<Cell, seq<Cell>>)
    requires Rectangular(g)
  {
    forall x :: x in paths ==> IsWalkBetween(g, paths[x], start, x)
  }

  /** Every visited cell, and `start`, has a recorded walk from `start`. */
  ghost predicate Recorded(g: Grid, start: Cell, visited: set<Cell>, paths: map<Cell, seq<Cell>>)
    requires Rectangular(g)
  {
    start in paths && WalksFrom(g, start, paths) && forall x :: x in visited ==> x in paths
  }

  /** Visiting an open neighbour of a recorded cell records the walk through that cell. */
  lemma RecordedStep(g: Grid, start: Cell, visited: set<Cell>, paths: map<Cell, seq<Cell>>, cur: Cell, n: Cell)
    requires Rectangular(g) && Recorded(g, start, visited, paths) && cur in paths
    requires IsOpen(g, n) && Adjacent(cur, n)
    ensures Recorded(g, start, visited + {n}, paths[n := paths[cur] + [n]])
  {
    WalkExtend(g, paths[cur], start, cur, n);
  }

  /**
   * The search has gone from (visited, queue) to (v, q): q extends queue by
   * exactly the cells v adds to visited, each once.
   */
  ghost predicate Grown(visited: set<Cell>, queue: seq<Cell>, v: set<Cell>, q: seq<Cell>) {
    visited <= v && |v| - |visited| == |q| - |queue| &&
    |queue| <= |q| && q[..|queue|] == queue &&
    (forall x :: x in q[|queue|..] ==> x in v - visited) &&
    (forall x :: x in v - visited ==> x in q)
  }

  /** Visiting and queueing one more unvisited cell keeps the growth exact. */
  lemma GrownStep(visited: set<Cell>, queue: seq<Cell>, v: set<Cell>, q: seq<Cell>, n: Cell)
    requires Grown(visited, queue, v, q) && n !in v
    ensures Grown(visited, queue, v + {n}, q + [n])
  {
    assert (q + [n])[..|queue|] == queue;
    assert (q + [n])[|queue|..] == q[|queue|..] + [n];
  }

  lemma GrownTransitive(v0: set<Cell>, q0: seq<Cell>, v1: set<Cell>, q1: seq<Cell>, v2: set<Cell>, q2: seq<Cell>)
    requires Grown(v0, q0, v1, q1) && Grown(v1, q1, v2, q2)
    ensures Grown(v0, q0, v2, q2)
  {
    assert q2[..|q0|] == q1[..|q1|][..|q0|];
    forall x | x in q2[|q0|..]
      ensures x in v2 - v0
    {
      var k :| 0 <= k < |q2| - |q0| && q2[|q0|..][k] == x;
      if |q0| + k < |q1| {
        assert q2[|q0| + k] == q2[..|q1|][|q0| + k] == q1[|q0| + k];
        assert q1[|q0|..][k] == x && x in q1[|q0|..];
      } else {
        assert q2[|q1|..][|q0| + k - |q1|] == x && x in q2[|q1|..];
      }
    }
    forall x | x in v2 - v0
      ensures x in q2
    {
      if x in v1 {
        assert x in v1 - v0;
        var k :| 0 <= k < |q1| && q1[k] == x;
        assert q2[..|q1|][k] == x;
      }
    }
  }

  /** After growth the queue holds the old queue and exactly the newly visited cells. */
  lemma GrownMembers(visited: set<Cell>, queue: seq<Cell>, v: set<Cell>, q: seq<Cell>)
    requires Grown(visited, queue, v, q)
    ensures forall x :: x in q ==> x in queue || x in v - visited
    ensures forall x :: x in queue ==> x in q
  {
    forall x | x in q
      ensures x in queue || x in v - visited
    {
      var k :| 0 <= k < |q| && q[k] == x;
      if k < |queue| {
        assert queue[k] == x;
      } else {
        assert q[|queue|..][k - |queue|] == x;
      }
    }
    forall x | x in queue
      ensures x in q
    {
      var k :| 0 <= k < |queue| && queue[k] == x;
      assert q[k] == x;
    }
  }

  /**
   * One pass of the inner loop of the search: every open, unvisited
   * neighbour of `cur`, tried in the order of MOVES, is marked visited and
   * queued (with a walk to it recorded).
   */
  method EnqueueNeighbours(g: Grid, cur: Cell, visited: set<Cell>, queue: seq<Cell>,
                           ghost start: Cell, ghost paths: map<Cell, seq<Cell>>)
    returns (visited': set<Cell>, queue': seq<Cell>, ghost paths': map<Cell, seq<Cell>>)
    requires Rectangular(g) && visited <= AllCells(g)
    requires cur in paths && Recorded(g, start, visited, paths)
    ensures visited' <= AllCells(g) && Grown(visited, queue, visited', queue')
    ensures forall j :: 0 <= j < 4 && IsOpen(g, Neighbour(cur, j)) ==> Neighbour(cur, j) in visited'
    ensures Recorded(g, start, visited', paths')
  {
    visited', queue', paths' := visited, queue, paths;
    var i := 0;
    while i < 4
      invariant 0 <= i <= 4
      invariant visited' <= AllCells(g) && Grown(visited, queue, visited', queue')
      invariant forall j :: 0 <= j < i && IsOpen(g, Neighbour(cur, j)) ==> Neighbour(cur, j) in visited'
      invariant cur in paths' && Recorded(g, start, visited', paths')
    {
      ghost var visited0, queue0 := visited', queue';
      visited', queue', paths' := TryMove(g, cur, i, visited', queue', start, paths');
      GrownTransitive(visited, queue, visited0, queue0, visited', queue');
      i := i + 1;
    }
  }

  /** Visiting an open, unvisited neighbour n of a recorded cell keeps the search state consistent. */
  lemma VisitCell(g: Grid, start: Cell, visited: set<Cell>, queue: seq<Cell>, paths: map<Cell, seq<Cell>>,
                  cur: Cell, n: Cell)
    requires Rectangular(g) && visited <= AllCells(g) && cur in paths && Recorded(g, start, visited, paths)
    requires IsOpen(g, n) && Adjacent(cur, n) && n !in visited
    ensures visited + {n} <= AllCells(g) && Grown(visited, queue, visited + {n}, queue + [n])
    ensures cur in paths[n := paths[cur] + [n]] && Recorded(g, start, visited + {n}, paths[n := paths[cur] + [n]])
  {
    RecordedStep(g, start, visited, paths, cur, n);
    GrownStep(visited, queue, visited, queue, n);
  }

  /** One move of the inner loop: the neighbour by MOVES[i], if open and unvisited, is marked visited and queued. */
  method TryMove(g: Grid, cur: Cell, i: nat, visited: set<Cell>, queue: seq<Cell>,
                 ghost start: Cell, ghost paths: map<Cell, seq<Cell>>)
    returns (visited': set<Cell>, queue': seq<Cell>, ghost paths': map<Cell, seq<Cell>>)
    requires Rectangular(g) && visited <= AllCells(g) && i < 4
    requires cur in paths && Recorded(g, start, visited, paths)
    ensures visited' <= AllCells(g) && Grown(visited, queue, visited', queue')
    ensures IsOpen(g, Neighbour(cur, i)) ==> Neighbour(cur, i) in visited'
    ensures if IsOpen(g, Neighbour(cur, i)) && Neighbour(cur, i) !in visited
            then visited' == visited + {Neighbour(cur, i)} && queue' == queue + [Neighbour(cur, i)]
            else visited' == visited && queue' == queue
    ensures cur in paths' && Recorded(g, start, visited', paths')
  {
    visited', queue', paths' := visited, queue, paths;
    var (dx, dy) := MOVES[i];
    var newRow := cur.0 + dy;
    var newCol := cur.1 + dx;
    assert (newRow, newCol) == Neighbour(cur, i);
    if 0 <= newRow < |g| && 0 <= newCol < |g[0]| && g[newRow][newCol] == EMPTY
       && (newRow, newCol) !in visited
    {
      var n := (newRow, newCol);
      VisitCell(g, start, visited, queue, paths, cur, n);
      paths' := paths[n := paths[cur] + [n]];
      visited' := visited + {n};
      queue' := queue + [n];
    }
  }

  /**
   * Breadth-first search from (startRow, startCol) over EMPTY cells: true
   * exactly when some walk leads to the start cell (1, 1).
   */
  method IsReachableFromStart(g: Grid, startRow: nat, startCol: nat) returns (found: bool)
    requires Rectangular(g) && InBounds(g, (startRow, startCol))
    ensures found <==> ReachesStart(g, (startRow, startCol))
  {
    var start: Cell := (startRow, startCol);
    var visited: set<Cell> := {};
    var queue: seq<Cell> := [start];
    ghost var all := AllCells(g);
    ghost var done: set<Cell> := {};
    ghost var paths: map<Cell, seq<Cell>> := map[start := [start]];
    while |queue| > 0
      invariant visited <= all
      invariant forall x :: x in queue ==> x == start || x in visited
      invariant Recorded(g, start, visited, paths)
      invariant forall x :: (x == start || x in visited) ==> x in done || x in queue
      invariant forall x :: x in done ==> x == start || x in visited
      invariant forall x, i :: x in done && 0 <= i < 4 && IsOpen(g, Neighbour(x, i)) ==> Neighbour(x, i) in visited
      invariant START !in done
      decreases |all| - |visited|, |queue|
    {
      SubsetCardinality(visited, all);
      var cur := queue[0];
      ghost var queueBefore := queue;
      queue := queue[1..];
      assert forall x :: x in queue ==> x in queueBefore;
      if cur == START {
        assert IsWalkBetween(g, paths[cur], start, START);
        return true;
      }
      ghost var visited0, queue0 := visited, queue;
      visited, queue, paths := EnqueueNeighbours(g, cur, visited, queue, start, paths);
      done := done + {cur};
      SubsetCardinality(visited, all);
      GrownMembers(visited0, queue0, visited, queue);
    }
    if ReachesStart(g, start) {
      var p :| IsWalkBetween(g, p, start, START);
      ClosedSetHoldsWalk(g, p, done + {start});
      assert false;
    }
    return false;
  }

  /** The walk left along row r to column 1, then up column 1 to row 1. */
  function LeftThenUp(r: int, c: int): seq<Cell>
    requires r >= 1 && c >= 1
  {
    seq(c - 1 + r, k => if k < c then (r, c - k) else (r - (k - c + 1), 1))
  }

  /** The walk up column c to row 1, then left along row 1 to column 1. */
  function UpThenLeft(r: int, c: int): seq<Cell>
    requires r >= 1 && c >= 1
  {
    seq(r - 1 + c, k => if k < r then (r - k, c) else (1, c - (k - r + 1)))
  }

  /**
   * When the ring just inside the border is all EMPTY, every ring cell has a
   * walk to (1, 1) along the ring.
   */
  lemma RingReachesStart(g: Grid, r: int, c: int)
    requires IsGrid(g) && RingIsOpen(g) && OnRing(r, c)
    ensures Rectangular(g) && ReachesStart(g, (r, c))
  {
    if r == 1 || c == 1 || r == MAZE_HEIGHT - 2 {
      var p := LeftThenUp(r, c);
      forall k | 1 <= k < |p|
        ensures IsOpen(g, p[k]) && Adjacent(p[k - 1], p[k])
      {
        if k < c {
          assert p[k] == Neighbour(p[k - 1], 3);
        } else {
          assert p[k] == Neighbour(p[k - 1], 1);
        }
      }
      assert IsWalkBetween(g, p, (r, c), START);
    } else {
      var p := UpThenLeft(r, c);
      forall k | 1 <= k < |p|
        ensures IsOpen(g, p[k]) && Adjacent(p[k - 1], p[k])
      {
        if k < r {
          assert p[k] == Neighbour(p[k - 1], 1);
        } else {
          assert p[k] == Neighbour(p[k - 1], 3);
        }
      }
      assert IsWalkBetween(g, p, (r, c), START);
    }
  }
}
