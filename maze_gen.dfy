/**
 * The maze generator of server/src/maze.rs: erosion of the wall bands,
 * re-adding obstacles, the local repair of enclosed cells, sprinkling of
 * breakable walls, and the flattened result `select_maze` hands the game.
 *
 * The random generator is a finite sequence of raw draws (Cells.GenRange
 * turns one into a `gen_range` value). A rejection loop that runs out of
 * draws stops there and reports it: the Rust loop would go on sampling.
 */
module MazeGen {
  import opened Cells
  import opened MazeGrid
  import opened MazeReach

  /** The columns of `row` in which `after` differs from `before`. */
  function ChangedColumns(before: Grid, after: Grid, row: int): set<int>
    requires IsGrid(before) && IsGrid(after) && 0 <= row < MAZE_HEIGHT
  {
    set c | 0 <= c < MAZE_WIDTH && after[row][c] != before[row][c]
  }

  /** The cells in which `after` differs from `before`. */
  function ChangedCells(before: Grid, after: Grid): set<Cell>
    requires IsGrid(before) && IsGrid(after)
  {
    set r, c | 0 <= r < MAZE_HEIGHT && 0 <= c < MAZE_WIDTH && after[r][c] != before[r][c] :: (r, c)
  }

  /** `after` equals `before` except possibly in `row`, between columns 2 and MAZE_WIDTH-3. */
  ghost predicate OnlyRowInterior(before: Grid, after: Grid, row: int)
    requires IsGrid(before) && IsGrid(after)
  {
    forall r, c :: 0 <= r < MAZE_HEIGHT && 0 <= c < MAZE_WIDTH && (r != row || c < 2 || c >= MAZE_WIDTH - 2) ==>
      after[r][c] == before[r][c]
  }

  /**
   * The invariant of both row passes: `m` differs from `maze` only in `row`,
   * between columns 2 and MAZE_WIDTH-3, and every changed cell holds a value
   * of `vals` between two cells holding `nb`.
   */
  ghost predicate PlacedBetween(maze: Grid, m: Grid, row: int, nb: Byte, vals: set<Byte>) {
    IsGrid(maze) && IsGrid(m) && 0 <= row < MAZE_HEIGHT && OnlyRowInterior(maze, m, row) &&
    forall c :: 0 <= c < MAZE_WIDTH && m[row][c] != maze[row][c] ==>
      2 <= c < MAZE_WIDTH - 2 && m[row][c] in vals && m[row][c - 1] == nb && m[row][c + 1] == nb
  }

  /** Writing a value of `vals` between two `nb` cells keeps the invariant and changes one more column at most. */
  lemma PlaceStep(maze: Grid, m: Grid, row: int, x: int, v: Byte, nb: Byte, vals: set<Byte>)
    requires PlacedBetween(maze, m, row, nb, vals) && nb !in vals && v in vals
    requires 2 <= x < MAZE_WIDTH - 2 && m[row][x - 1] == nb && m[row][x + 1] == nb
    ensures PlacedBetween(maze, SetCell(m, row, x, v), row, nb, vals)
    ensures ChangedColumns(maze, SetCell(m, row, x, v), row) <= ChangedColumns(maze, m, row) + {x}
  {
    var m' := SetCell(m, row, x, v);
    forall c | 0 <= c < MAZE_WIDTH && m'[row][c] != maze[row][c] && c != x
      ensures m'[row][c - 1] == nb && m'[row][c + 1] == nb
    {
      assert m[row][c] in vals;
    }
  }

  /** What the invariant says about the changed columns, in terms of the original row. */
  lemma PlacedColumns(maze: Grid, m: Grid, row: int, nb: Byte, vals: set<Byte>)
    requires PlacedBetween(maze, m, row, nb, vals) && nb !in vals
    ensures forall c :: c in ChangedColumns(maze, m, row) ==>
      2 <= c < MAZE_WIDTH - 2 && m[row][c] in vals && maze[row][c - 1] == nb && maze[row][c + 1] == nb
    ensures forall c :: c in ChangedColumns(maze, m, row) ==> c + 1 !in ChangedColumns(maze, m, row)
  {
    forall c | c in ChangedColumns(maze, m, row)
      ensures maze[row][c - 1] == nb && maze[row][c + 1] == nb && c + 1 !in ChangedColumns(maze, m, row)
    {
      assert m[row][c - 1] == nb && m[row][c + 1] == nb;
    }
  }

  /**
   * Row `row` of `after` is row `row` of `before` with at most `count` cells
   * set to a value of `vals`, each in a column of [2, MAZE_WIDTH-2) whose two
   * horizontal neighbours held `nb` in `before`, and no two of them adjacent.
   */
  ghost predicate RowPlaced(before: Grid, after: Grid, row: int, nb: Byte, vals: set<Byte>, count: nat)
    requires IsGrid(before) && IsGrid(after) && 0 <= row < MAZE_HEIGHT
  {
    (forall c :: c in ChangedColumns(before, after, row) ==>
      2 <= c < MAZE_WIDTH - 2 && after[row][c] in vals && before[row][c - 1] == nb && before[row][c + 1] == nb &&
      c + 1 !in ChangedColumns(before, after, row)) &&
    |ChangedColumns(before, after, row)| <= count
  }

  /**
   * One erosion loop (maze.rs, the `while removed_bricks < num_removed_bricks`
   * loops): draw a column in [2, width-2) and clear it when both its
   * horizontal neighbours are walls, until `count` clearings happened.
   * `done` is false only when the draws ran out first.
   */
  method ErodeRow(maze: Grid, row: int, count: nat, draws: seq<nat>)
    returns (eroded: Grid, rest: seq<nat>, done: bool)
    requires IsGrid(maze) && 0 <= row < MAZE_HEIGHT
    ensures IsGrid(eroded) && IsSuffix(rest, draws)
    ensures done || rest == []
    ensures OnlyRowInterior(maze, eroded, row)
    ensures RowPlaced(maze, eroded, row, WALL, {EMPTY}, count)
  {
    var m := maze;
    var k := 0;
    var removed := 0;
    while removed < count && k < |draws|
      invariant 0 <= k <= |draws| && removed <= count
      invariant PlacedBetween(maze, m, row, WALL, {EMPTY})
      invariant |ChangedColumns(maze, m, row)| <= removed
      decreases |draws| - k
    {
      var randomIndex := GenRange(2, MAZE_WIDTH - 2, draws[k]);
      k := k + 1;
      if AdjacentIs(WALL, randomIndex, row, m) {
        ghost var before := ChangedColumns(maze, m, row);
        PlaceStep(maze, m, row, randomIndex, EMPTY, WALL, {EMPTY});
        m := SetCell(m, row, randomIndex, EMPTY);
        SubsetCardinality(ChangedColumns(maze, m, row), before + {randomIndex});
        removed := removed + 1;
      }
    }
    PlacedColumns(maze, m, row, WALL, {EMPTY});
    done := removed == count;
    eroded, rest := m, draws[k..];
  }

  /**
   * One obstacle loop (maze.rs, the `while added_bricks < ..` loops): draw a
   * column in [2, width-2); when both horizontal neighbours are EMPTY, put a
   * wall there, turned breakable when a second draw in [0, 10) exceeds 3.
   */
  method AddObstacleRow(maze: Grid, row: int, count: nat, draws: seq<nat>)
    returns (added: Grid, rest: seq<nat>, done: bool)
    requires IsGrid(maze) && 0 <= row < MAZE_HEIGHT
    ensures IsGrid(added) && IsSuffix(rest, draws)
    ensures done || rest == []
    ensures OnlyRowInterior(maze, added, row)
    ensures RowPlaced(maze, added, row, EMPTY, {WALL, BREAKABLE}, count)
  {
    var m := maze;
    var k := 0;
    var addedBricks := 0;
    while addedBricks < count && k < |draws|
      invariant 0 <= k <= |draws| && addedBricks <= count
      invariant PlacedBetween(maze, m, row, EMPTY, {WALL, BREAKABLE})
      invariant |ChangedColumns(maze, m, row)| <= addedBricks
      decreases |draws| - k
    {
      var randomIndex := GenRange(2, MAZE_WIDTH - 2, draws[k]);
      k := k + 1;
      if AdjacentIs(EMPTY, randomIndex, row, m) && k < |draws| {
        var coin := GenRange(0, 10, draws[k]);
        k := k + 1;
        var brick := if coin > 3 then BREAKABLE else WALL;
        ghost var before := ChangedColumns(maze, m, row);
        PlaceStep(maze, m, row, randomIndex, brick, EMPTY, {WALL, BREAKABLE});
        m := SetCell(m, row, randomIndex, brick);
        SubsetCardinality(ChangedColumns(maze, m, row), before + {randomIndex});
        addedBricks := addedBricks + 1;
      }
    }
    PlacedColumns(maze, m, row, EMPTY, {WALL, BREAKABLE});
    done := addedBricks == count;
    added, rest := m, draws[k..];
  }

  /**
   * `after` is `before` with exactly 2 * count cells turned from WALL into
   * BREAKABLE, all with row and column in [2, 22).
   */
  ghost predicate Sprinkled(before: Grid, after: Grid, count: nat) {
    IsGrid(before) && IsGrid(after) &&
    (forall x :: x in ChangedCells(before, after) ==>
      2 <= x.0 < MAZE_HEIGHT - 2 && 2 <= x.1 < MAZE_WIDTH - 2 &&
      before[x.0][x.1] == WALL && after[x.0][x.1] == BREAKABLE) &&
    |ChangedCells(before, after)| == 2 * count
  }

  /**
   * `add_breakable_walls`: draw a cell with row and column in [2, len-2)
   * and turn it from WALL into BREAKABLE, until 2 * count cells were turned.
   * `done` is false only when fewer than the two draws of a try were left.
   */
  method AddBreakableWalls(maze: Grid, count: nat, draws: seq<nat>)
    returns (sprinkled: Grid, rest: seq<nat>, done: bool)
    requires IsGrid(maze)
    ensures IsGrid(sprinkled) && IsSuffix(rest, draws)
    ensures done || |rest| < 2
    ensures forall x :: x in ChangedCells(maze, sprinkled) ==>
      2 <= x.0 < MAZE_HEIGHT - 2 && 2 <= x.1 < MAZE_WIDTH - 2 &&
      maze[x.0][x.1] == WALL && sprinkled[x.0][x.1] == BREAKABLE
    ensures |ChangedCells(maze, sprinkled)| <= 2 * count
    ensures done ==> |ChangedCells(maze, sprinkled)| == 2 * count && Sprinkled(maze, sprinkled, count)
  {
    var m := maze;
    var k := 0;
    var totalAdded := count * 2;
    while totalAdded > 0 && k + 1 < |draws|
      invariant IsGrid(m) && 0 <= k <= |draws| && 0 <= totalAdded <= 2 * count
      invariant forall x :: x in ChangedCells(maze, m) ==>
        2 <= x.0 < MAZE_HEIGHT - 2 && 2 <= x.1 < MAZE_WIDTH - 2 &&
        maze[x.0][x.1] == WALL && m[x.0][x.1] == BREAKABLE
      invariant |ChangedCells(maze, m)| == 2 * count - totalAdded
      decreases |draws| - k
    {
      var randRow := GenRange(2, |m| - 2, draws[k]);
      var randCol := GenRange(2, |m[0]| - 2, draws[k + 1]);
      k := k + 2;
      if m[randRow][randCol] == WALL {
        ghost var before := ChangedCells(maze, m);
        m := SetCell(m, randRow, randCol, BREAKABLE);
        assert ChangedCells(maze, m) == before + {(randRow, randCol)};
        totalAdded := totalAdded - 1;
      }
    }
    sprinkled, rest, done := m, draws[k..], totalAdded == 0;
  }

  // ---------------------------------------------------------------------
  // Repair of enclosed cells

  /** The grid of the repair pass: rectangular, with at least one column. */
  predicate RepairableGrid(g: Grid) {
    Rectangular(g) && |g[0]| >= 1
  }

  predicate SameShape(a: Grid, b: Grid) {
    |a| == |b| && forall r :: 0 <= r < |a| ==> |a[r]| == |b[r]|
  }

  /** (i, j) is a cell the repair loops visit: row in [1, len-1), column in [1, width-1). */
  predicate Visited(g: Grid, i: int, j: int)
    requires RepairableGrid(g)
  {
    1 <= i < |g| - 1 && 1 <= j < |g[0]| - 1
  }

  /**
   * The inner loop of `fix_enclosed_areas` from move k on: open the first
   * neighbour of (i, j) that is a WALL, trying down, up, right, left.
   */
  function OpenFirstWall(g: Grid, i: int, j: int, k: nat): (g': Grid)
    requires RepairableGrid(g) && Visited(g, i, j) && k <= 4
    ensures RepairableGrid(g') && SameShape(g, g')
    decreases 4 - k
  {
    if k == 4 then g
    else
      var n := Neighbour((i, j), k);
      if g[n.0][n.1] == WALL then SetCell(g, n.0, n.1, EMPTY) else OpenFirstWall(g, i, j, k + 1)
  }

  /** What the repair pass does at (i, j): an EMPTY cell with no walk to (1, 1) gets one wall neighbour opened. */
  ghost function RepairCell(g: Grid, i: int, j: int): (g': Grid)
    requires RepairableGrid(g) && Visited(g, i, j)
    ensures RepairableGrid(g') && SameShape(g, g')
  {
    if g[i][j] == EMPTY && !ReachesStart(g, (i, j)) then OpenFirstWall(g, i, j, 0) else g
  }

  /** The last column bound of the inner `for j` loop, as a loop counter can reach it. */
  function ColumnEnd(g: Grid): int
    requires RepairableGrid(g)
  {
    if |g[0]| >= 2 then |g[0]| - 1 else 1
  }

  function RowEnd(g: Grid): int
    requires RepairableGrid(g)
  {
    if |g| >= 2 then |g| - 1 else 1
  }

  /** The repair pass applied to row i, columns 1 to j-1, in order. */
  ghost function FixRow(g: Grid, i: int, j: int): (g': Grid)
    requires RepairableGrid(g) && 1 <= i < |g| - 1 && 1 <= j <= ColumnEnd(g)
    ensures RepairableGrid(g') && SameShape(g, g')
    decreases j
  {
    if j == 1 then g else RepairCell(FixRow(g, i, j - 1), i, j - 1)
  }

  /** The repair pass applied to rows 1 to i-1, in order. */
  ghost function FixRows(g: Grid, i: int): (g': Grid)
    requires RepairableGrid(g) && 1 <= i <= RowEnd(g)
    ensures RepairableGrid(g') && SameShape(g, g')
    decreases i
  {
    if i == 1 then g else FixRow(FixRows(g, i - 1), i - 1, ColumnEnd(g))
  }

  /** `after` differs from `before` only where a WALL became EMPTY. */
  ghost predicate OnlyOpensWalls(before: Grid, after: Grid) {
    SameShape(before, after) &&
    forall r, c :: 0 <= r < |before| && 0 <= c < |before[r]| && after[r][c] != before[r][c] ==>
      before[r][c] == WALL && after[r][c] == EMPTY
  }

  /**
   * The body of the inner `for j` loop of `fix_enclosed_areas` at (i, j):
   * an EMPTY cell from which the breadth-first search finds no walk to
   * (1, 1) gets its first WALL neighbour (down, up, right, left) opened.
   */
  method RepairAt(maze: Grid, i: int, j: int) returns (repaired: Grid)
    requires RepairableGrid(maze) && Visited(maze, i, j)
    ensures repaired == RepairCell(maze, i, j)
  {
    repaired := maze;
    if maze[i][j] == EMPTY {
      var reachable := IsReachableFromStart(maze, i, j);
      if !reachable {
        var k := 0;
        while k < 4
          invariant 0 <= k <= 4
          invariant OpenFirstWall(maze, i, j, 0) == OpenFirstWall(maze, i, j, k)
        {
          var (dx, dy) := MOVES[k];
          var newRow := i + dy;
          var newCol := j + dx;
          assert (newRow, newCol) == Neighbour((i, j), k);
          if maze[newRow][newCol] == WALL {
            repaired := SetCell(maze, newRow, newCol, EMPTY);
            return;
          }
          k := k + 1;
        }
      }
    }
  }

  /** The inner `for j` loop of `fix_enclosed_areas` over row i. */
  method RepairRow(maze: Grid, i: int) returns (repaired: Grid)
    requires RepairableGrid(maze) && 1 <= i < |maze| - 1
    ensures repaired == FixRow(maze, i, ColumnEnd(maze))
  {
    repaired := maze;
    var j := 1;
    while j < |maze[0]| - 1
      invariant 1 <= j <= ColumnEnd(maze)
      invariant repaired == FixRow(maze, i, j)
    {
      repaired := RepairAt(repaired, i, j);
      j := j + 1;
    }
  }

  /**
   * `fix_enclosed_areas`: every visited cell, in row-major order, is
   * repaired as RepairAt says. On the 24x24 grid with an open ring the
   * border and the ring come out unchanged.
   */
  method FixEnclosedAreas(maze: Grid) returns (fixed: Grid)
    requires RepairableGrid(maze)
    ensures fixed == FixRows(maze, RowEnd(maze))
    ensures OnlyOpensWalls(maze, fixed)
    ensures IsGrid(maze) && RingIsOpen(maze) ==>
      IsGrid(fixed) && RingIsOpen(fixed) && BorderUnchanged(maze, fixed)
  {
    fixed := maze;
    var i := 1;
    while i < |maze| - 1
      invariant 1 <= i <= RowEnd(maze)
      invariant fixed == FixRows(maze, i)
    {
      fixed := RepairRow(fixed, i);
      i := i + 1;
    }
    FixOnlyOpensWalls(maze);
    if IsGrid(maze) && RingIsOpen(maze) {
      FixKeepsBorder(maze);
    }
  }

  // ---------------------------------------------------------------------
  // What the repair pass does and does not change

  /** Neighbour q of (i, j), in the order down, up, right, left, is a WALL. */
  predicate NeighbourIsWall(g: Grid, i: int, j: int, q: int)
    requires RepairableGrid(g) && Visited(g, i, j) && 0 <= q < 4
  {
    var n := Neighbour((i, j), q);
    g[n.0][n.1] == WALL
  }

  /** The first move from k on, in the order down, up, right, left, that leads into a WALL; 4 when there is none. */
  function FirstWall(g: Grid, i: int, j: int, k: nat): (q: int)
    requires RepairableGrid(g) && Visited(g, i, j) && k <= 4
    ensures k <= q <= 4
    ensures q < 4 ==> NeighbourIsWall(g, i, j, q)
    ensures forall p :: k <= p < q ==> !NeighbourIsWall(g, i, j, p)
    decreases 4 - k
  {
    if k == 4 then 4 else if NeighbourIsWall(g, i, j, k) then k else FirstWall(g, i, j, k + 1)
  }

  /**
   * The inner loop opens at most one cell: the first neighbour, in the
   * order down, up, right, left, that is a WALL; with none, nothing changes.
   */
  lemma {:induction false} OpenFirstWallOpensFirst(g: Grid, i: int, j: int, k: nat)
    requires RepairableGrid(g) && Visited(g, i, j) && k <= 4
    ensures var q := FirstWall(g, i, j, k);
      OpenFirstWall(g, i, j, k) ==
        if q == 4 then g else SetCell(g, Neighbour((i, j), q).0, Neighbour((i, j), q).1, EMPTY)
    decreases 4 - k
  {
    if k < 4 && !NeighbourIsWall(g, i, j, k) {
      OpenFirstWallOpensFirst(g, i, j, k + 1);
    }
  }

  /** The inner loop changes no cell but the four neighbours of (i, j). */
  lemma {:induction false} OpenFirstWallTouchesNeighbours(g: Grid, i: int, j: int, k: nat)
    requires RepairableGrid(g) && Visited(g, i, j) && k <= 4
    ensures forall r, c :: 0 <= r < |g| && 0 <= c < |g[r]| && OpenFirstWall(g, i, j, k)[r][c] != g[r][c] ==>
      (r == i && (c == j - 1 || c == j + 1)) || (c == j && (r == i - 1 || r == i + 1))
    decreases 4 - k
  {
    if k < 4 {
      OpenFirstWallTouchesNeighbours(g, i, j, k + 1);
    }
  }

  lemma OnlyOpensWallsTransitive(a: Grid, b: Grid, c: Grid)
    requires OnlyOpensWalls(a, b) && OnlyOpensWalls(b, c)
    ensures OnlyOpensWalls(a, c)
  {
  }

  lemma {:induction false} OpenFirstWallOnlyOpens(g: Grid, i: int, j: int, k: nat)
    requires RepairableGrid(g) && Visited(g, i, j) && k <= 4
    ensures OnlyOpensWalls(g, OpenFirstWall(g, i, j, k))
    decreases 4 - k
  {
    if k < 4 {
      var n := Neighbour((i, j), k);
      if g[n.0][n.1] != WALL {
        OpenFirstWallOnlyOpens(g, i, j, k + 1);
      }
    }
  }

  lemma {:induction false} FixRowOnlyOpens(g: Grid, i: int, j: int)
    requires RepairableGrid(g) && 1 <= i < |g| - 1 && 1 <= j <= ColumnEnd(g)
    ensures OnlyOpensWalls(g, FixRow(g, i, j))
    decreases j
  {
    if j > 1 {
      var h := FixRow(g, i, j - 1);
      FixRowOnlyOpens(g, i, j - 1);
      if h[i][j - 1] == EMPTY && !ReachesStart(h, (i, j - 1)) {
        OpenFirstWallOnlyOpens(h, i, j - 1, 0);
      }
      OnlyOpensWallsTransitive(g, h, FixRow(g, i, j));
    }
  }

  lemma {:induction false} FixRowsOnlyOpens(g: Grid, i: int)
    requires RepairableGrid(g) && 1 <= i <= RowEnd(g)
    ensures OnlyOpensWalls(g, FixRows(g, i))
    decreases i
  {
    if i > 1 {
      var h := FixRows(g, i - 1);
      FixRowsOnlyOpens(g, i - 1);
      FixRowOnlyOpens(h, i - 1, ColumnEnd(g));
      OnlyOpensWallsTransitive(g, h, FixRows(g, i));
    }
  }

  /** The whole repair pass only ever turns WALL cells into EMPTY ones. */
  lemma FixOnlyOpensWalls(g: Grid)
    requires RepairableGrid(g)
    ensures OnlyOpensWalls(g, FixRows(g, RowEnd(g)))
  {
    FixRowsOnlyOpens(g, RowEnd(g));
  }

  ghost predicate BorderUnchanged(before: Grid, after: Grid)
    requires IsGrid(before) && IsGrid(after)
  {
    forall r, c :: 0 <= r < MAZE_HEIGHT && 0 <= c < MAZE_WIDTH && OnGridBorder(r, c) ==> after[r][c] == before[r][c]
  }

  /** Repairing one cell of a grid with an open ring keeps the ring open and the border as it was. */
  lemma RepairCellKeepsBorder(g: Grid, i: int, j: int)
    requires IsGrid(g) && RingIsOpen(g) && 1 <= i < MAZE_HEIGHT - 1 && 1 <= j < MAZE_WIDTH - 1
    ensures IsGrid(RepairCell(g, i, j)) && RingIsOpen(RepairCell(g, i, j))
    ensures BorderUnchanged(g, RepairCell(g, i, j))
  {
    var h := RepairCell(g, i, j);
    if OnRing(i, j) {
      RingReachesStart(g, i, j);
      assert h == g;
    } else {
      OpenFirstWallOnlyOpens(g, i, j, 0);
      OpenFirstWallTouchesNeighbours(g, i, j, 0);
    }
  }

  lemma {:induction false} FixRowKeepsBorder(g: Grid, i: int, j: int)
    requires IsGrid(g) && RingIsOpen(g) && 1 <= i < MAZE_HEIGHT - 1 && 1 <= j <= ColumnEnd(g)
    ensures IsGrid(FixRow(g, i, j)) && RingIsOpen(FixRow(g, i, j)) && BorderUnchanged(g, FixRow(g, i, j))
    decreases j
  {
    if j > 1 {
      FixRowKeepsBorder(g, i, j - 1);
      RepairCellKeepsBorder(FixRow(g, i, j - 1), i, j - 1);
    }
  }

  lemma {:induction false} FixRowsKeepBorder(g: Grid, i: int)
    requires IsGrid(g) && RingIsOpen(g) && 1 <= i <= RowEnd(g)
    ensures IsGrid(FixRows(g, i)) && RingIsOpen(FixRows(g, i)) && BorderUnchanged(g, FixRows(g, i))
    decreases i
  {
    if i > 1 {
      FixRowsKeepBorder(g, i - 1);
      FixRowKeepsBorder(FixRows(g, i - 1), i - 1, ColumnEnd(g));
    }
  }

  /**
   * On a 24x24 grid whose ring inside the border is open, every ring cell
   * reaches (1, 1), so the repair never opens a border cell: the border and
   * the ring come out as they went in.
   */
  lemma FixKeepsBorder(g: Grid)
    requires IsGrid(g) && RingIsOpen(g)
    ensures IsGrid(FixRows(g, RowEnd(g))) && RingIsOpen(FixRows(g, RowEnd(g)))
    ensures BorderUnchanged(g, FixRows(g, RowEnd(g)))
  {
    FixRowsKeepBorder(g, RowEnd(g));
  }

  // ---------------------------------------------------------------------
  // The whole generator

  /** A 24x24 grid with a wall border, an open ring inside it, and only floor, walls and breakables. */
  ghost predicate Framed(g: Grid) {
    IsGrid(g) && BorderIsWall2D(g) && RingIsOpen(g) && IsTerrain(g)
  }

  /** The two row passes of `generate_maze`: erosion of the wall bands, and obstacles in the corridors. */
  datatype Pass = Erosion | Obstacles

  /** The rows the obstacle loops work on: 3, 5, 7, 9, then 12, 14, .., 20. */
  predicate IsObstacleRow(r: int) {
    (3 <= r <= 9 && r % 2 == 1) || (12 <= r <= MAZE_HEIGHT - 4 && r % 2 == 0)
  }

  /** The rows a pass works on: the erosion rows are the wall bands 2, 4, .., 10 and 13, 15, .., 21. */
  predicate PassRow(p: Pass, r: int) {
    if p == Erosion then IsBandRow(r) else IsObstacleRow(r)
  }

  /** What both horizontal neighbours of a cell a pass writes must hold. */
  function PassNeighbours(p: Pass): Byte {
    if p == Erosion then WALL else EMPTY
  }

  /** The values a pass writes. */
  function PassValues(p: Pass): set<Byte> {
    if p == Erosion then {EMPTY} else {WALL, BREAKABLE}
  }

  /**
   * `after` is `before` after pass p with `count` bricks per row: only the
   * rows of the pass changed, each as RowPlaced says.
   */
  ghost predicate PassDone(p: Pass, before: Grid, after: Grid, count: nat) {
    IsGrid(before) && IsGrid(after) &&
    (forall r, c :: 0 <= r < MAZE_HEIGHT && 0 <= c < MAZE_WIDTH && after[r][c] != before[r][c] ==> PassRow(p, r)) &&
    (forall r :: 0 <= r < MAZE_HEIGHT && PassRow(p, r) ==>
      RowPlaced(before, after, r, PassNeighbours(p), PassValues(p), count))
  }

  /** Doing one more row of a pass, on a row the pass has not touched yet, extends it by that row. */
  lemma PassStep(p: Pass, maze: Grid, g: Grid, m: Grid, row: int, count: nat)
    requires PassDone(p, maze, g, count) && 0 <= row < MAZE_HEIGHT && PassRow(p, row)
    requires forall c :: 0 <= c < MAZE_WIDTH ==> g[row][c] == maze[row][c]
    requires IsGrid(m) && OnlyRowInterior(g, m, row)
    requires RowPlaced(g, m, row, PassNeighbours(p), PassValues(p), count)
    ensures PassDone(p, maze, m, count)
  {
    assert ChangedColumns(maze, m, row) == ChangedColumns(g, m, row);
    forall r | 0 <= r < MAZE_HEIGHT && PassRow(p, r) && r != row
      ensures RowPlaced(maze, m, r, PassNeighbours(p), PassValues(p), count)
    {
      assert ChangedColumns(maze, m, r) == ChangedColumns(maze, g, r);
    }
  }

  /** A pass keeps the frame: it writes only terrain, in rows 2 to 21 and columns 2 to 21. */
  lemma PassKeepsFrame(p: Pass, before: Grid, after: Grid, count: nat)
    requires Framed(before) && PassDone(p, before, after, count)
    ensures Framed(after)
  {
    forall r, c | 0 <= r < MAZE_HEIGHT && 0 <= c < MAZE_WIDTH && after[r][c] != before[r][c]
      ensures 2 <= r < MAZE_HEIGHT - 2 && 2 <= c < MAZE_WIDTH - 2 && after[r][c] in {EMPTY, WALL, BREAKABLE}
    {
      assert PassRow(p, r) && c in ChangedColumns(before, after, r);
    }
  }

  /** The last step of the generator keeps the frame: it only turns walls inside [2, 22) x [2, 22) into breakables. */
  lemma SprinkleKeepsFrame(before: Grid, after: Grid)
    requires Framed(before) && IsGrid(after)
    requires forall x :: x in ChangedCells(before, after) ==>
      2 <= x.0 < MAZE_HEIGHT - 2 && 2 <= x.1 < MAZE_WIDTH - 2 && after[x.0][x.1] == BREAKABLE
    ensures Framed(after)
  {
    forall r, c | 0 <= r < MAZE_HEIGHT && 0 <= c < MAZE_WIDTH && after[r][c] != before[r][c]
      ensures 2 <= r < MAZE_HEIGHT - 2 && 2 <= c < MAZE_WIDTH - 2 && after[r][c] == BREAKABLE
    {
      assert (r, c) in ChangedCells(before, after);
    }
  }

  /** The repair pass keeps the frame of a framed grid. */
  lemma FixKeepsFrame(before: Grid, after: Grid)
    requires Framed(before) && IsGrid(after) && OnlyOpensWalls(before, after)
    requires RingIsOpen(after) && BorderUnchanged(before, after)
    ensures Framed(after)
  {
  }

  /** The erosion loops of `generate_maze`: rows 2, 4, .., 10, then rows 13, 15, .., 21. */
  method ErodeBands(maze: Grid, numRemovedBricks: nat, draws: seq<nat>)
    returns (eroded: Grid, rest: seq<nat>, done: bool)
    requires IsGrid(maze)
    ensures PassDone(Erosion, maze, eroded, numRemovedBricks) && IsSuffix(rest, draws)
    ensures done || rest == []
  {
    eroded, rest, done := maze, draws, true;
    var row := 2;
    while row < 11
      invariant 2 <= row <= 12 && row % 2 == 0
      invariant PassDone(Erosion, maze, eroded, numRemovedBricks) && IsSuffix(rest, draws)
      invariant forall r, c :: row <= r < MAZE_HEIGHT && 0 <= c < MAZE_WIDTH ==> eroded[r][c] == maze[r][c]
    {
      var m, d;
      m, d, done := ErodeRow(eroded, row, numRemovedBricks, rest);
      SuffixTransitive(d, rest, draws);
      PassStep(Erosion, maze, eroded, m, row, numRemovedBricks);
      eroded, rest := m, d;
      if !done {
        return;
      }
      row := row + 2;
    }
    row := 13;
    while row < MAZE_HEIGHT - 2
      invariant 13 <= row <= MAZE_HEIGHT - 1 && row % 2 == 1
      invariant PassDone(Erosion, maze, eroded, numRemovedBricks) && IsSuffix(rest, draws)
      invariant forall r, c :: row <= r < MAZE_HEIGHT && 0 <= c < MAZE_WIDTH ==> eroded[r][c] == maze[r][c]
    {
      var m, d;
      m, d, done := ErodeRow(eroded, row, numRemovedBricks, rest);
      SuffixTransitive(d, rest, draws);
      PassStep(Erosion, maze, eroded, m, row, numRemovedBricks);
      eroded, rest := m, d;
      if !done {
        return;
      }
      row := row + 2;
    }
  }

  /** The obstacle loops of `generate_maze`: rows 3, 5, 7, 9, then rows 12, 14, .., 20. */
  method AddObstacles(maze: Grid, obstacles: nat, draws: seq<nat>)
    returns (added: Grid, rest: seq<nat>, done: bool)
    requires IsGrid(maze)
    ensures PassDone(Obstacles, maze, added, obstacles) && IsSuffix(rest, draws)
    ensures done || rest == []
  {
    added, rest, done := maze, draws, true;
    var row := 3;
    while row < 11
      invariant 3 <= row <= 11 && row % 2 == 1
      invariant PassDone(Obstacles, maze, added, obstacles) && IsSuffix(rest, draws)
      invariant forall r, c :: row <= r < MAZE_HEIGHT && 0 <= c < MAZE_WIDTH ==> added[r][c] == maze[r][c]
    {
      var m, d;
      m, d, done := AddObstacleRow(added, row, obstacles, rest);
      SuffixTransitive(d, rest, draws);
      PassStep(Obstacles, maze, added, m, row, obstacles);
      added, rest := m, d;
      if !done {
        return;
      }
      row := row + 2;
    }
    row := 12;
    while row < MAZE_HEIGHT - 3
      invariant 12 <= row <= MAZE_HEIGHT - 2 && row % 2 == 0
      invariant PassDone(Obstacles, maze, added, obstacles) && IsSuffix(rest, draws)
      invariant forall r, c :: row <= r < MAZE_HEIGHT && 0 <= c < MAZE_WIDTH ==> added[r][c] == maze[r][c]
    {
      var m, d;
      m, d, done := AddObstacleRow(added, row, obstacles, rest);
      SuffixTransitive(d, rest, draws);
      PassStep(Obstacles, maze, added, m, row, obstacles);
      added, rest := m, d;
      if !done {
        return;
      }
      row := row + 2;
    }
  }

  /** The obstacles each corridor row gets when `numRemovedBricks` bricks are eroded per band. */
  function ObstacleCount(numRemovedBricks: nat): nat {
    (MAZE_WIDTH + numRemovedBricks) / 8
  }

  /**
   * What `generate_maze` makes of the template: erosion by `n` bricks per
   * band, ObstacleCount(n) obstacles per corridor, the repair pass, and
   * 2 * n walls turned breakable.
   */
  ghost predicate Generated(n: nat, g: Grid) {
    exists e: Grid, o: Grid :: PassDone(Erosion, GenericMaze(), e, n) && PassDone(Obstacles, e, o, ObstacleCount(n)) &&
      Sprinkled(FixRows(o, RowEnd(o)), g, n)
  }

  /**
   * `generate_maze`: the template, eroded by `numRemovedBricks` bricks per
   * band, given (24 + numRemovedBricks) / 8 obstacles per corridor,
   * repaired, and sprinkled with 2 * numRemovedBricks breakable walls.
   * None when the draws ran out.
   */
  method GenerateMaze(numRemovedBricks: nat, draws: seq<nat>) returns (maze: Option<Grid>, rest: seq<nat>)
    ensures IsSuffix(rest, draws)
    ensures maze.Some? ==> Generated(numRemovedBricks, maze.value)
    ensures maze.Some? ==> Framed(maze.value) && maze.value[1][1] == EMPTY
    ensures maze.None? ==> |rest| < 2
  {
    GenericMazeFramed();
    var m, d, done := ErodeBands(GenericMaze(), numRemovedBricks, draws);
    if !done {
      return None, d;
    }
    var m', d';
    m', d', done := AddObstacles(m, ObstacleCount(numRemovedBricks), d);
    SuffixTransitive(d', d, draws);
    if !done {
      return None, d';
    }
    var finished, d'';
    finished, d'', done := RepairAndSprinkle(m', numRemovedBricks, d');
    SuffixTransitive(d'', d', draws);
    if !done {
      return None, d'';
    }
    GeneratedIsFramed(numRemovedBricks, finished);
    maze, rest := Some(finished), d'';
  }

  /** The last two steps of `generate_maze`: `fix_enclosed_areas`, then `add_breakable_walls`. */
  method RepairAndSprinkle(maze: Grid, numRemovedBricks: nat, draws: seq<nat>)
    returns (finished: Grid, rest: seq<nat>, done: bool)
    requires IsGrid(maze)
    ensures IsSuffix(rest, draws)
    ensures done ==> Sprinkled(FixRows(maze, RowEnd(maze)), finished, numRemovedBricks)
    ensures done || |rest| < 2
  {
    var fixed := FixEnclosedAreas(maze);
    finished, rest, done := AddBreakableWalls(fixed, numRemovedBricks, draws);
  }

  /**
   * Every grid the generator can make is 24x24, with a wall border, an open
   * ring inside it, the start cell (1, 1) open, and only floor, walls and
   * breakables.
   */
  lemma GeneratedIsFramed(n: nat, g: Grid)
    requires Generated(n, g)
    ensures Framed(g) && g[1][1] == EMPTY
  {
    var e, o :| PassDone(Erosion, GenericMaze(), e, n) && PassDone(Obstacles, e, o, ObstacleCount(n)) &&
      Sprinkled(FixRows(o, RowEnd(o)), g, n);
    GenericMazeFramed();
    PassKeepsFrame(Erosion, GenericMaze(), e, n);
    PassKeepsFrame(Obstacles, e, o, ObstacleCount(n));
    var f := FixRows(o, RowEnd(o));
    FixOnlyOpensWalls(o);
    FixKeepsBorder(o);
    FixKeepsFrame(o, f);
    SprinkleKeepsFrame(f, g);
  }

  /** The cells of g that are breakable walls. */
  function BreakableCells(g: Grid): set<Cell>
    requires IsGrid(g)
  {
    set r, c | 0 <= r < MAZE_HEIGHT && 0 <= c < MAZE_WIDTH && g[r][c] == BREAKABLE :: (r, c)
  }

  /** A generated maze holds at least 2 * n breakable walls: the repair never removes one and the last step adds 2 * n. */
  lemma GeneratedBreakables(n: nat, g: Grid)
    requires Generated(n, g)
    ensures IsGrid(g) && |BreakableCells(g)| >= 2 * n
  {
    var e, o :| PassDone(Erosion, GenericMaze(), e, n) && PassDone(Obstacles, e, o, ObstacleCount(n)) &&
      Sprinkled(FixRows(o, RowEnd(o)), g, n);
    var f := FixRows(o, RowEnd(o));
    assert ChangedCells(f, g) <= BreakableCells(g);
    SubsetCardinality(ChangedCells(f, g), BreakableCells(g));
  }

  /**
   * The number of bricks eroded per band at a level: MAZE_WIDTH / 5 - level,
   * which needs level <= 4. In rounds 1 to 3 it falls from 3 to 1, and the
   * corridors get 3 obstacles each in every round.
   */
  function ErosionCount(level: nat): (n: nat)
    requires level <= MAZE_WIDTH / 5
    ensures n + level == 4
    ensures 1 <= level <= 3 ==> 1 <= n <= 3 && ObstacleCount(n) == 3
  {
    MAZE_WIDTH / 5 - level
  }

  /** A flat maze whose cells are floor, walls and breakables only, with no player marked. */
  ghost predicate FlatIsTerrain(maze: seq<Byte>)
    requires IsFlatMaze(maze)
  {
    forall t: Tile :: InGrid(t) ==> At(maze, t) in {EMPTY, WALL, BREAKABLE}
  }

  /** A flat maze `select_maze(level)` can return: a generated grid for the level's erosion count, flattened. */
  ghost predicate LevelMaze(level: nat, maze: seq<Byte>) {
    level <= MAZE_WIDTH / 5 && exists g: Grid :: Generated(ErosionCount(level), g) && maze == Flatten(g)
  }

  /** Every maze of a level has a wall border, holds no player and has the start tile (1, 1) open. */
  lemma LevelMazeFramed(level: nat, maze: seq<Byte>)
    requires LevelMaze(level, maze)
    ensures IsFlatMaze(maze) && BorderIsWall(maze) && FlatIsTerrain(maze) && At(maze, Tile(1, 1)) == EMPTY
  {
    var g: Grid :| Generated(ErosionCount(level), g) && maze == Flatten(g);
    GeneratedIsFramed(ErosionCount(level), g);
    FlattenGrid(g);
  }

  /**
   * `select_maze`: the generated grid for the level's erosion count,
   * flattened row-major. The flat maze has a wall border, holds no player
   * and has the start tile (1, 1) open.
   */
  method SelectMaze(level: nat, draws: seq<nat>) returns (maze: Option<seq<Byte>>, ghost grid: Grid, rest: seq<nat>)
    requires level <= MAZE_WIDTH / 5
    ensures IsSuffix(rest, draws)
    ensures maze.Some? ==> Generated(ErosionCount(level), grid) && maze.value == Flatten(grid)
    ensures maze.Some? ==> LevelMaze(level, maze.value)
    ensures maze.Some? ==> IsFlatMaze(maze.value) && BorderIsWall(maze.value) && FlatIsTerrain(maze.value)
    ensures maze.Some? ==> At(maze.value, Tile(1, 1)) == EMPTY
    ensures maze.None? ==> |rest| < 2
  {
    var generated;
    generated, rest := GenerateMaze(ErosionCount(level), draws);
    grid := GenericMaze();
    if generated.None? {
      return None, grid, rest;
    }
    grid := generated.value;
    maze := Some(Flatten(generated.value));
    LevelMazeFramed(level, maze.value);
  }
}
