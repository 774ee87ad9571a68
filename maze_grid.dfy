/**
 * The two-dimensional maze that server/src/maze.rs builds (a vector of rows,
 * indexed maze[row][column]), its fixed comb-shaped template, and its
 * row-major flattening into the maze that the game state carries.
 */
module MazeGrid {
  import opened Cells

  type Grid = seq<seq<Byte>>

  /** A grid of MAZE_HEIGHT rows of MAZE_WIDTH cells each. */
  predicate IsGrid(g: Grid) {
    |g| == MAZE_HEIGHT && forall r :: 0 <= r < |g| ==> |g[r]| == MAZE_WIDTH
  }

  /** The grid with cell (r, c) overwritten by v. */
  function SetCell(g: Grid, r: int, c: int, v: Byte): (g': Grid)
    requires 0 <= r < |g| && 0 <= c < |g[r]|
    ensures |g'| == |g| && forall i :: 0 <= i < |g| ==> |g'[i]| == |g[i]|
    ensures g'[r][c] == v
    ensures forall i, j :: 0 <= i < |g| && 0 <= j < |g[i]| && (i, j) != (r, c) ==> g'[i][j] == g[i][j]
  {
    var row: seq<Byte> := g[r][c := v];
    g[r := row]
  }

  /** Both horizontal neighbours of (y, x) hold `cell`. */
  predicate AdjacentIs(cell: Byte, x: int, y: int, maze: Grid)
    requires 0 <= y < |maze| && 1 <= x < |maze[y]| - 1
  {
    maze[y][x + 1] == cell && maze[y][x - 1] == cell
  }

  /**
   * The test looks at the two horizontal neighbours only: two mazes that
   * agree on them give the same answer, whatever the cell itself or any
   * other row holds.
   */
  lemma AdjacentIsLocal(cell: Byte, x: int, y: int, maze: Grid, other: Grid)
    requires 0 <= y < |maze| && 1 <= x < |maze[y]| - 1
    requires 0 <= y < |other| && 1 <= x < |other[y]| - 1
    requires other[y][x - 1] == maze[y][x - 1] && other[y][x + 1] == maze[y][x + 1]
    ensures AdjacentIs(cell, x, y, other) == AdjacentIs(cell, x, y, maze)
    ensures AdjacentIs(cell, x, y, maze) ==> maze[y][x - 1] == maze[y][x + 1] == cell
  {
  }

  predicate OnGridBorder(r: int, c: int) {
    r == 0 || r == MAZE_HEIGHT - 1 || c == 0 || c == MAZE_WIDTH - 1
  }

  /**
   * The ring just inside the border: rows 1 and MAZE_HEIGHT-2 and columns 1
   * and MAZE_WIDTH-2, between the border cells.
   */
  predicate OnRing(r: int, c: int) {
    1 <= r <= MAZE_HEIGHT - 2 && 1 <= c <= MAZE_WIDTH - 2 &&
    (r == 1 || r == MAZE_HEIGHT - 2 || c == 1 || c == MAZE_WIDTH - 2)
  }

  /** The rows of the template that are walls between columns 2 and MAZE_WIDTH-3. */
  predicate IsBandRow(r: int) {
    (2 <= r <= 10 && r % 2 == 0) || (13 <= r <= MAZE_HEIGHT - 3 && r % 2 == 1)
  }

  ghost predicate BorderIsWall2D(g: Grid)
    requires IsGrid(g)
  {
    forall r, c :: 0 <= r < MAZE_HEIGHT && 0 <= c < MAZE_WIDTH && OnGridBorder(r, c) ==> g[r][c] == WALL
  }

  ghost predicate RingIsOpen(g: Grid)
    requires IsGrid(g)
  {
    forall r, c :: 0 <= r < MAZE_HEIGHT && 0 <= c < MAZE_WIDTH && OnRing(r, c) ==> g[r][c] == EMPTY
  }

  /** No cell holds PLAYER or a byte outside the four cell kinds: the grid is empty floor, walls and breakables. */
  ghost predicate IsTerrain(g: Grid)
    requires IsGrid(g)
  {
    forall r, c :: 0 <= r < MAZE_HEIGHT && 0 <= c < MAZE_WIDTH ==> g[r][c] in {EMPTY, WALL, BREAKABLE}
  }

  const BORDER_ROW: seq<Byte> :=
    [2, 2, 2, 2, 2, 2, 2, 2, 2, 2, 2, 2, 2, 2, 2, 2, 2, 2, 2, 2, 2, 2, 2, 2]
  const CORRIDOR_ROW: seq<Byte> :=
    [2, 0, 0, 0, 0, 0, 0, 0, 0, 0, 0, 0, 0, 0, 0, 0, 0, 0, 0, 0, 0, 0, 0, 2]
  const BAND_ROW: seq<Byte> :=
    [2, 0, 2, 2, 2, 2, 2, 2, 2, 2, 2, 2, 2, 2, 2, 2, 2, 2, 2, 2, 2, 2, 0, 2]

  /** The fixed 24x24 comb template the generator starts from. */
  function GenericMaze(): Grid {
    [ BORDER_ROW,
      CORRIDOR_ROW, BAND_ROW, CORRIDOR_ROW, BAND_ROW, CORRIDOR_ROW, BAND_ROW,
      CORRIDOR_ROW, BAND_ROW, CORRIDOR_ROW, BAND_ROW, CORRIDOR_ROW,
      CORRIDOR_ROW, BAND_ROW, CORRIDOR_ROW, BAND_ROW, CORRIDOR_ROW, BAND_ROW,
      CORRIDOR_ROW, BAND_ROW, CORRIDOR_ROW, BAND_ROW, CORRIDOR_ROW,
      BORDER_ROW ]
  }

  /** The cell of the template at (r, c), described by its layout. */
  function TemplateCell(r: int, c: int): Byte {
    if OnGridBorder(r, c) then WALL
    else if IsBandRow(r) && 2 <= c < MAZE_WIDTH - 2 then WALL
    else EMPTY
  }

  lemma RowLayouts()
    ensures |BORDER_ROW| == |CORRIDOR_ROW| == |BAND_ROW| == MAZE_WIDTH
    ensures forall c :: 0 <= c < MAZE_WIDTH ==> BORDER_ROW[c] == WALL
    ensures forall c :: 0 <= c < MAZE_WIDTH ==>
      CORRIDOR_ROW[c] == (if c == 0 || c == MAZE_WIDTH - 1 then WALL else EMPTY)
    ensures forall c :: 0 <= c < MAZE_WIDTH ==>
      BAND_ROW[c] == (if c == 1 || c == MAZE_WIDTH - 2 then EMPTY else WALL)
  {
  }

  /**
   * The template is a 24x24 grid whose every cell is as TemplateCell says:
   * a wall border, open columns 1 and 22, wall bands on rows 2, 4, .., 10
   * and 13, 15, .., 21, and open corridors on the other rows.
   */
  lemma GenericMazeLayout()
    ensures IsGrid(GenericMaze())
    ensures forall r, c :: 0 <= r < MAZE_HEIGHT && 0 <= c < MAZE_WIDTH ==>
      GenericMaze()[r][c] == TemplateCell(r, c)
  {
    RowLayouts();
    var g := GenericMaze();
    forall r, c | 0 <= r < MAZE_HEIGHT && 0 <= c < MAZE_WIDTH
      ensures g[r][c] == TemplateCell(r, c)
    {
      if r == 0 || r == MAZE_HEIGHT - 1 {
        assert g[r] == BORDER_ROW;
      } else if IsBandRow(r) {
        assert g[r] == BAND_ROW;
      } else {
        assert g[r] == CORRIDOR_ROW;
      }
    }
  }

  /** The template has a wall border, an open ring and only floor and walls. */
  lemma GenericMazeFramed()
    ensures IsGrid(GenericMaze())
    ensures BorderIsWall2D(GenericMaze()) && RingIsOpen(GenericMaze()) && IsTerrain(GenericMaze())
  {
    GenericMazeLayout();
  }

  /** Row-major flattening: the rows of g laid end to end. */
  function Flatten(g: seq<seq<Byte>>): seq<Byte> {
    if g == [] then [] else g[0] + Flatten(g[1..])
  }

  /**
   * Flattening a grid whose rows all have width w gives |g| * w cells, and
   * cell (r, c) lands at index r * w + c.
   */
  lemma {:induction false} FlattenIndex(g: seq<seq<Byte>>, w: nat, r: nat, c: nat)
    requires forall i :: 0 <= i < |g| ==> |g[i]| == w
    requires r < |g| && c < w
    ensures |Flatten(g)| == |g| * w
    ensures r * w + c < |Flatten(g)| && Flatten(g)[r * w + c] == g[r][c]
  {
    FlattenLength(g, w);
    if r == 0 {
    } else {
      FlattenLength(g[1..], w);
      FlattenIndex(g[1..], w, r - 1, c);
      assert r * w + c == w + ((r - 1) * w + c);
    }
  }

  lemma {:induction false} FlattenLength(g: seq<seq<Byte>>, w: nat)
    requires forall i :: 0 <= i < |g| ==> |g[i]| == w
    ensures |Flatten(g)| == |g| * w
  {
    if g != [] {
      FlattenLength(g[1..], w);
      assert |g| * w == w + (|g| - 1) * w;
    }
  }

  /** The flattened maze of a grid, with the index correspondence for every cell. */
  lemma FlattenGrid(g: Grid)
    requires IsGrid(g)
    ensures IsFlatMaze(Flatten(g))
    ensures forall t: Tile :: InGrid(t) ==> At(Flatten(g), t) == g[t.y][t.x]
  {
    FlattenLength(g, MAZE_WIDTH);
    forall t: Tile | InGrid(t)
      ensures At(Flatten(g), t) == g[t.y][t.x]
    {
      FlattenIndex(g, MAZE_WIDTH, t.y, t.x);
    }
  }
}
