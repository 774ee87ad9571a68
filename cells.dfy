/**
 * Shared vocabulary of the server: the maze dimensions, the byte codes of
 * the four cell kinds, tile coordinates on the flat maze, and the model of
 * the random number generator.
 */
module Cells {

  /** Maze width and height in tiles; the maze is square. */
  const MAZE_WIDTH: nat := 24
  const MAZE_HEIGHT: nat := MAZE_WIDTH

  /** An unsigned 8-bit value, the element type of every maze. */
  type Byte = b: int | 0 <= b < 256

  const EMPTY: Byte := 0
  const PLAYER: Byte := 1
  const WALL: Byte := 2
  const BREAKABLE: Byte := 3

  datatype Option<T> = None | Some(value: T)

  /** A tile of the maze: column x, row y. */
  datatype Tile = Tile(x: int, y: int)

  predicate InGrid(t: Tile) {
    0 <= t.x < MAZE_WIDTH && 0 <= t.y < MAZE_HEIGHT
  }

  /** The tiles strictly inside the outer ring of the maze. */
  predicate Interior(t: Tile) {
    1 <= t.x < MAZE_WIDTH - 1 && 1 <= t.y < MAZE_HEIGHT - 1
  }

  predicate OnBorder(t: Tile) {
    InGrid(t) && (t.x == 0 || t.y == 0 || t.x == MAZE_WIDTH - 1 || t.y == MAZE_HEIGHT - 1)
  }

  /** Row-major index of a tile in the flat maze. */
  function TileIndex(t: Tile): (i: int)
    requires InGrid(t)
    ensures 0 <= i < MAZE_WIDTH * MAZE_HEIGHT
    ensures i % MAZE_WIDTH == t.x && i / MAZE_WIDTH == t.y
  {
    t.y * MAZE_WIDTH + t.x
  }

  /** The tile that a flat index denotes. */
  function TileAt(i: nat): (t: Tile)
    requires i < MAZE_WIDTH * MAZE_HEIGHT
    ensures InGrid(t) && TileIndex(t) == i
  {
    Tile(i % MAZE_WIDTH, i / MAZE_WIDTH)
  }

  predicate IsFlatMaze(maze: seq<Byte>) {
    |maze| == MAZE_WIDTH * MAZE_HEIGHT
  }

  /** The cell of a flat maze at a tile. */
  function At(maze: seq<Byte>, t: Tile): Byte
    requires IsFlatMaze(maze) && InGrid(t)
  {
    maze[TileIndex(t)]
  }

  /** Every cell of the outer ring of a flat maze is a wall. */
  ghost predicate BorderIsWall(maze: seq<Byte>)
    requires IsFlatMaze(maze)
  {
    forall t: Tile :: OnBorder(t) ==> At(maze, t) == WALL
  }

  /** A cell that is not a wall of the outer ring sits on an interior tile. */
  lemma NonWallIsInterior(maze: seq<Byte>, t: Tile)
    requires IsFlatMaze(maze) && BorderIsWall(maze) && InGrid(t) && At(maze, t) != WALL
    ensures Interior(t)
  {
  }

  /** Writing an interior cell keeps the outer ring a wall. */
  lemma WriteKeepsBorder(maze: seq<Byte>, t: Tile, v: Byte)
    requires IsFlatMaze(maze) && BorderIsWall(maze) && Interior(t)
    ensures IsFlatMaze(maze[TileIndex(t) := v]) && BorderIsWall(maze[TileIndex(t) := v])
  {
    forall u: Tile | OnBorder(u)
      ensures At(maze[TileIndex(t) := v], u) == WALL
    {
      assert TileIndex(u) != TileIndex(t);
    }
  }

  /**
   * The value `rng.gen_range(lo..hi)` yields when the generator's next raw
   * draw is d. The generator is modelled as a finite sequence of raw draws.
   */
  function GenRange(lo: int, hi: int, d: nat): (r: int)
    requires lo < hi
    ensures lo <= r < hi
    ensures d < hi - lo ==> r == lo + d
  {
    lo + d % (hi - lo)
  }

  /** `rest` is what is left of `draws` after some were consumed from its front. */
  predicate IsSuffix(rest: seq<nat>, draws: seq<nat>) {
    |rest| <= |draws| && rest == draws[|draws| - |rest|..]
  }

  lemma SuffixTransitive(a: seq<nat>, b: seq<nat>, c: seq<nat>)
    requires IsSuffix(a, b) && IsSuffix(b, c)
    ensures IsSuffix(a, c)
  {
  }

  lemma SubsetCardinality<T>(s: set<T>, t: set<T>)
    requires s <= t
    ensures |s| <= |t|
  {
    assert t == s + (t - s);
  }
}
