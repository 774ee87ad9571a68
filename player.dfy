/**
 * A player of server/src/player.rs: its facing as a count of quarter turns,
 * its one-tile moves, its hit-scan shot, and the `Player` object whose
 * `input` applies the pending action to the flat maze.
 *
 * Positions are tiles (the source keeps the centre of the tile in floating
 * point) and the angle is a number of quarter turns (the source keeps
 * radians and a cos/sin direction that only ever takes cardinal values).
 */
module PlayerModel {
  import opened Cells

  /** The direction after `angle` quarter turns from (1, 0); a positive turn goes from +x towards +y. */
  function Facing(angle: int): (d: (int, int))
    ensures d.0 * d.0 + d.1 * d.1 == 1
  {
    var q := angle % 4;
    if q == 0 then (1, 0) else if q == 1 then (0, 1) else if q == 2 then (-1, 0) else (0, -1)
  }

  /** A quarter turn in the positive sense maps a facing (dx, dy) to (-dy, dx). */
  lemma FacingTurn(angle: int)
    ensures Facing(angle + 1) == (-Facing(angle).1, Facing(angle).0)
    ensures Facing(angle - 1) == (Facing(angle).1, -Facing(angle).0)
  {
    var q := angle % 4;
    assert angle == 4 * (angle / 4) + q;
    assert (angle + 1) % 4 == (q + 1) % 4 by {
      assert angle + 1 == 4 * (angle / 4) + (q + 1);
    }
    assert (angle - 1) % 4 == (q + 3) % 4 by {
      assert angle - 1 == 4 * (angle / 4 - 1) + (q + 3);
    }
  }

  /** The move vector of an action relative to the facing (dx, dy); (0, 0) for anything but W, S, D and A. */
  function MoveVector(action: string, dir: (int, int)): (v: (int, int))
    ensures action !in {"W", "S", "D", "A"} ==> v == (0, 0)
  {
    if action == "W" then dir
    else if action == "S" then (-dir.0, -dir.1)
    else if action == "D" then (-dir.1, dir.0)
    else if action == "A" then (dir.1, -dir.0)
    else (0, 0)
  }

  /**
   * Relative to the facing, W goes forward, S backward, and D and A
   * sideways: D is the facing after a positive quarter turn, A after a
   * negative one, so the two are perpendicular to the facing and opposite
   * to each other.
   */
  lemma MovesRelativeToFacing(angle: int)
    ensures MoveVector("W", Facing(angle)) == Facing(angle)
    ensures MoveVector("S", Facing(angle)) == Facing(angle + 2)
    ensures MoveVector("D", Facing(angle)) == Facing(angle + 1)
    ensures MoveVector("A", Facing(angle)) == Facing(angle - 1)
    ensures var d, f := MoveVector("D", Facing(angle)), Facing(angle); d.0 * f.0 + d.1 * f.1 == 0
    ensures var d, a := MoveVector("D", Facing(angle)), MoveVector("A", Facing(angle)); a == (-d.0, -d.1)
  {
    FacingTurn(angle);
    FacingTurn(angle + 1);
  }

  /** The actions `input` acts on; any other pending action stays pending and does nothing. */
  const ACTIONS: set<string> := {"left", "right", "shoot", "W", "S", "D", "A"}

  /** The tile one move vector away. */
  function Step(t: Tile, v: (int, int)): Tile {
    Tile(t.x + v.0, t.y + v.1)
  }

  /** Every move of an action out of an interior tile lands inside the maze, one tile away. */
  lemma MoveStaysInGrid(t: Tile, action: string, angle: int)
    requires Interior(t) && action in {"W", "S", "D", "A"}
    ensures InGrid(Step(t, MoveVector(action, Facing(angle))))
    ensures var s := Step(t, MoveVector(action, Facing(angle)));
      (s.x - t.x) * (s.x - t.x) + (s.y - t.y) * (s.y - t.y) == 1
  {
    MovesRelativeToFacing(angle);
  }

  /** The clamp of `input` on one coordinate, at the grain of tiles: into [0, hi]. */
  function ClampCoord(v: int, hi: int): (r: int)
    requires 0 <= hi
    ensures 0 <= r <= hi
    ensures 0 <= v <= hi ==> r == v
  {
    if v < 0 then 0 else if v > hi then hi else v
  }

  // ---------------------------------------------------------------------
  // The shot

  /** The shot's range: distances 0 to MAX_RANGE are examined. */
  const MAX_RANGE: int := 6

  /** The tile at `distance` of a shot from `from` along `step`: the scan starts one tile ahead. */
  function Ahead(from: Tile, step: (int, int), distance: int): Tile {
    Tile(from.x + step.0 * (distance + 1), from.y + step.1 * (distance + 1))
  }

  /** A cell a shot destroys. */
  predicate Hittable(b: Byte) {
    b == PLAYER || b == BREAKABLE
  }

  /** A cell a shot flies through. */
  predicate Passable(b: Byte) {
    b != WALL && !Hittable(b)
  }

  /** The distance of the tile a shot hits, scanning from distance d on; None when it stops first. */
  function ShotFrom(maze: seq<Byte>, from: Tile, step: (int, int), d: nat): (r: Option<nat>)
    requires IsFlatMaze(maze)
    ensures r.Some? ==> d <= r.value <= MAX_RANGE
    decreases MAX_RANGE + 1 - d
  {
    var t := Ahead(from, step, d);
    if !InGrid(t) || d > MAX_RANGE then None
    else if At(maze, t) == WALL then None
    else if Hittable(At(maze, t)) then Some(d)
    else ShotFrom(maze, from, step, d + 1)
  }

  /** Every tile at distances d0 to d-1 is in the maze and lets the shot through. */
  ghost predicate ClearBetween(maze: seq<Byte>, from: Tile, step: (int, int), d0: int, d: int)
    requires IsFlatMaze(maze)
  {
    forall k :: d0 <= k < d ==> InGrid(Ahead(from, step, k)) && Passable(At(maze, Ahead(from, step, k)))
  }

  /** The shot hits the tile at distance d. */
  ghost predicate HitsAt(maze: seq<Byte>, from: Tile, step: (int, int), d: int)
    requires IsFlatMaze(maze)
  {
    d <= MAX_RANGE && InGrid(Ahead(from, step, d)) && Hittable(At(maze, Ahead(from, step, d)))
  }

  /** The tile at distance d lets the shot through. */
  predicate ClearAt(maze: seq<Byte>, from: Tile, step: (int, int), d: int)
    requires IsFlatMaze(maze)
  {
    InGrid(Ahead(from, step, d)) && Passable(At(maze, Ahead(from, step, d)))
  }

  lemma ClearBetweenFirst(maze: seq<Byte>, from: Tile, step: (int, int), d0: int, d: int)
    requires IsFlatMaze(maze) && d0 < d
    ensures ClearBetween(maze, from, step, d0, d) <==>
      ClearAt(maze, from, step, d0) && ClearBetween(maze, from, step, d0 + 1, d)
  {
  }

  lemma {:induction false} ShotFromIff(maze: seq<Byte>, from: Tile, step: (int, int), d0: nat, d: nat)
    requires IsFlatMaze(maze)
    ensures ShotFrom(maze, from, step, d0) == Some(d) <==>
      d0 <= d && ClearBetween(maze, from, step, d0, d) && HitsAt(maze, from, step, d)
    decreases MAX_RANGE + 1 - d0
  {
    if d0 < d {
      ClearBetweenFirst(maze, from, step, d0, d);
    }
    if d0 <= MAX_RANGE && ClearAt(maze, from, step, d0) {
      ShotFromIff(maze, from, step, d0 + 1, d);
    }
  }

  /**
   * A shot hits distance d exactly when d is within range, every tile before
   * it is in the maze and lets the shot through, and the tile at d is a
   * player or a breakable wall: the first such tile, never past a wall.
   */
  lemma ShotHitsFirstHittable(maze: seq<Byte>, from: Tile, step: (int, int), d: nat)
    requires IsFlatMaze(maze)
    ensures ShotFrom(maze, from, step, 0) == Some(d) <==>
      ClearBetween(maze, from, step, 0, d) && HitsAt(maze, from, step, d)
  {
    ShotFromIff(maze, from, step, 0, d);
  }

  /** The index of the cell a shot from `from` after `angle` quarter turns destroys, if any. */
  function ShotHit(maze: seq<Byte>, from: Tile, angle: int): (hit: Option<nat>)
    requires IsFlatMaze(maze)
    ensures hit.Some? ==> hit.value < |maze| && Hittable(maze[hit.value])
  {
    match ShotFrom(maze, from, Facing(angle), 0)
    case None => None
    case Some(d) =>
      ShotFromIff(maze, from, Facing(angle), 0, d);
      Some(TileIndex(Ahead(from, Facing(angle), d)))
  }

  // ---------------------------------------------------------------------
  // The player object

  /** What a snapshot of the game reports of a player. */
  datatype PlayerRecord = PlayerRecord(id: nat, tile: Tile, direction: (int, int), angle: int,
                                       action: string, name: string, score: nat)

  /**
   * What `input` does, per pending action of the player p on maze m, in
   * terms of the player q and maze m' it leaves, the `moved` flag it sets
   * and the cell it destroys. "left" and "right" turn a quarter; "shoot"
   * fires along the facing and always clears the action; W, S, D and A
   * attempt a one-tile move, which only an EMPTY tile lets through; anything
   * else stays pending and does nothing. The id, the name and the
   * consistency of the direction never change.
   */
  ghost predicate InputEffect(p: PlayerRecord, m: seq<Byte>, q: PlayerRecord, m': seq<Byte>, moved: bool, hit: Option<nat>)
    requires IsFlatMaze(m) && InGrid(p.tile)
  {
    q.id == p.id && q.name == p.name && q.direction == Facing(q.angle) &&
    if p.action in {"left", "right"} then TurnEffect(p, m, q, m', moved, hit)
    else if p.action == "shoot" then ShotEffect(p, m, q, m', moved, hit)
    else if p.action in {"W", "S", "D", "A"} then MoveEffect(p, m, q, m', moved, hit)
    else q == p && m' == m && !moved && hit.None?
  }

  /** "left" and "right": a quarter turn, counted down or up, that always sets the flag. */
  ghost predicate TurnEffect(p: PlayerRecord, m: seq<Byte>, q: PlayerRecord, m': seq<Byte>, moved: bool, hit: Option<nat>) {
    q.angle == (if p.action == "left" then p.angle - 1 else p.angle + 1) && q.action == "" && moved && hit.None? &&
    m' == m && q.tile == p.tile && q.score == p.score
  }

  /**
   * "shoot": the first hittable cell along the facing, if any, becomes
   * EMPTY and sets the flag, scoring when it held a player; a miss changes
   * nothing but the cleared action.
   */
  ghost predicate ShotEffect(p: PlayerRecord, m: seq<Byte>, q: PlayerRecord, m': seq<Byte>, moved: bool, hit: Option<nat>)
    requires IsFlatMaze(m) && InGrid(p.tile)
  {
    q.angle == p.angle && q.action == "" && q.tile == p.tile &&
    hit == ShotHit(m, p.tile, p.angle) &&
    match hit
    case None => m' == m && !moved && q.score == p.score
    case Some(i) =>
      m' == m[i := EMPTY] && moved &&
      q.score == p.score + (if m[i] == PLAYER then 1 else 0)
  }

  /**
   * W, S, D and A: the tile one step away relative to the facing; an EMPTY
   * one is entered (the old tile becomes EMPTY, the new one PLAYER), and
   * anything else blocks the move, which then stays pending.
   */
  ghost predicate MoveEffect(p: PlayerRecord, m: seq<Byte>, q: PlayerRecord, m': seq<Byte>, moved: bool, hit: Option<nat>)
    requires IsFlatMaze(m) && InGrid(p.tile)
  {
    q.angle == p.angle && q.score == p.score && hit.None? &&
    var dest := Step(p.tile, MoveVector(p.action, Facing(p.angle)));
    InGrid(dest) &&
    if At(m, dest) == EMPTY then
      m' == m[TileIndex(p.tile) := EMPTY][TileIndex(dest) := PLAYER] &&
      q.tile == dest && q.action == "" && moved
    else
      m' == m && q.tile == p.tile && q.action == p.action && !moved
  }

  /**
   * A turn undone by the opposite turn: `input` on "left" and then on
   * "right" (or "right" then "left") gives back the player it started
   * from, with the action cleared, on the same maze, while the first turn
   * alone always changes the facing.
   */
  lemma LeftThenRight(p: PlayerRecord, m: seq<Byte>, q: PlayerRecord, m1: seq<Byte>, f1: bool, h1: Option<nat>,
                      r: PlayerRecord, m2: seq<Byte>, f2: bool, h2: Option<nat>)
    requires IsFlatMaze(m) && InGrid(p.tile) && p.direction == Facing(p.angle) && p.action in {"left", "right"}
    requires InputEffect(p, m, q, m1, f1, h1)
    requires InputEffect(q.(action := if p.action == "left" then "right" else "left"), m1, r, m2, f2, h2)
    ensures r == p.(action := "") && m2 == m
    ensures q.direction != p.direction
  {
  }

  /** The player turned, went to another tile, or destroyed a cell. */
  predicate Acted(p: PlayerRecord, q: PlayerRecord, hit: Option<nat>) {
    p.action in {"left", "right"} || q.tile != p.tile || hit.Some?
  }

  /**
   * `input` sets the flag exactly when the player turned, went to another
   * tile or destroyed a cell; only a shot destroys one; and only a shot or
   * a move changes the maze. A blocked move and a missed shot set nothing.
   */
  lemma InputMovedIff(p: PlayerRecord, m: seq<Byte>, q: PlayerRecord, m': seq<Byte>, moved: bool, hit: Option<nat>)
    requires IsFlatMaze(m) && InGrid(p.tile) && InputEffect(p, m, q, m', moved, hit)
    ensures moved <==> Acted(p, q, hit)
    ensures hit.Some? ==> p.action == "shoot"
    ensures p.action !in {"shoot", "W", "S", "D", "A"} ==> m' == m
  {
    if p.action in {"W", "S", "D", "A"} {
      MovesRelativeToFacing(p.angle);
      FacingTurn(p.angle);
      FacingTurn(p.angle + 1);
      var v := MoveVector(p.action, Facing(p.angle));
      assert v.0 * v.0 + v.1 * v.1 == 1;
    }
  }

  class Player {
    const id: nat
    const name: string
    var tile: Tile
    var direction: (int, int)
    var angle: int
    var action: string
    var score: nat

    /** The stored direction is always the cos/sin pair of the angle. */
    ghost predicate Valid()
      reads this
    {
      direction == Facing(angle)
    }

    function Record(): PlayerRecord
      reads this
    {
      PlayerRecord(id, tile, direction, angle, action, name, score)
    }

    /** `Player::new`: facing (1, 0) at angle 0, no pending action, score 0. */
    constructor (tile: Tile, id: nat, name: string)
      ensures this.id == id && this.name == name && this.tile == tile
      ensures direction == (1, 0) && angle == 0 && action == "" && score == 0
      ensures Valid()
    {
      this.id := id;
      this.name := name;
      this.tile := tile;
      direction := (1, 0);
      angle := 0;
      action := "";
      score := 0;
    }

    /**
     * `touching_wall`: the move succeeds only into an EMPTY tile; then the
     * old tile is cleared, the new one marked PLAYER, the action cleared
     * and `moved` set. A blocked move changes nothing, not even the action.
     */
    method TouchingWall(moveVec: (int, int), maze: seq<Byte>) returns (maze': seq<Byte>, moved: bool)
      requires IsFlatMaze(maze) && InGrid(tile) && InGrid(Step(tile, moveVec))
      modifies this
      ensures var dest := Step(old(tile), moveVec);
        if At(maze, dest) == EMPTY then
          maze' == maze[TileIndex(old(tile)) := EMPTY][TileIndex(dest) := PLAYER] &&
          tile == dest && action == "" && moved
        else
          maze' == maze && tile == old(tile) && action == old(action) && !moved
      ensures angle == old(angle) && direction == old(direction) && score == old(score)
    {
      var dest := Step(tile, moveVec);
      var mapIndex := dest.y * MAZE_WIDTH + dest.x;
      maze' := maze;
      moved := false;
      if maze[mapIndex] == EMPTY {
        var currentMapIndex := tile.y * MAZE_WIDTH + tile.x;
        maze' := maze'[currentMapIndex := EMPTY];
        tile := dest;
        maze' := maze'[mapIndex := PLAYER];
        action := "";
        moved := true;
      }
    }

    /**
     * The shot of `input`: scan from one tile ahead along the facing, at
     * most MAX_RANGE + 1 tiles and never past the maze edge or a wall. The
     * first PLAYER or BREAKABLE cell becomes EMPTY, a PLAYER scores a point,
     * and its index is returned. The action is cleared either way.
     */
    method Shoot(maze: seq<Byte>) returns (maze': seq<Byte>, moved: bool, hit: Option<nat>)
      requires Valid() && IsFlatMaze(maze) && InGrid(tile)
      modifies this
      ensures Valid() && IsFlatMaze(maze')
      ensures angle == old(angle) && direction == old(direction) && tile == old(tile) && action == ""
      ensures hit == ShotHit(maze, tile, angle)
      ensures hit.None? ==> maze' == maze && !moved && score == old(score)
      ensures hit.Some? ==>
        maze' == maze[hit.value := EMPTY] && moved &&
        score == old(score) + (if maze[hit.value] == PLAYER then 1 else 0)
      ensures BorderIsWall(maze) ==> BorderIsWall(maze')
    {
      maze', moved, hit := maze, false, None;
      var step := Facing(angle);
      var (stepX, stepY) := step;
      var currentX := tile.x + stepX;
      var currentY := tile.y + stepY;
      var distance := 0;
      while 0 <= currentX < MAZE_WIDTH && 0 <= currentY < MAZE_HEIGHT
        invariant 0 <= distance <= MAX_RANGE + 1
        invariant Tile(currentX, currentY) == Ahead(tile, step, distance)
        invariant ShotFrom(maze, tile, step, 0) == ShotFrom(maze, tile, step, distance)
        decreases MAX_RANGE + 1 - distance
      {
        if distance > MAX_RANGE {
          break;
        }
        var idx := currentY * MAZE_WIDTH + currentX;
        assert idx == TileIndex(Ahead(tile, step, distance));
        if maze[idx] == WALL {
          break;
        }
        if maze[idx] == PLAYER || maze[idx] == BREAKABLE {
          if maze[idx] == PLAYER {
            score := score + 1;
          }
          maze' := maze[idx := EMPTY];
          moved := true;
          action := "";
          if BorderIsWall(maze) {
            NonWallIsInterior(maze, Ahead(tile, step, distance));
            WriteKeepsBorder(maze, Ahead(tile, step, distance), EMPTY);
          }
          return maze', moved, Some(idx);
        }
        currentX := currentX + stepX;
        currentY := currentY + stepY;
        distance := distance + 1;
      }
      action := "";
    }

    /**
     * `input`: applies the pending action. "left" and "right" turn by a
     * quarter; "shoot" fires along the facing and always clears the action;
     * W, S, D and A attempt a one-tile move; anything else stays pending.
     * `moved` reports whether this call set the caller's flag, and `hit` is
     * the index of the destroyed cell, which only a shot returns.
     */
    method Input(maze: seq<Byte>) returns (maze': seq<Byte>, moved: bool, hit: Option<nat>)
      requires Valid() && IsFlatMaze(maze) && Interior(tile)
      modifies this
      ensures Valid() && IsFlatMaze(maze') && InGrid(tile)
      ensures BorderIsWall(maze) ==> BorderIsWall(maze') && Interior(tile)
      ensures old(score) <= score <= old(score) + 1 && (score > old(score) ==> moved)
      ensures hit.Some? ==> hit.value < |maze|
      ensures InputEffect(old(Record()), maze, Record(), maze', moved, hit)
    {
      maze', moved, hit := maze, false, None;
      if action == "left" {
        angle := angle - 1;
        action := "";
        moved := true;
      }
      if action == "right" {
        angle := angle + 1;
        action := "";
        moved := true;
      }

      if action == "shoot" {
        maze', moved, hit := Shoot(maze);
        if hit.Some? {
          return;
        }
      }

      direction := Facing(angle);

      var moveVec := MoveVector(action, direction);
      if moveVec != (0, 0) {
        MoveStaysInGrid(tile, action, angle);
        ghost var from := tile;
        maze', moved := TouchingWall(moveVec, maze);
        if moved && BorderIsWall(maze) {
          WriteKeepsBorder(maze, from, EMPTY);
          NonWallIsInterior(maze, tile);
          WriteKeepsBorder(maze[TileIndex(from) := EMPTY], tile, PLAYER);
        }
      }

      tile := Tile(ClampCoord(tile.x, MAZE_WIDTH), ClampCoord(tile.y, MAZE_HEIGHT));
    }
  }
}
