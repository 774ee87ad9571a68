# Multiplayer maze shooter server, modelled in Dafny

The server of a multiplayer first-person maze shooter owns the whole game. It
keeps a 24x24 maze of cell kinds (EMPTY, PLAYER, WALL, BREAKABLE), the list
of players, the round counter, a round-change flag and the name of the
last round's winner. Each pass of its loop:

1. reads at most one datagram;
2. registers a new player on a join message, or stores a player's pending
   action from a JSON update;
3. lets every player act on the shared maze: turn, move one tile, or shoot;
4. moves every shot player to a random empty tile;
5. once a score reaches 5, starts the next round on a freshly generated
   maze;
6. broadcasts the state to every client when something moved or somebody
   joined.

The maze generator starts from a fixed comb-shaped template. It erodes
bricks from the wall bands, drops obstacles into the corridors, opens a
wall next to each empty cell that a breadth-first search cannot connect to
the start cell (1, 1), and finally turns some walls breakable.

The model has one module per part of the program:

- `Cells` (cells.dfy): the constants of server/src/main.rs, tiles, the
  flat row-major maze and its wall border. It also holds `gen_range` over a
  raw random draw.
- `MazeGrid` (maze_grid.dfy): the grid of server/src/maze.rs, the template
  `generic_maze`, `adjacent_is` and the row-major flattening.
- `MazeReach` (maze_reach.dfy): `is_reachable_from_start`, a breadth-first
  search. It is proved to answer true exactly when a walk through EMPTY
  cells leads to (1, 1).
- `MazeGen` (maze_gen.dfy): the passes of `generate_maze`,
  `fix_enclosed_areas`, `add_breakable_walls` and `select_maze`.
- `PlayerModel` (player.dfy): server/src/player.rs. It holds the facing as
  quarter turns, the move vectors, the hit-scan shot and the `Player` class
  with `new`, `touching_wall` and `input`.
- `Messages` (messages.dfy): the join message, Rust's `str::trim` and the
  decimal id sent back to a new client.
- `Server` (server.dfy): the `GameState` class with the loop body as
  `Tick`, `update_level`, `randomize_player_position` and `GameState::new`.

The maze grid is passed and returned by value, because maze.rs owns it
exclusively and only changes it through `&mut`. The game state and the
players are objects whose fields the methods update in place.

The random generator is a sequence of raw draws: `gen_range(lo..hi)` is
`lo + d % (hi - lo)` for the next draw `d`. Each rejection-sampling loop of
the source keeps drawing until it succeeds. In the model such a loop stops
when the draws run out and reports it. The generator then returns `None`,
and a tick returns `Stalled`.

Positions are tiles. The source keeps the centre of the tile in floating
point and never leaves it, because every move is exactly one tile. The
angle is a number of quarter turns, and the direction `(cos, sin)` is the
facing it gives.

Behaviour of the code that the model keeps:

- **Round wrap.** `update_level` adds one to the round, and the round
  transition resets 4 to 1 before the maze is chosen. The rounds played are
  therefore 1, 2, 3, 1, ..., and round 4 is never played.
- **`select_maze` arity.** server/src/main.rs calls `select_maze` with a
  second argument, the player count. server/src/maze.rs declares only the
  level. The model uses the one-argument function, so the player count has
  no effect.
- **Join reply.** The id reply is sent before the loop that looks for a
  free tile.
- **Repeat draws.** `adjacent_is` looks only at the two neighbours of the
  drawn cell. An erosion or obstacle loop that draws a column it already
  changed counts it again, so a band can lose fewer bricks than asked for,
  and a corridor can get fewer obstacles.
- **Relocation.** Relocation moves the first player found standing on the
  hit tile. It draws a tile even when the shot hit a breakable wall.
- **Round-change flag.** `new_round_state` is set inside the score-reset
  loop, so it stays false when there are no players.
- **Broadcast gate.** The state is broadcast exactly when a player moved
  or one joined. Only after a broadcast are the flag and the winner
  cleared.
- **Repair.** `fix_enclosed_areas` opens at most one wall per enclosed
  cell and never revisits earlier cells. It therefore does not guarantee
  that every EMPTY cell ends up reachable from (1, 1), and the model does
  not claim it.

## Model

| member | source | states |
|---|---|---|
| Cells.TileIndex | server/src/main.rs:90 | The row-major index y * 24 + x of a grid tile lies in the flat maze. Taking it modulo 24 and dividing it by 24 give back the column and the row, as the relocation code assumes. |
| Cells.TileAt | server/src/main.rs:125-126 | The tile a hit index names is in the grid, and its row-major index is that index. |
| Cells.GenRange | server/src/main.rs:88-89 | `gen_range(lo..hi)` gives a value in [lo, hi). A draw already in range is returned unchanged. |
| Cells.NonWallIsInterior | server/src/main.rs:92 | On a maze whose border is WALL, a tile that is not WALL lies inside the border. |
| Cells.WriteKeepsBorder | server/src/main.rs:100 | Writing any value to an interior tile keeps the maze flat and its border WALL. |
| MazeGrid.SetCell | server/src/maze.rs:108 | The write sets the chosen cell, keeps the grid's shape and leaves every other cell as it was. |
| MazeGrid.AdjacentIsLocal | server/src/maze.rs:15-17 | The test reads only the two horizontal neighbours of (x, y): two mazes that agree on them give the same answer, whatever the cell itself or other rows hold. A true answer means both neighbours hold the given cell kind. |
| MazeGrid.GenericMazeLayout | server/src/maze.rs:19-94 | The template is 24x24. Its border is WALL, columns 1 and 22 are open, rows 2..10 (even) and 13..21 (odd) are walls from column 2 to 21, and every other cell is EMPTY. |
| MazeGrid.GenericMazeFramed | server/src/maze.rs:19-94 | The template has a WALL border and an EMPTY ring just inside it, and it holds only floor and walls. |
| MazeGrid.FlattenIndex | server/src/maze.rs:9-12 | Flattening equal-width rows gives |rows| * width cells, and the cell at (r, c) lands at index r * width + c. |
| MazeGrid.FlattenGrid | server/src/maze.rs:9-12 | A flattened 24x24 grid is a flat maze whose tile (x, y) is the grid's row y, column x. |
| MazeReach.IsReachableFromStart | server/src/maze.rs:163-194 | The search answers true if and only if some walk of 4-neighbour steps through in-bounds EMPTY cells leads from the given cell to (1, 1). |
| MazeReach.EnqueueNeighbours | server/src/maze.rs:174-190 | The `for` loop over the four moves marks every open, unvisited neighbour as visited. It appends exactly the newly visited cells to the queue, and each newly visited cell gets a recorded walk from the start. |
| MazeReach.TryMove | server/src/maze.rs:177-189 | One move: when the neighbour is in bounds, EMPTY and unvisited, it is added to the visited set and appended to the queue. Otherwise the visited set and the queue are unchanged. Every newly visited cell gets a recorded walk from the start. |
| MazeReach.RingReachesStart | server/src/maze.rs:19-94 | When the ring just inside the border is EMPTY, every ring cell has a walk along the ring to (1, 1). |
| MazeGen.ErodeRow | server/src/maze.rs:103-112 | One erosion loop changes only its row, and only in columns 2 to 21. Each cleared cell had WALL on both sides, no two cleared cells are adjacent, and at most `count` are cleared. |
| MazeGen.ErodeBands | server/src/maze.rs:102-124 | Both erosion loops: only rows 2, 4, .., 10 and 13, 15, .., 21 change. Each of them changes only in columns 2 to 21, and only to EMPTY at a cell whose two neighbours were WALL. No two cleared cells are adjacent, and at most `numRemovedBricks` are cleared per row. `done` is false only when the draws ran out. |
| MazeGen.AddObstacleRow | server/src/maze.rs:127-140 | One obstacle loop changes only its row, and only in columns 2 to 21. Each new cell is WALL or BREAKABLE and had EMPTY on both sides, no two are adjacent, and at most `count` are added. |
| MazeGen.AddObstacles | server/src/maze.rs:126-156 | Both obstacle loops: only rows 3, 5, 7, 9 and 12, 14, .., 20 change. Each of them changes only in columns 2 to 21, and only to WALL or BREAKABLE at a cell whose two neighbours were EMPTY. No two new cells are adjacent, and at most `obstacles` are added per row. `done` is false only when the draws ran out. |
| MazeGen.AddBreakableWalls | server/src/maze.rs:220-231 | Every changed cell lies in rows and columns 2 to 21 and went from WALL to BREAKABLE. At most 2 * count cells change, and exactly 2 * count when the loop finished. |
| MazeGen.RepairAt | server/src/maze.rs:200-214 | The repair at (i, j) is RepairCell: only an EMPTY cell from which no walk reaches (1, 1) gets a neighbour opened. |
| MazeGen.OpenFirstWall | server/src/maze.rs:206-213 | The inner loop over the four moves keeps the grid rectangular and of the same shape. |
| MazeGen.OpenFirstWallOnlyOpens | server/src/maze.rs:206-213 | The inner loop only turns a WALL cell into EMPTY. |
| MazeGen.OpenFirstWallOpensFirst | server/src/maze.rs:206-213 | The inner loop opens exactly the first neighbour, in the order down, up, right, left, that is a WALL. Without one it changes nothing. |
| MazeGen.OpenFirstWallTouchesNeighbours | server/src/maze.rs:206-213 | The inner loop changes no cell other than the four neighbours of (i, j). |
| MazeGen.RepairRow | server/src/maze.rs:199-216 | The inner `for j` loop applies the repair to columns 1 to width-2 of row i, in order. |
| MazeGen.FixRow | server/src/maze.rs:199-215 | Repairing the first cells of a row in order keeps the grid's shape. |
| MazeGen.FixRowOnlyOpens | server/src/maze.rs:199-215 | Repairing the first cells of a row in order only turns WALL cells into EMPTY. |
| MazeGen.FixRowKeepsBorder | server/src/maze.rs:199-215 | On a 24x24 grid with an open ring, repairing the first cells of a row keeps the ring open and the border unchanged. |
| MazeGen.FixRows | server/src/maze.rs:198-217 | Repairing the first rows in order keeps the grid's shape. |
| MazeGen.FixRowsOnlyOpens | server/src/maze.rs:198-217 | Repairing the first rows in order only turns WALL cells into EMPTY. |
| MazeGen.FixRowsKeepBorder | server/src/maze.rs:198-217 | On a 24x24 grid with an open ring, repairing the first rows keeps the ring open and the border unchanged. |
| MazeGen.FixEnclosedAreas | server/src/maze.rs:196-218 | The pass is the cell-by-cell repair in row-major order over rows and columns 1 to len-2. It only turns WALL cells into EMPTY, and on a 24x24 grid with an open ring it keeps the ring open and the border unchanged. |
| MazeGen.FixOnlyOpensWalls | server/src/maze.rs:196-218 | The whole repair pass differs from its input only where a WALL became EMPTY. |
| MazeGen.FixKeepsBorder | server/src/maze.rs:196-218 | With the ring open, the repair pass never writes a border cell and keeps the ring open. |
| MazeGen.GenerateMaze | server/src/maze.rs:96-161 | A generated maze is the template after erosion with `numRemovedBricks` bricks per band, (24 + numRemovedBricks) / 8 obstacles per corridor row, the repair pass, and 2 * numRemovedBricks walls turned breakable. It is 24x24, its border is WALL, the ring inside the border and (1, 1) are EMPTY, and it holds no PLAYER cell. It fails only when the draws run out. |
| MazeGen.GeneratedIsFramed | server/src/maze.rs:96-161 | Every grid the generator can make is 24x24 with a WALL border, an EMPTY ring inside it, (1, 1) open, and only EMPTY, WALL and BREAKABLE cells, because each pass keeps that frame. |
| MazeGen.GeneratedBreakables | server/src/maze.rs:158-160 | Every grid the generator can make holds at least 2 * numRemovedBricks breakable walls. |
| MazeGen.ErosionCount | server/src/maze.rs:7 | In rounds 1, 2 and 3 the bricks eroded per band are 3, 2 and 1, from 24 / 5 - level, and every corridor row then gets (24 + n) / 8 = 3 obstacles. The level must not exceed 4, the limit of the unsigned subtraction. |
| MazeGen.SelectMaze | server/src/maze.rs:6-13 | The game's maze is a grid the generator makes for the erosion count of the given level, flattened row-major, so it is a maze of that level. It has a WALL border, no player on it and (1, 1) open. |
| MazeGen.LevelMazeFramed | server/src/maze.rs:6-13 | Every maze of a level has a WALL border, holds no player and has the start tile (1, 1) open. |
| PlayerModel.Facing | server/src/player.rs:132 | The direction of an angle is a unit vector along an axis. |
| PlayerModel.FacingTurn | server/src/player.rs:73-82 | A quarter turn right maps the facing (dx, dy) to (-dy, dx), and a quarter turn left maps it to (dy, -dx). |
| PlayerModel.LeftThenRight | server/src/player.rs:73-82 | A turn undone by the opposite turn: `input` on "left" and then on "right", or "right" then "left", gives back the player it started from with the action cleared, on the same maze. The first turn alone always changes the facing. |
| PlayerModel.MoveVector | server/src/player.rs:134-148 | Every action other than W, S, D and A gives the zero move. |
| PlayerModel.MovesRelativeToFacing | server/src/player.rs:137-148 | W is the facing and S its opposite. D is the facing after a right turn and A after a left turn, so both are perpendicular to the facing and opposite to each other. |
| PlayerModel.MoveStaysInGrid | server/src/player.rs:150-152 | A move out of an interior tile lands in the grid, exactly one tile away. |
| PlayerModel.ClampCoord | server/src/player.rs:154-164 | The clamp gives a value in [0, hi] and leaves any value already in range unchanged. |
| PlayerModel.ShotHitsFirstHittable | server/src/player.rs:94-127 | The shot hits distance d if and only if d is at most 6, every tile before it is in the grid and neither WALL, PLAYER nor BREAKABLE, and the tile at d is PLAYER or BREAKABLE. |
| PlayerModel.ShotFrom | server/src/player.rs:94-127 | Scanning from distance d, a hit lies at a distance from d to 6. |
| PlayerModel.ShotFromIff | server/src/player.rs:94-127 | Scanning from distance d0 hits distance d exactly when d0 <= d, every tile from d0 up to d is in the grid and passable, and the tile at d is PLAYER or BREAKABLE. |
| PlayerModel.ShotHit | server/src/player.rs:84-127 | A hit index is a cell of the maze holding PLAYER or BREAKABLE. |
| PlayerModel.Player.constructor | server/src/player.rs:37-48 | A new player has the given id, name and tile. It faces (1, 0) at angle 0, with no pending action and score 0. |
| PlayerModel.Player.TouchingWall | server/src/player.rs:49-70 | A move into an EMPTY tile clears the old tile, marks the new one PLAYER, moves the player, clears the action and sets `moved`. Any other move changes nothing. |
| PlayerModel.Player.Shoot | server/src/player.rs:84-130 | The shot's hit is ShotHit. A hit empties that cell, sets `moved` and scores one point if the cell was a player. A miss changes neither maze nor score. The action is cleared either way and the border stays WALL. |
| PlayerModel.Player.Input | server/src/player.rs:72-166 | Per pending action. "left" and "right" turn a quarter, clear the action and set `moved`, and change neither tile, score nor maze. "shoot" keeps the angle and the tile and clears the action. A hit empties the hit cell, sets `moved` and scores one point exactly when that cell was PLAYER. A miss sets nothing and changes neither maze nor score. W, S, D and A keep the angle and score and hit nothing. A move into an EMPTY tile clears the old tile, marks the new one PLAYER, moves the player, clears the action and sets `moved`. A blocked move changes nothing and leaves the action pending. Any other action changes nothing. The direction stays the facing of the angle. |
| PlayerModel.InputMovedIff | server/src/player.rs:72-166 | An action sets `moved` exactly when it is a turn, when it moved the player to another tile, or when its shot hit a cell. A score rises only together with a hit of a PLAYER cell. |
| Messages.LeadingWhitespace | server/src/main.rs:74 | The count is the length of the longest prefix of White_Space characters. |
| Messages.TrailingWhitespace | server/src/main.rs:74 | The count is the length of the longest suffix of White_Space characters. |
| Messages.TrimSpec | server/src/main.rs:74 | `trim` keeps the contiguous piece of the string after its leading whitespace, and what it drops on either side is whitespace. |
| Messages.TrimEnds | server/src/main.rs:74 | A trimmed string is empty or neither starts nor ends with whitespace. |
| Messages.TrimIdempotent | server/src/main.rs:74 | Trimming twice is the same as trimming once. |
| Messages.IndexOf | server/src/main.rs:73 | The position found holds the character and no earlier position does. None means the character does not occur. |
| Messages.JoinName | server/src/main.rs:72-75 | With no ':' the name is "". Otherwise the name is the text after the first ':', trimmed, so it neither starts nor ends with whitespace. |
| Messages.JoinNameOfJoinMessage | server/src/main.rs:70-75 | "new_connection:<name>" is a join message and names the player trim(<name>), even when <name> contains ':'. |
| Messages.DecimalString | server/src/main.rs:79 | `to_string` of an id is a non-empty string of digits with no leading zero. |
| Messages.DecimalRoundTrip | server/src/main.rs:79 | The digits of the id read back as the id. |
| Messages.DecimalStringInjective | server/src/main.rs:79 | Distinct ids are sent as distinct strings. |
| Server.FailedPollIsQuiet | server/src/main.rs:61-70 | A failed poll is not a join and changes no pending action. |
| Server.JoinMessage | server/src/main.rs:70-77 | A "new_connection:<name>" datagram is a join even when its text would also parse as an update. It changes no pending action, and it is a new join exactly when its sender is not a client yet. |
| Server.PendingAction | server/src/main.rs:109-116 | A pending action changes only through an update, not a join, that names the player and is not "ping". Such an update always installs its action. |
| Server.KillsOfEntries | server/src/main.rs:123-130 | Each entry of the relocation list names a player whose input hit a cell, with that cell's index modulo 24 and divided by 24. |
| Server.KillsOfIncreasing | server/src/main.rs:123-130 | The relocation list names players in strictly increasing order, so at most one entry per player. |
| Server.KillsOfEmpty | server/src/main.rs:123-130 | The relocation list is empty exactly when no player's input hit a cell. |
| Server.EffectsExtend | server/src/main.rs:123-130 | Appending one more player's input effect extends the record of the loop. `moved` becomes the old flag or the new one, and the relocation list gains the new player's hit. |
| Server.ResolvedMoves | server/src/main.rs:118-131 | Over a whole pass of the resolution loop, some flag is set exactly when the relocation list is not empty or some player turned or changed tile. Every listed player had "shoot" pending. |
| Server.ResolvedScores | server/src/main.rs:118-131 | Over a whole pass of the resolution loop, every score rises by at most one and only with that player's flag. Every hit is a cell of the maze. |
| Server.ResolvedQuiet | server/src/main.rs:118-131 | When no player has a pending action that input acts on, the resolution loop changes no player and the maze, sets no flag and lists nobody. |
| Server.DrawnTile | server/src/main.rs:88-89 | The tile a pair of draws names is in the grid, and it is the draws themselves when they are in range. |
| Server.PickEmptyTile | server/src/main.rs:87-103 | The loop returns the tile FirstEmpty picks and leaves the draws FirstEmpty leaves. So it returns the first drawn EMPTY tile, and None only when no pair of the draws names one. |
| Server.FirstEmpty | server/src/main.rs:87-103 | Rejection sampling as a function. A picked tile is in the grid and EMPTY on the maze, the draws left are a suffix of those given, and nothing is picked only when fewer than two draws remain. |
| Server.FirstEmptyNone | server/src/main.rs:87-103 | When no tile is picked, no pair of the draws names an EMPTY tile. |
| Server.FirstEmptySome | server/src/main.rs:87-103 | A picked tile is the tile of the first pair of draws that names an EMPTY tile, and the draws left are exactly those after that pair. |
| Server.MarkPlayersAt | server/src/main.rs:213-240 | After marking a sequence of tiles, a tile is PLAYER if it is in the sequence and unchanged otherwise. |
| Server.PlacementExtend | server/src/main.rs:217-238 | Marking a tile that is still EMPTY extends a placement of distinct, originally EMPTY tiles by that tile. |
| Server.MarkedTerrain | server/src/main.rs:213-240 | On a maze with no player marked, the PLAYER cells after marking are exactly the marked tiles. |
| Server.FirstOn | server/src/main.rs:152-156 | The `find` over the players' tiles: the result is the first index from the given one on whose tile is the hit tile. None means no such index. |
| Server.Relocate | server/src/main.rs:133-167 | The relocation loop as a function of the tiles, the maze, the hit list and the draws. It keeps the maze flat and the number of tiles, leaves a suffix of the draws, never clears the flag, and stops early only when fewer than two draws remain. |
| Server.RelocateMarks | server/src/main.rs:133-167 | Relocation changes the maze only from EMPTY to PLAYER, and every tile that changed is such a cell. A changed tile sets the flag, and the flag is set only by an earlier move or when there were hits. Without it neither maze nor tiles change, and with no hits nothing changes and every draw is left. |
| Server.RelocateKeepsUnhit | server/src/main.rs:152-156 | A player whose tile is none of the hit tiles keeps its tile through the relocation. |
| Server.RelocateKeepsAllUnhit | server/src/main.rs:152-156 | Every player whose tile is none of the hit tiles keeps its tile through the relocation. |
| Server.ActMeaning | server/src/main.rs:118-167 | What the tick's flag amounts to, as ActOutcome relates the two loops. The flag is set exactly when the hit list is not empty or some player turned or changed tile. Every hit comes from a player with "shoot" pending, in strictly increasing id order. Without the flag no score changed. |
| Server.ActRelocation | server/src/main.rs:149-167 | Relocation only marks EMPTY cells PLAYER, every relocated player stands on such a cell, and a player on none of the hit tiles stays. |
| Server.ActIdle | server/src/main.rs:118-167 | When no player has an action that `input` acts on, the two loops change no record and no maze cell, and use no draw. |
| Server.SameScores | server/src/main.rs:203-211 | Records with equal scores reach the limit of 5 together. |
| Server.GameState.LimitIsNotBelow | server/src/main.rs:203-211 | Some score has reached 5 exactly when not every score is below 5. |
| Server.FirstScorer | server/src/main.rs:204-209 | A found index lies between the start index and the number of records, and that record's score has reached 5. |
| Server.FirstScorerIsFirst | server/src/main.rs:204-209 | No record between the start index and the found one has reached 5. None is returned only when no record from the start index on has. |
| Server.SameWinner | server/src/main.rs:204-209 | Records with the same scores and names have the same first scorer and the same winner's name. |
| Server.GameState.constructor | server/src/main.rs:38-46 | A new game has no players, is in round 1 with the given maze, has no round change announced and has no winner. |
| Server.NewGame | server/src/main.rs:38-46 | `GameState::new` starts a game between ticks, with no players, in round 1 and on a maze that `select_maze` can return for level 1. |
| Server.GameState.Register | server/src/main.rs:70-108 | An already registered endpoint changes nothing. A new one is sent its id, the current player count, as decimal text. The new player then gets that id, the trimmed name and a drawn EMPTY tile, which becomes PLAYER, and is entered in the client map. Earlier players are unchanged. |
| Server.GameState.ApplyUpdate | server/src/main.rs:109-116 | The player with the update's id gets its action unless the action is "ping". Every other field and player is unchanged. |
| Server.GameState.ResolveOne | server/src/main.rs:123-130 | One pass of the resolution loop: player i acts on the maze the earlier players left, with the effect Input states. The other players are unchanged. `moved` accumulates the flag, and the hit, if any, is appended to the relocation list with the player's id, the column and the row. |
| Server.GameState.ResolveEach | server/src/main.rs:118-131 | The loop over all players: each player in turn has the Input effect on the maze the earlier ones left, and the relocation list is what their hits give. |
| Server.GameState.ResolveAll | server/src/main.rs:118-131 | After the resolution loop, `moved` holds exactly when the relocation list is not empty or some player turned or went to another tile. Every listed player had "shoot" pending, each is listed at most once and in order, and the column and row lie in the grid. Every score rises by at most one and only in a tick that reports a move. When no player has a pending action, nothing moves, nothing is hit and nothing changes. |
| Server.GameState.RelocateOne | server/src/main.rs:134-166 | The drawn tile and the draws left are FirstEmpty's on the current maze. When a tile was drawn and someone stands on the hit tile, the first such player (FirstOn) moves there, the tile becomes PLAYER and `moved` is set. Otherwise no tile and no cell changes, although the draws are used. |
| Server.GameState.MovePlayer | server/src/main.rs:157-164 | Player j moves to the EMPTY tile t, and t is marked PLAYER. Every other tile and cell, including the player's old tile, is unchanged. |
| Server.GameState.RelocateStep | server/src/main.rs:134-166 | One entry of the relocation loop: Relocate of the old tiles and maze over the entries equals Relocate of the new ones over the remaining entries. When the draws ran out it equals the stopped relocation of the new state. |
| Server.GameState.RelocateKills | server/src/main.rs:133-167 | The loop leaves exactly the tiles, maze, flag and draws that Relocate gives for the old tiles and maze. So the maze changes only from EMPTY to PLAYER, and every player whose tile changed stands on such a cell and sets `moved`. `moved` needs a hit, without it nothing changed, a player on none of the hit tiles stays, and with no hits no draw is used. |
| Server.GameState.UpdateLevel | server/src/main.rs:203-212 | A round ends exactly when some score has reached 5. Then the round counter goes up by one and the winner is the first player, in order, whose score has reached 5; for players that show the records rs, that is Winner(rs). Otherwise round and winner stay. No player record changes. |
| Server.GameState.RandomizePlayerPosition | server/src/main.rs:213-240 | Every player lands on a tile that was EMPTY, and no two players share a tile. The new maze is the old one with exactly the players' tiles marked PLAYER. Each player's record is unchanged except for its tile. |
| Server.GameState.PlacePlayer | server/src/main.rs:216-238 | One pass of the placement loop extends the placement: player i gets a tile that was EMPTY on the round's maze and differs from the earlier players' tiles, and the maze has exactly the placed tiles marked. |
| Server.GameState.PlacedEveryone | server/src/main.rs:215-239 | A placement that covers every player gives each its own tile, EMPTY beforehand, and the maze has exactly those tiles marked. |
| Server.GameState.ResetScores | server/src/main.rs:176-179 | Each player's record is unchanged except that its score becomes 0. The round change is announced exactly when there is at least one player. |
| Server.GameState.InstallMaze | server/src/main.rs:175 | The installed maze is a maze of the current round's level, with no player on it and (1, 1) open. |
| Server.GameState.PrepareRound | server/src/main.rs:171-179 | The round wraps from 4 to 1 and a maze of the new round's level is installed. Each player's record is unchanged except that its score becomes 0, and the round change is announced exactly when there is a player. |
| Server.GameState.StartNewRound | server/src/main.rs:171-181 | The round wraps from 4 to 1. From the records rs of the resolution pass, the players become rs with every score 0, each on a tile of its own. The maze is a maze of the new round's level with exactly the players' tiles marked PLAYER, and each of those tiles was EMPTY on that level maze. The round change is announced if there is a player, and the winner is kept. |
| Server.GameState.PlaceForRound | server/src/main.rs:213-240 | On a maze without players and with the scores reset, every player lands on its own tile, EMPTY on that maze, and the new maze is that one with exactly the players' tiles marked. The records stay reset and no score reaches 5. |
| Server.GameState.PlacedOnLevel | server/src/main.rs:175-180 | Players placed on EMPTY cells of a maze of the round's level stand on that maze with their tiles marked. |
| Server.GameState.LevelUp | server/src/main.rs:168-181 | A new round starts exactly when a score in the pass's records reached 5. Without one the state is unchanged and still shows the pass and the relocation. With one the round goes 1 to 2 to 3 to 1, and the players are the pass's records with scores 0 on distinct tiles, each EMPTY on a maze of the new level, with exactly their tiles marked. The round change is then announced and the winner is Winner of the pass's records. It fails only in a new round whose draws run out. |
| Server.GameState.Receive | server/src/main.rs:61-116 | A handled datagram relates the old records, maze, clients and draws to the new ones as Received states. It is a join exactly when its sender is a new client. The new player then gets the next id, the trimmed name and FirstEmpty's tile, which becomes PLAYER, and it is entered in the client map. The reply is the id as decimal text. Any other datagram sets each pending action to PendingAction of it and changes nothing else, with no reply. Handling fails only for a new join without draws. A datagram that is not a new join and leaves no action pending leaves the game idle. |
| Server.GameState.ReceiveJoin | server/src/main.rs:70-108 | A join acts exactly when its sender is not yet a client, and then replies with the player count as decimal text. The records become the old ones plus player n = the old count on FirstEmpty's tile: facing (1, 0) at angle 0, nothing pending, the trimmed name, score 0. That tile becomes PLAYER, the draws after it are left, and the client map gains the sender with that record. A known sender changes nothing. |
| Server.GameState.ReceiveUpdate | server/src/main.rs:109-116 | Any other datagram sets each player's pending action to PendingAction of it and changes no tile or score. |
| Server.GameState.Act | server/src/main.rs:118-167 | Every player acts, then the shot players are relocated. The resolution pass starts from the old records and the old maze, and the relocation runs over the pass's hits, as ActOutcome relates them. The new state is the pass's records on the relocated tiles, on the relocated maze. `moved` holds exactly when some `input` set it or a relocation found a player. Without a move no score has reached 5, and an idle game stays unchanged. |
| Server.GameState.RelocateAfter | server/src/main.rs:133-167 | The relocation after the resolution pass is Relocate of the pass's tiles on its last maze over the hits it listed, so the two loops satisfy ActOutcome. The state becomes the pass's records on the relocated tiles, on the relocated maze, and `moved` is the pass's flag or the relocation's. |
| Server.GameState.Advance | server/src/main.rs:118-181 | The two loops as in Act, then the round check. When relocation runs out of draws the tick stops in that state. Otherwise a new round starts exactly when a score in the pass's records reached 5, and a new round always counts as a move. Without one the state is Act's. With one it is a fresh round from the pass's records: scores 0, distinct tiles that were EMPTY on a maze of the new level, that maze with the players marked, and the round going from 1 to 2 to 3 to 1. The round change is then announced and the winner is Winner of the pass's records; without a new round both flag and winner stay. An idle game uses no draws and changes nothing. |
| Server.GameState.Announce | server/src/main.rs:183-198 | The broadcast carries the state before the clear. The round-change flag and the winner are cleared afterwards. |
| Server.GameState.Publish | server/src/main.rs:183-198 | The state is broadcast to exactly the given endpoints exactly when a player moved or one joined. The snapshot shows the records, the maze, the round, the round-change flag and the winner before they are cleared. Afterwards the game is between ticks, and the settled state is kept: the loops' state, or the fresh round. |
| Server.GameState.Conclude | server/src/main.rs:118-198 | The part of a tick after the datagram. The two loops run from the old records and maze as ActOutcome relates them, and the tick stalls when the draws run out. A completed tick passes the reply on and is Concluded. A new round starts exactly when a score in the pass reached 5, else the state is the loops' state. The broadcast goes to exactly the given endpoints exactly when a player moved or one joined, and carries the state left: the records, the maze and the round (advanced and wrapped only in a new round), the round-change flag set exactly in a new round, and as winner Winner of the pass's records in a new round and "" otherwise. An idle game without a join sends nothing and changes nothing. |
| Server.GameState.Tick | server/src/main.rs:60-199 | One loop pass. The polled datagram (an empty text from the placeholder address when nothing arrived) takes the old records, maze, clients and draws to `pending`, `maze1`, `left`, the new client map and the reply, as Received states: a reply and a client entry exactly for a new joiner. From there the two loops are the ActOutcome of `pending` on `maze1` with `left`, and `moved` holds exactly when some `input` set it or a relocation found a player. The tick is Concluded: the round check and the broadcast to exactly the client map's endpoints exactly when a player moved or one joined, carrying the state left, the round-change flag exactly in a new round, and the winner of the round just ended. A tick with no new join and no pending action sends nothing and changes nothing. |

## Left out

- The UDP socket, tokio and the thread RNG are parameters. The datagram a poll returns is an `Option`, the draws are a sequence of numbers, and the reply and the broadcast are returned values.
- The JSON of serde: parsing an update is given with the datagram as an optional `PlayerUpdate`, and the broadcast is the `Snapshot` value, not its text.
- UTF-8 lossy decoding and the 1024-byte receive buffer: a datagram's text is given as a string.
- The console output (`println!`) is left out because it does not affect the state.
- The 5-second sleep after a round change is left out because it only delays the loop (server/src/main.rs:192-195).
- Rejection sampling never gives up in the source. In the model each such loop stops when the draws run out, and the result is None, `done == false` or `Stalled`, so the model says nothing about runs that need more draws than are given.
- The obstacle loops draw the breakable coin after placing a wall. When that second draw is missing the model stops the pass there.
- A join whose placement runs out of draws has already sent its id reply in the source too. The model reports the tick as Stalled with the game unchanged beyond that.
- Floating point: positions are tiles (`TILE_SIZE`), and the angle is a number of quarter turns instead of radians, with `cos` and `sin` giving the axis directions. The drift of `f32` cos/sin away from exact axis values, which the source's rounding and truncation absorb, is not modelled.
- `angle_vertical` is never changed by the server, so it is left out.
- `generate_maze`'s width and height parameters: both are always 24, so the model fixes them.
- `score` is a `u32` in the source. It is a natural number here, since scores reset at 5 and never overflow.
- The client map stores a clone of the player made at join time. The model keeps the record of the new player, which is that value.
- Server.GameState.Act: its contract gives `moved` as "some `input` set the flag or a relocation found a player", over the pass and the relocation of ActOutcome. What that amounts to (turns, tile changes, hits by players with "shoot" pending) is proved once, by ActMeaning (with ActRelocation for the tiles), and is not repeated in the contract.
- Server.GameState.Advance: the same holds for its `moved`. After a new round the players stand on newly drawn tiles, which the pass's records do not describe; FreshRound states those.
- Server.GameState.Conclude: the same holds for its `moved`.
- Server.GameState.Tick: the same holds for its `moved`, over `pending`, the records after the datagram was handled. A tick with a join broadcasts anyway, so then its `moved` decides nothing.
- Server.GameState.StartNewRound: the installed maze is named only as some maze of the level on whose EMPTY cells the players' tiles were then marked. The draws that chose it are not related to the result.
- MazeGen.FixEnclosedAreas: does not state that every EMPTY cell is reachable afterwards. The pass opens at most one wall per enclosed cell and never revisits earlier cells, so the code does not guarantee it.
- MazeGen.ErosionCount: requires a level of at most 4. In the source a larger level underflows the unsigned subtraction, and the server only ever passes rounds 1 to 3.
- The client (rendering, menu, raycasting for display) is not part of this model.
