/**
 * The game server of server/src/main.rs: the game state, the body of the
 * server loop (one tick: receive, join or update, resolve every player's
 * action, relocate killed players, detect the end of a round, broadcast),
 * `update_level` and `randomize_player_position`.
 *
 * The socket is a parameter: a tick receives at most one datagram and
 * returns what it sends. The random generator is a sequence of raw draws;
 * a tick whose rejection sampling runs out of draws reports Stalled.
 */
module Server {
  import opened Cells
  import opened MazeGen
  import opened PlayerModel
  import opened Messages

  /** A client's socket address. */
  datatype Endpoint = Endpoint(ip: seq<Byte>, port: nat)

  /** The address a failed poll reports: 0.0.0.0:0. */
  const PLACEHOLDER: Endpoint := Endpoint([0, 0, 0, 0], 0)

  /** The JSON message a client sends for an action. */
  datatype PlayerUpdate = PlayerUpdate(id: nat, action: string)

  /**
   * A received datagram: its sender, its text, and what parsing the text
   * as a JSON PlayerUpdate gives (None when it does not parse).
   */
  datatype Datagram = Datagram(from: Endpoint, text: string, update: Option<PlayerUpdate>)

  /** The serialised game state. */
  datatype Snapshot = Snapshot(players: seq<PlayerRecord>, maze: seq<Byte>, round: nat,
                               newRoundState: bool, winner: string)

  datatype Reply = Reply(to: Endpoint, text: string)
  datatype Broadcast = Broadcast(state: Snapshot, to: set<Endpoint>)

  /** What a tick sends: the id reply to a new client, and the broadcast of the state. */
  datatype TickOutcome = Stalled | Completed(reply: Option<Reply>, broadcast: Option<Broadcast>)

  /** The datagram a tick works on: a failed poll reads as the empty text from the placeholder address. */
  function Polled(received: Option<Datagram>): (d: Datagram)
    ensures received.None? ==> d.from == PLACEHOLDER && d.text == "" && d.update.None?
  {
    match received
    case None => Datagram(PLACEHOLDER, "", None)
    case Some(d) => d
  }

  /** The datagram asks to join. */
  predicate IsJoin(d: Datagram) {
    StartsWith(d.text, JOIN_PREFIX)
  }

  /** A polled datagram that is a join from an endpoint that has not joined yet. */
  predicate IsNewJoin(d: Datagram, clients: map<Endpoint, PlayerRecord>) {
    IsJoin(d) && d.from !in clients
  }

  /** The action player i has pending once the datagram has been applied: a parsed update for i replaces it, unless it is "ping". */
  function PendingAction(d: Datagram, i: nat, current: string): (action: string)
    ensures action != current ==>
      !IsJoin(d) && d.update.Some? && d.update.value.id == i && d.update.value.action == action && action != "ping"
    ensures !IsJoin(d) && d.update.Some? && d.update.value.id == i && d.update.value.action != "ping" ==>
      action == d.update.value.action
  {
    if !IsJoin(d) && d.update.Some? && d.update.value.id == i && d.update.value.action != "ping"
    then d.update.value.action
    else current
  }

  /** A failed poll changes no pending action. */
  lemma FailedPollIsQuiet(i: nat, current: string)
    ensures PendingAction(Polled(None), i, current) == current
    ensures !IsJoin(Polled(None))
  {
  }

  /**
   * A "new_connection:<name>" datagram is a join, whatever its text would
   * parse to: it changes no pending action, and it is a new join exactly
   * when its sender has not joined yet.
   */
  lemma JoinMessage(from: Endpoint, name: string, update: Option<PlayerUpdate>,
                    clients: map<Endpoint, PlayerRecord>, i: nat, current: string)
    ensures IsJoin(Datagram(from, JOIN_PREFIX + ":" + name, update))
    ensures PendingAction(Datagram(from, JOIN_PREFIX + ":" + name, update), i, current) == current
    ensures IsNewJoin(Datagram(from, JOIN_PREFIX + ":" + name, update), clients) <==> from !in clients
  {
    JoinNameOfJoinMessage(name);
  }

  /**
   * The relocation list the resolution loop collects from the players'
   * hits: for each player, in order, that destroyed a cell, its id and the
   * cell's column idx % MAZE_WIDTH and row idx / MAZE_HEIGHT.
   */
  function KillsOf(hits: seq<Option<nat>>): (kills: seq<(nat, nat, nat)>)
    ensures |kills| <= |hits|
  {
    if hits == [] then [] else
      var last := match hits[|hits| - 1]
        case None => []
        case Some(h) => [(|hits| - 1, h % MAZE_WIDTH, h / MAZE_HEIGHT)];
      KillsOf(hits[..|hits| - 1]) + last
  }

  /**
   * Each entry of the relocation list names a player that destroyed a cell,
   * with that cell's column and row.
   */
  lemma {:induction false} KillsOfEntries(hits: seq<Option<nat>>)
    ensures forall k :: 0 <= k < |KillsOf(hits)| ==>
      var e := KillsOf(hits)[k];
      e.0 < |hits| && hits[e.0].Some? && e.1 == hits[e.0].value % MAZE_WIDTH && e.2 == hits[e.0].value / MAZE_HEIGHT
  {
    if hits != [] {
      var init := hits[..|hits| - 1];
      KillsOfEntries(init);
      assert forall i :: 0 <= i < |init| ==> init[i] == hits[i];
    }
  }

  /** The relocation list comes in strictly increasing player order, every id below the number of players. */
  lemma {:induction false} KillsOfIncreasing(hits: seq<Option<nat>>)
    ensures forall k :: 0 <= k < |KillsOf(hits)| ==> KillsOf(hits)[k].0 < |hits|
    ensures forall k, l :: 0 <= k < l < |KillsOf(hits)| ==> KillsOf(hits)[k].0 < KillsOf(hits)[l].0
  {
    if hits != [] {
      KillsOfIncreasing(hits[..|hits| - 1]);
    }
  }

  /** The relocation list is empty exactly when nobody destroyed anything. */
  lemma {:induction false} KillsOfEmpty(hits: seq<Option<nat>>)
    ensures KillsOf(hits) == [] <==> forall i :: 0 <= i < |hits| ==> hits[i].None?
  {
    if hits != [] {
      var init := hits[..|hits| - 1];
      KillsOfEmpty(init);
      assert forall i :: 0 <= i < |init| ==> init[i] == hits[i];
    }
  }

  /**
   * The first |after| players of `before` have applied `input` in turn, the
   * k-th one turning maze mazes[k] into mazes[k + 1] and becoming after[k],
   * with flags[k] and hits[k] what it returned.
   */
  ghost predicate EffectsHold(before: seq<PlayerRecord>, after: seq<PlayerRecord>, mazes: seq<seq<Byte>>,
                              flags: seq<bool>, hits: seq<Option<nat>>)
  {
    |after| <= |before| && |flags| == |after| && |hits| == |after| && |mazes| == |after| + 1 &&
    forall k :: 0 <= k < |after| ==> EffectAt(before, after, mazes, flags, hits, k)
  }

  /** What player k of a pass did: `input` on the maze the players before it left. */
  ghost predicate EffectAt(before: seq<PlayerRecord>, after: seq<PlayerRecord>, mazes: seq<seq<Byte>>,
                           flags: seq<bool>, hits: seq<Option<nat>>, k: int)
    requires 0 <= k < |after| <= |before| && |flags| == |after| && |hits| == |after| && |mazes| == |after| + 1
  {
    IsFlatMaze(mazes[k]) && IsFlatMaze(mazes[k + 1]) && InGrid(before[k].tile) &&
    InputEffect(before[k], mazes[k], after[k], mazes[k + 1], flags[k], hits[k])
  }

  /**
   * One more player applying `input` extends the pass, and the flag and
   * the relocation list grow by what it returned.
   */
  lemma EffectsExtend(before: seq<PlayerRecord>, after: seq<PlayerRecord>, mazes: seq<seq<Byte>>,
                      flags: seq<bool>, hits: seq<Option<nat>>,
                      q: PlayerRecord, m: seq<Byte>, moved: bool, hit: Option<nat>)
    requires EffectsHold(before, after, mazes, flags, hits) && |after| < |before|
    requires IsFlatMaze(mazes[|after|]) && InGrid(before[|after|].tile) && IsFlatMaze(m)
    requires InputEffect(before[|after|], mazes[|after|], q, m, moved, hit)
    ensures EffectsHold(before, after + [q], mazes + [m], flags + [moved], hits + [hit])
    ensures (true in flags + [moved]) <==> (true in flags || moved)
    ensures KillsOf(hits + [hit]) ==
      KillsOf(hits) + (if hit.Some? then [(|after|, hit.value % MAZE_WIDTH, hit.value / MAZE_HEIGHT)] else [])
  {
    var n := |after|;
    var after', mazes', flags', hits' := after + [q], mazes + [m], flags + [moved], hits + [hit];
    forall k | 0 <= k <= n
      ensures EffectAt(before, after', mazes', flags', hits', k)
    {
      if k < n {
        assert EffectAt(before, after, mazes, flags, hits, k);
      }
    }
    assert hits'[..n] == hits;
  }

  /** Some player turned, or stands on another tile afterwards. */
  ghost predicate AnyMoved(before: seq<PlayerRecord>, after: seq<PlayerRecord>)
    requires |after| == |before|
  {
    exists i :: 0 <= i < |before| && (before[i].action in {"left", "right"} || after[i].tile != before[i].tile)
  }

  /**
   * A whole pass of `input` moved something exactly when some player
   * turned, went to another tile or destroyed a cell, and every destroyed
   * cell belongs to a player whose action was "shoot".
   */
  lemma ResolvedMoves(before: seq<PlayerRecord>, after: seq<PlayerRecord>, mazes: seq<seq<Byte>>,
                      flags: seq<bool>, hits: seq<Option<nat>>)
    requires EffectsHold(before, after, mazes, flags, hits) && |after| == |before|
    ensures (true in flags) <==> (KillsOf(hits) != [] || AnyMoved(before, after))
    ensures forall k :: 0 <= k < |KillsOf(hits)| ==>
      KillsOf(hits)[k].0 < |before| && before[KillsOf(hits)[k].0].action == "shoot"
  {
    KillsOfEntries(hits);
    KillsOfEmpty(hits);
    forall i | 0 <= i < |before|
      ensures flags[i] <==> Acted(before[i], after[i], hits[i])
      ensures hits[i].Some? ==> before[i].action == "shoot"
    {
      assert EffectAt(before, after, mazes, flags, hits, i);
      InputMovedIff(before[i], mazes[i], after[i], mazes[i + 1], flags[i], hits[i]);
    }
    if true in flags {
      var i :| 0 <= i < |flags| && flags[i];
      assert Acted(before[i], after[i], hits[i]);
    }
  }

  /**
   * In a whole pass a score rises by at most one, and only for a player
   * that set the flag; every destroyed cell lies inside the grid.
   */
  lemma ResolvedScores(before: seq<PlayerRecord>, after: seq<PlayerRecord>, mazes: seq<seq<Byte>>,
                       flags: seq<bool>, hits: seq<Option<nat>>)
    requires EffectsHold(before, after, mazes, flags, hits) && |after| == |before|
    ensures forall k :: 0 <= k < |before| ==> before[k].score <= after[k].score <= before[k].score + 1
    ensures forall k :: 0 <= k < |before| && after[k].score > before[k].score ==> flags[k]
    ensures forall k :: 0 <= k < |before| && hits[k].Some? ==> hits[k].value < MAZE_WIDTH * MAZE_HEIGHT
  {
    forall k | 0 <= k < |before|
      ensures before[k].score <= after[k].score <= before[k].score + 1
      ensures after[k].score > before[k].score ==> flags[k]
      ensures hits[k].Some? ==> hits[k].value < MAZE_WIDTH * MAZE_HEIGHT
    {
      assert EffectAt(before, after, mazes, flags, hits, k);
      InputMovedIff(before[k], mazes[k], after[k], mazes[k + 1], flags[k], hits[k]);
    }
  }

  /**
   * A pass in which no player has a pending action `input` acts on changes
   * nothing: no flag, no hit, the same records and the same maze.
   */
  lemma ResolvedQuiet(before: seq<PlayerRecord>, after: seq<PlayerRecord>, mazes: seq<seq<Byte>>,
                      flags: seq<bool>, hits: seq<Option<nat>>)
    requires EffectsHold(before, after, mazes, flags, hits) && |after| == |before|
    requires forall k :: 0 <= k < |before| ==> before[k].action !in ACTIONS
    ensures after == before && mazes[|after|] == mazes[0] && true !in flags && KillsOf(hits) == []
  {
    forall k | 0 <= k < |before|
      ensures after[k] == before[k] && mazes[k + 1] == mazes[k] && !flags[k] && hits[k].None?
    {
      assert EffectAt(before, after, mazes, flags, hits, k);
    }
    QuietMazes(mazes, |after|);
    KillsOfEmpty(hits);
  }

  /** A sequence each of whose entries equals the one before ends where it starts. */
  lemma {:induction false} QuietMazes(mazes: seq<seq<Byte>>, j: nat)
    requires j < |mazes| && forall k :: 0 <= k < j ==> mazes[k + 1] == mazes[k]
    ensures mazes[j] == mazes[0]
  {
    if j > 0 {
      QuietMazes(mazes, j - 1);
    }
  }

  /** m1 differs from m0 only where an EMPTY cell of m0 is PLAYER in m1. */
  ghost predicate OnlyMarked(m0: seq<Byte>, m1: seq<Byte>) {
    |m1| == |m0| && forall j :: 0 <= j < |m0| && m1[j] != m0[j] ==> m0[j] == EMPTY && m1[j] == PLAYER
  }

  /** Tile t is EMPTY in m0 and PLAYER in m1. */
  ghost predicate Marked(m0: seq<Byte>, m1: seq<Byte>, t: Tile) {
    IsFlatMaze(m0) && IsFlatMaze(m1) && InGrid(t) && At(m0, t) == EMPTY && At(m1, t) == PLAYER
  }

  /** Marking cells in two rounds marks them once, and a cell marked in either round ends marked. */
  lemma MarksCompose(m0: seq<Byte>, m1: seq<Byte>, m2: seq<Byte>, t: Tile)
    requires IsFlatMaze(m0) && OnlyMarked(m0, m1) && OnlyMarked(m1, m2)
    requires InGrid(t) && (Marked(m0, m1, t) || Marked(m1, m2, t))
    ensures OnlyMarked(m0, m2) && Marked(m0, m2, t)
  {
    var j := TileIndex(t);
    assert m0[j] == EMPTY;
  }

  /** The tile the j-th pair of draws names: x by gen_range(0..MAZE_WIDTH), then y by gen_range(0..MAZE_HEIGHT). */
  function DrawnTile(draws: seq<nat>, j: nat): (t: Tile)
    requires 2 * j + 1 < |draws|
    ensures InGrid(t)
    ensures draws[2 * j] < MAZE_WIDTH && draws[2 * j + 1] < MAZE_HEIGHT ==> t == Tile(draws[2 * j], draws[2 * j + 1])
  {
    Tile(GenRange(0, MAZE_WIDTH, draws[2 * j]), GenRange(0, MAZE_HEIGHT, draws[2 * j + 1]))
  }

  /** A tile drawn by rejection sampling, and the draws left after it. */
  datatype Pick = Pick(tile: Option<Tile>, rest: seq<nat>)

  /**
   * Rejection sampling as a function: the first pair of draws naming a
   * tile that is EMPTY on the maze, and the draws after that pair; None
   * when fewer than two draws are left.
   */
  function FirstEmpty(maze: seq<Byte>, draws: seq<nat>): (p: Pick)
    requires IsFlatMaze(maze)
    ensures IsSuffix(p.rest, draws)
    ensures p.tile.Some? ==> InGrid(p.tile.value) && At(maze, p.tile.value) == EMPTY
    ensures p.tile.None? ==> |p.rest| < 2
    decreases |draws|
  {
    if |draws| < 2 then Pick(None, draws)
    else if At(maze, DrawnTile(draws, 0)) == EMPTY then Pick(Some(DrawnTile(draws, 0)), draws[2..])
    else FirstEmpty(maze, draws[2..])
  }

  /** Pair j + 1 of the draws is pair j of the draws after the first pair. */
  lemma DrawnTileShift(draws: seq<nat>)
    requires |draws| >= 2
    ensures forall j :: 1 <= j <= |draws[2..]| / 2 ==> DrawnTile(draws, j) == DrawnTile(draws[2..], j - 1)
  {
    forall j | 1 <= j <= |draws[2..]| / 2
      ensures DrawnTile(draws, j) == DrawnTile(draws[2..], j - 1)
    {
      assert draws[2..][2 * (j - 1)] == draws[2 * j] && draws[2..][2 * (j - 1) + 1] == draws[2 * j + 1];
    }
  }

  /** When FirstEmpty picks no tile, no pair of the draws names an EMPTY tile. */
  lemma {:induction false} FirstEmptyNone(maze: seq<Byte>, draws: seq<nat>)
    requires IsFlatMaze(maze) && FirstEmpty(maze, draws).tile.None?
    ensures forall j :: 0 <= j < |draws| / 2 ==> At(maze, DrawnTile(draws, j)) != EMPTY
    decreases |draws|
  {
    if |draws| >= 2 {
      FirstEmptyNone(maze, draws[2..]);
      DrawnTileShift(draws);
    }
  }

  /** Pair k of the draws is the first pair that names an EMPTY tile of the maze. */
  ghost predicate FirstEmptyPair(maze: seq<Byte>, draws: seq<nat>, k: nat)
    requires IsFlatMaze(maze)
  {
    2 * k + 1 < |draws| && At(maze, DrawnTile(draws, k)) == EMPTY &&
    forall j :: 0 <= j < k ==> At(maze, DrawnTile(draws, j)) != EMPTY
  }

  /**
   * When FirstEmpty picks a tile, it is the tile of the first pair k that
   * names an EMPTY tile, and the draws left are those after pair k.
   */
  lemma {:induction false} FirstEmptySome(maze: seq<Byte>, draws: seq<nat>)
    requires IsFlatMaze(maze) && FirstEmpty(maze, draws).tile.Some?
    ensures exists k: nat ::
              FirstEmptyPair(maze, draws, k) &&
              FirstEmpty(maze, draws).tile == Some(DrawnTile(draws, k)) && |FirstEmpty(maze, draws).rest| == |draws| - 2 * k - 2
    decreases |draws|
  {
    if At(maze, DrawnTile(draws, 0)) == EMPTY {
      assert FirstEmptyPair(maze, draws, 0);
    } else {
      var tail := draws[2..];
      FirstEmptySome(maze, tail);
      DrawnTileShift(draws);
      var k: nat :| FirstEmptyPair(maze, tail, k) &&
        FirstEmpty(maze, tail).tile == Some(DrawnTile(tail, k)) && |FirstEmpty(maze, tail).rest| == |tail| - 2 * k - 2;
      assert FirstEmptyPair(maze, draws, k + 1);
    }
  }

  /**
   * The rejection loop the server uses to place a player: draw tiles until
   * one is EMPTY. The result is the first drawn EMPTY tile; None when the
   * draws run out first.
   */
  method PickEmptyTile(maze: seq<Byte>, draws: seq<nat>) returns (tile: Option<Tile>, rest: seq<nat>)
    requires IsFlatMaze(maze)
    ensures IsSuffix(rest, draws)
    ensures tile == FirstEmpty(maze, draws).tile && rest == FirstEmpty(maze, draws).rest
  {
    rest := draws;
    while |rest| >= 2
      invariant IsSuffix(rest, draws) && FirstEmpty(maze, draws) == FirstEmpty(maze, rest)
    {
      var newXTile := GenRange(0, MAZE_WIDTH, rest[0]);
      var newYTile := GenRange(0, MAZE_HEIGHT, rest[1]);
      var idx := newYTile * MAZE_WIDTH + newXTile;
      assert Tile(newXTile, newYTile) == DrawnTile(rest, 0);
      rest := rest[2..];
      if maze[idx] == EMPTY {
        return Some(Tile(newXTile, newYTile)), rest;
      }
    }
    return None, rest;
  }

  /** The first index from `from` on whose tile is t: the `find` over the players' positions. */
  function FirstOn(ts: seq<Tile>, t: Tile, from: nat): (r: Option<nat>)
    ensures r.Some? ==> from <= r.value < |ts| && ts[r.value] == t
    ensures r.Some? ==> forall k :: from <= k < r.value ==> ts[k] != t
    ensures r.None? ==> forall k :: from <= k < |ts| ==> ts[k] != t
    decreases |ts| - from
  {
    if from >= |ts| then None
    else if ts[from] == t then Some(from)
    else FirstOn(ts, t, from + 1)
  }

  /** Where the relocation loop leaves the players' tiles, the maze, the flag and the draws; `ok` is false when the draws ran out. */
  datatype Relocation = Relocation(tiles: seq<Tile>, maze: seq<Byte>, moved: bool, rest: seq<nat>, ok: bool)

  /**
   * The relocation loop as a function. For each entry (id, x, y) in order:
   * draw the first EMPTY tile; the first player standing on (x, y), if
   * any, moves to it, the tile becomes PLAYER and the flag is set. When no
   * EMPTY tile can be drawn the loop stops there.
   */
  function Relocate(tiles: seq<Tile>, maze: seq<Byte>, kills: seq<(nat, nat, nat)>, draws: seq<nat>, moved: bool)
    : (r: Relocation)
    requires IsFlatMaze(maze)
    ensures IsFlatMaze(r.maze) && |r.tiles| == |tiles| && IsSuffix(r.rest, draws)
    ensures moved ==> r.moved
    ensures !r.ok ==> |r.rest| < 2
    decreases |kills|
  {
    if kills == [] then Relocation(tiles, maze, moved, draws, true)
    else
      var p := FirstEmpty(maze, draws);
      if p.tile.None? then Relocation(tiles, maze, moved, p.rest, false)
      else
        var r := match FirstOn(tiles, Tile(kills[0].1, kills[0].2), 0)
          case None => Relocate(tiles, maze, kills[1..], p.rest, moved)
          case Some(j) => Relocate(tiles[j := p.tile.value], maze[TileIndex(p.tile.value) := PLAYER], kills[1..], p.rest, true);
        SuffixTransitive(r.rest, p.rest, draws);
        r
  }

  /**
   * The relocation loop changes the maze only from EMPTY to PLAYER, every
   * player whose tile changed stands on such a cell, the flag is set when
   * one did, and it is set only by an earlier move or some entry; without
   * it nothing changed. With no entries no draw is used.
   */
  lemma {:induction false} RelocateMarks(tiles: seq<Tile>, maze: seq<Byte>, kills: seq<(nat, nat, nat)>,
                                         draws: seq<nat>, moved: bool)
    requires IsFlatMaze(maze)
    ensures var r := Relocate(tiles, maze, kills, draws, moved);
      OnlyMarked(maze, r.maze) &&
      (forall i :: 0 <= i < |tiles| && r.tiles[i] != tiles[i] ==> Marked(maze, r.maze, r.tiles[i])) &&
      ((exists i :: 0 <= i < |tiles| && r.tiles[i] != tiles[i]) ==> r.moved) &&
      (r.moved ==> moved || kills != []) &&
      (!r.moved ==> r.maze == maze && r.tiles == tiles) &&
      (kills == [] ==> r == Relocation(tiles, maze, moved, draws, true))
    decreases |kills|
  {
    if kills != [] {
      var p := FirstEmpty(maze, draws);
      if p.tile.Some? {
        var t := p.tile.value;
        match FirstOn(tiles, Tile(kills[0].1, kills[0].2), 0)
        case None =>
          RelocateMarks(tiles, maze, kills[1..], p.rest, moved);
        case Some(j) =>
          var tiles', maze' := tiles[j := t], maze[TileIndex(t) := PLAYER];
          RelocateMarks(tiles', maze', kills[1..], p.rest, true);
          var r := Relocate(tiles', maze', kills[1..], p.rest, true);
          assert Marked(maze, maze', t);
          assert OnlyMarked(maze, maze');
          forall i | 0 <= i < |tiles| && r.tiles[i] != tiles[i]
            ensures Marked(maze, r.maze, r.tiles[i])
          {
            if r.tiles[i] != tiles'[i] {
              MarksCompose(maze, maze', r.maze, r.tiles[i]);
            } else {
              MarksCompose(maze, maze', r.maze, t);
            }
          }
          MarksCompose(maze, maze', r.maze, t);
      }
    }
  }

  /** A player standing on none of the entries' tiles keeps its tile. */
  lemma {:induction false} RelocateKeepsUnhit(tiles: seq<Tile>, maze: seq<Byte>, kills: seq<(nat, nat, nat)>,
                                              draws: seq<nat>, moved: bool, i: nat)
    requires IsFlatMaze(maze) && i < |tiles|
    requires forall k :: 0 <= k < |kills| ==> Tile(kills[k].1, kills[k].2) != tiles[i]
    ensures Relocate(tiles, maze, kills, draws, moved).tiles[i] == tiles[i]
    decreases |kills|
  {
    if kills != [] {
      var p := FirstEmpty(maze, draws);
      if p.tile.Some? {
        var t := p.tile.value;
        match FirstOn(tiles, Tile(kills[0].1, kills[0].2), 0)
        case None =>
          RelocateKeepsUnhit(tiles, maze, kills[1..], p.rest, moved, i);
        case Some(j) =>
          RelocateKeepsUnhit(tiles[j := t], maze[TileIndex(t) := PLAYER], kills[1..], p.rest, true, i);
      }
    }
  }

  /** Every player standing on none of the entries' tiles keeps its tile. */
  lemma RelocateKeepsAllUnhit(tiles: seq<Tile>, maze: seq<Byte>, kills: seq<(nat, nat, nat)>, draws: seq<nat>, moved: bool)
    requires IsFlatMaze(maze)
    ensures forall i :: 0 <= i < |tiles| && (forall k :: 0 <= k < |kills| ==> Tile(kills[k].1, kills[k].2) != tiles[i]) ==>
      Relocate(tiles, maze, kills, draws, moved).tiles[i] == tiles[i]
  {
    forall i | 0 <= i < |tiles| && (forall k :: 0 <= k < |kills| ==> Tile(kills[k].1, kills[k].2) != tiles[i])
      ensures Relocate(tiles, maze, kills, draws, moved).tiles[i] == tiles[i]
    {
      RelocateKeepsUnhit(tiles, maze, kills, draws, moved, i);
    }
  }

  /**
   * A whole pass of the resolution loop: the records it leaves, the mazes
   * it threads through, and the flag and the hit each `input` returned.
   */
  datatype Resolution = Resolution(after: seq<PlayerRecord>, mazes: seq<seq<Byte>>, flags: seq<bool>, hits: seq<Option<nat>>)

  /** The tiles of a sequence of records, in order. */
  function RecordTiles(rs: seq<PlayerRecord>): (ts: seq<Tile>)
    ensures |ts| == |rs| && forall i :: 0 <= i < |rs| ==> ts[i] == rs[i].tile
  {
    if rs == [] then [] else [rs[0].tile] + RecordTiles(rs[1..])
  }

  /**
   * The two loops of a tick on the records `before`, the maze m0 and the
   * draws: every player applies `input` in turn (res), then the hits are
   * relocated on the tiles and the maze the pass left (reloc).
   */
  ghost predicate ActOutcome(before: seq<PlayerRecord>, m0: seq<Byte>, draws: seq<nat>, res: Resolution, reloc: Relocation) {
    PassFrom(before, m0, res) &&
    reloc == Relocate(RecordTiles(res.after), res.mazes[|before|], KillsOf(res.hits), draws, false)
  }

  /** res is a whole resolution pass of the records `before` starting on the maze m0. */
  ghost predicate PassFrom(before: seq<PlayerRecord>, m0: seq<Byte>, res: Resolution) {
    IsFlatMaze(m0) && |res.after| == |before| && EffectsHold(before, res.after, res.mazes, res.flags, res.hits) &&
    res.mazes[0] == m0 && IsFlatMaze(res.mazes[|before|])
  }

  /**
   * What the flag of the two loops amounts to: it is set exactly when
   * some player turned, went to another tile or destroyed a cell, since a
   * relocation needs a hit, which sets it already. Each entry of the
   * relocation list names a player that shot, in increasing order, and
   * without the flag no score changed. ActRelocation and ActIdle say what
   * the loops do to the tiles and when they do nothing.
   */
  lemma ActMeaning(before: seq<PlayerRecord>, m0: seq<Byte>, draws: seq<nat>, res: Resolution, reloc: Relocation)
    requires ActOutcome(before, m0, draws, res, reloc)
    ensures IsSuffix(reloc.rest, draws) && (!reloc.ok ==> |reloc.rest| < 2)
    ensures (true in res.flags || reloc.moved) <==> KillsOf(res.hits) != [] || AnyMoved(before, res.after)
    ensures forall k :: 0 <= k < |KillsOf(res.hits)| ==>
      KillsOf(res.hits)[k].0 < |before| && before[KillsOf(res.hits)[k].0].action == "shoot"
    ensures forall k, l :: 0 <= k < l < |KillsOf(res.hits)| ==> KillsOf(res.hits)[k].0 < KillsOf(res.hits)[l].0
    ensures !(true in res.flags || reloc.moved) ==> forall i :: 0 <= i < |before| ==> res.after[i].score == before[i].score
  {
    var n := |before|;
    ResolvedMoves(before, res.after, res.mazes, res.flags, res.hits);
    ResolvedScores(before, res.after, res.mazes, res.flags, res.hits);
    KillsOfIncreasing(res.hits);
    RelocateMarks(RecordTiles(res.after), res.mazes[n], KillsOf(res.hits), draws, false);
  }

  /**
   * Relocation only marks EMPTY cells PLAYER, a relocated player stands on
   * such a cell, and a player on none of the hit tiles stays.
   */
  lemma ActRelocation(before: seq<PlayerRecord>, m0: seq<Byte>, draws: seq<nat>, res: Resolution, reloc: Relocation)
    requires ActOutcome(before, m0, draws, res, reloc)
    ensures OnlyMarked(res.mazes[|before|], reloc.maze)
    ensures forall i :: 0 <= i < |before| && reloc.tiles[i] != res.after[i].tile ==>
      Marked(res.mazes[|before|], reloc.maze, reloc.tiles[i])
    ensures forall i :: 0 <= i < |before| && (forall k :: 0 <= k < |KillsOf(res.hits)| ==>
              Tile(KillsOf(res.hits)[k].1, KillsOf(res.hits)[k].2) != res.after[i].tile) ==>
              reloc.tiles[i] == res.after[i].tile
  {
    var n := |before|;
    RelocateMarks(RecordTiles(res.after), res.mazes[n], KillsOf(res.hits), draws, false);
    RelocateKeepsAllUnhit(RecordTiles(res.after), res.mazes[n], KillsOf(res.hits), draws, false);
    ResolvedMoves(before, res.after, res.mazes, res.flags, res.hits);
  }

  /** When no player has an action `input` acts on, the two loops change nothing and use no draw. */
  lemma ActIdle(before: seq<PlayerRecord>, m0: seq<Byte>, draws: seq<nat>, res: Resolution, reloc: Relocation)
    requires ActOutcome(before, m0, draws, res, reloc)
    ensures (forall i :: 0 <= i < |before| ==> before[i].action !in ACTIONS) ==>
      !(true in res.flags) && !reloc.moved && reloc.ok && reloc.rest == draws && reloc.maze == m0 && res.after == before
  {
    if forall i :: 0 <= i < |before| ==> before[i].action !in ACTIONS {
      ResolvedQuiet(before, res.after, res.mazes, res.flags, res.hits);
    }
  }

  /**
   * The records after a join on the maze m0: the old records, then player
   * n = |rs| on the first EMPTY tile drawn, facing (1, 0) at angle 0 with
   * nothing pending, named `name`, with score 0.
   */
  ghost predicate JoinRecords(rs: seq<PlayerRecord>, name: string, m0: seq<Byte>, draws: seq<nat>, pending: seq<PlayerRecord>) {
    IsFlatMaze(m0) && |pending| == |rs| + 1 && (forall i :: 0 <= i < |rs| ==> pending[i] == rs[i]) &&
    FirstEmpty(m0, draws).tile == Some(pending[|rs|].tile) &&
    pending[|rs|] == PlayerRecord(|rs|, pending[|rs|].tile, (1, 0), 0, "", name, 0)
  }

  /** The records after any other datagram: each player's pending action is what the datagram leaves it. */
  ghost predicate UpdatedRecords(rs: seq<PlayerRecord>, d: Datagram, pending: seq<PlayerRecord>) {
    |pending| == |rs| && forall i :: 0 <= i < |rs| ==> pending[i] == rs[i].(action := PendingAction(d, i, rs[i].action))
  }

  /**
   * What handling the datagram d does, from the records rs on the maze m0
   * with the draws `draws` and the clients `clients`, to the records
   * `pending` on the maze m1 with the draws `left`, the clients clients'
   * and the reply: a new client joins as player |rs| on the first EMPTY
   * tile drawn, is told its id and is recorded; anything else only sets
   * the pending actions it names.
   */
  ghost predicate Received(rs: seq<PlayerRecord>, m0: seq<Byte>, d: Datagram, clients: map<Endpoint, PlayerRecord>,
                           draws: seq<nat>, joined: bool, pending: seq<PlayerRecord>, m1: seq<Byte>, left: seq<nat>,
                           clients': map<Endpoint, PlayerRecord>, reply: Option<Reply>) {
    match joined
    case true =>
      IsNewJoin(d, clients) && JoinRecords(rs, JoinName(d.text), m0, draws, pending) &&
      m1 == m0[TileIndex(pending[|rs|].tile) := PLAYER] && left == FirstEmpty(m0, draws).rest &&
      clients' == clients[d.from := pending[|rs|]] && reply == Some(Reply(d.from, DecimalString(|rs|)))
    case false =>
      !IsNewJoin(d, clients) && UpdatedRecords(rs, d, pending) && m1 == m0 && left == draws && clients' == clients && reply == None
  }

  /** `maze` is one of the level's mazes with the tiles ts, each EMPTY on it, marked on it. */
  ghost predicate MarkedLevel(level: nat, maze: seq<Byte>, ts: seq<Tile>) {
    (forall k :: 0 <= k < |ts| ==> InGrid(ts[k])) &&
    exists m :: IsFlatMaze(m) && LevelMaze(level, m) && (forall k :: 0 <= k < |ts| ==> At(m, ts[k]) == EMPTY) &&
      maze == MarkPlayers(m, ts)
  }

  /** Some record has a score of 5 or more. */
  ghost predicate ReachedLimit(rs: seq<PlayerRecord>) {
    exists i :: 0 <= i < |rs| && rs[i].score >= 5
  }

  /** The first record from index `from` on whose score has reached 5. */
  function FirstScorer(rs: seq<PlayerRecord>, from: nat): (r: Option<nat>)
    ensures r.Some? ==> from <= r.value < |rs| && rs[r.value].score >= 5
    decreases |rs| - from
  {
    if from >= |rs| then None
    else if rs[from].score >= 5 then Some(from)
    else FirstScorer(rs, from + 1)
  }

  /** No record between `from` and the first scorer has reached 5, and there is no scorer only when no record from `from` on has. */
  lemma {:induction false} FirstScorerIsFirst(rs: seq<PlayerRecord>, from: nat)
    ensures FirstScorer(rs, from).Some? ==> forall k :: from <= k < FirstScorer(rs, from).value ==> rs[k].score < 5
    ensures FirstScorer(rs, from).None? ==> forall k :: from <= k < |rs| ==> rs[k].score < 5
    decreases |rs| - from
  {
    if from < |rs| && rs[from].score < 5 {
      FirstScorerIsFirst(rs, from + 1);
    }
  }

  /** The name the round check crowns on the records rs: the first scorer's, or "" when nobody has reached 5. */
  function Winner(rs: seq<PlayerRecord>): string {
    match FirstScorer(rs, 0)
    case Some(i) => rs[i].name
    case None => ""
  }

  /** Records with the same scores and names have the same first scorer and the same winner. */
  lemma SameWinner(a: seq<PlayerRecord>, b: seq<PlayerRecord>)
    requires |a| == |b| && forall i :: 0 <= i < |a| ==> a[i].score == b[i].score && a[i].name == b[i].name
    ensures FirstScorer(a, 0) == FirstScorer(b, 0) && Winner(a) == Winner(b)
  {
    FirstScorerIsFirst(a, 0);
    FirstScorerIsFirst(b, 0);
    var fa, fb := FirstScorer(a, 0), FirstScorer(b, 0);
    if fa.Some? {
      assert b[fa.value].score >= 5;
    }
    if fb.Some? {
      assert a[fb.value].score >= 5;
    }
  }

  /** Records with the same scores reach the limit together. */
  lemma SameScores(a: seq<PlayerRecord>, b: seq<PlayerRecord>)
    requires |a| == |b| && forall i :: 0 <= i < |a| ==> a[i].score == b[i].score
    ensures ReachedLimit(a) <==> ReachedLimit(b)
  {
    if ReachedLimit(a) {
      var i :| 0 <= i < |a| && a[i].score >= 5;
      assert b[i].score >= 5;
    }
    if ReachedLimit(b) {
      var i :| 0 <= i < |b| && b[i].score >= 5;
      assert a[i].score >= 5;
    }
  }

  /** The records of a sequence of players, in order. */
  function RecordsOf(ps: seq<Player>): (r: seq<PlayerRecord>)
    reads ps
    ensures |r| == |ps| && forall i :: 0 <= i < |ps| ==> r[i] == ps[i].Record()
  {
    if ps == [] then [] else [ps[0].Record()] + RecordsOf(ps[1..])
  }

  /** The tiles of a sequence of players, in order. */
  function TilesOf(ps: seq<Player>): (r: seq<Tile>)
    reads ps
    ensures |r| == |ps| && forall i :: 0 <= i < |ps| ==> r[i] == ps[i].tile
  {
    if ps == [] then [] else [ps[0].tile] + TilesOf(ps[1..])
  }

  /** The maze with each of the tiles ts marked PLAYER, in order. */
  function MarkPlayers(maze: seq<Byte>, ts: seq<Tile>): (r: seq<Byte>)
    requires IsFlatMaze(maze) && forall k :: 0 <= k < |ts| ==> InGrid(ts[k])
    ensures IsFlatMaze(r)
    decreases |ts|
  {
    if ts == [] then maze
    else MarkPlayers(maze, ts[..|ts| - 1])[TileIndex(ts[|ts| - 1]) := PLAYER]
  }

  /** After marking, a tile of the grid is PLAYER if it is one of ts, and what it was otherwise. */
  lemma {:induction false} MarkPlayersAt(maze: seq<Byte>, ts: seq<Tile>)
    requires IsFlatMaze(maze) && forall k :: 0 <= k < |ts| ==> InGrid(ts[k])
    ensures forall t :: InGrid(t) ==> At(MarkPlayers(maze, ts), t) == (if t in ts then PLAYER else At(maze, t))
    decreases |ts|
  {
    if ts != [] {
      var init, last := ts[..|ts| - 1], ts[|ts| - 1];
      MarkPlayersAt(maze, init);
      assert ts == init + [last];
      forall t | InGrid(t)
        ensures At(MarkPlayers(maze, ts), t) == (if t in ts then PLAYER else At(maze, t))
      {
        assert t in ts <==> t in init || t == last;
        if t != last {
          assert TileIndex(t) != TileIndex(last);
        }
      }
    }
  }

  /** Tiles in the grid, each EMPTY on `start`, no two the same. */
  ghost predicate Placement(start: seq<Byte>, placed: seq<Tile>) {
    IsFlatMaze(start) &&
    (forall k :: 0 <= k < |placed| ==> InGrid(placed[k]) && At(start, placed[k]) == EMPTY) &&
    (forall k, l :: 0 <= k < l < |placed| ==> placed[k] != placed[l])
  }

  /** Marking a tile that is still EMPTY after the placement so far extends the placement by that tile. */
  lemma PlacementExtend(start: seq<Byte>, placed: seq<Tile>, t: Tile)
    requires Placement(start, placed) && InGrid(t)
    requires At(MarkPlayers(start, placed), t) == EMPTY
    ensures Placement(start, placed + [t])
    ensures MarkPlayers(start, placed)[TileIndex(t) := PLAYER] == MarkPlayers(start, placed + [t])
  {
    MarkPlayersAt(start, placed);
    assert (placed + [t])[..|placed|] == placed;
  }

  /** The PLAYER cells of the maze are exactly the tiles of ts. */
  ghost predicate MarksExactly(maze: seq<Byte>, ts: seq<Tile>)
    requires IsFlatMaze(maze)
  {
    forall t :: InGrid(t) ==> (At(maze, t) == PLAYER <==> t in ts)
  }

  /** On a maze that holds no player, the PLAYER cells after marking ts are exactly the tiles of ts. */
  lemma MarkedTerrain(maze: seq<Byte>, ts: seq<Tile>)
    requires IsFlatMaze(maze) && FlatIsTerrain(maze) && forall k :: 0 <= k < |ts| ==> InGrid(ts[k])
    ensures MarksExactly(MarkPlayers(maze, ts), ts)
  {
    MarkPlayersAt(maze, ts);
    forall t | InGrid(t)
      ensures At(MarkPlayers(maze, ts), t) == PLAYER <==> t in ts
    {
      assert At(maze, t) in {EMPTY, WALL, BREAKABLE};
    }
  }

  class GameState {
    var players: seq<Player>
    var maze: seq<Byte>
    var round: nat
    var newRoundState: bool
    var winner: string

    /**
     * What holds throughout a tick: the maze has a wall border, and player i
     * has id i (so no player object appears twice), a consistent direction
     * and an interior tile.
     */
    ghost predicate Valid()
      reads this, players
    {
      IsFlatMaze(maze) && BorderIsWall(maze) &&
      forall i :: 0 <= i < |players| ==> players[i].id == i && players[i].Valid() && Interior(players[i].tile)
    }

    /** No score has reached 5. */
    ghost predicate ScoresBelowLimit()
      reads this, players
    {
      forall i :: 0 <= i < |players| ==> players[i].score < 5
    }

    /** Some score has reached 5 exactly when not every score is below 5. */
    lemma LimitIsNotBelow()
      ensures ReachedLimit(Records()) <==> !ScoresBelowLimit()
    {
      if !ScoresBelowLimit() {
        var i :| 0 <= i < |players| && players[i].score >= 5;
        assert Records()[i].score >= 5;
      }
    }

    /** Scores that are all 0 are below the limit. */
    lemma ResetIsBelowLimit()
      requires forall i :: 0 <= i < |players| ==> players[i].score == 0
      ensures ScoresBelowLimit()
    {
    }

    /** No player has a pending action that `input` acts on. */
    ghost predicate Idle()
      reads this, players
    {
      forall i :: 0 <= i < |players| ==> players[i].action !in ACTIONS
    }

    /** What holds between ticks: the round is 1, 2 or 3, no score has reached 5, and no round change is announced. */
    ghost predicate BetweenTicks()
      reads this, players
    {
      Valid() && 1 <= round <= 3 && !newRoundState && winner == "" && ScoresBelowLimit()
    }

    function Records(): seq<PlayerRecord>
      reads this, players
    {
      RecordsOf(players)
    }

    function Tiles(): seq<Tile>
      reads this, players
    {
      TilesOf(players)
    }

    function Snap(): Snapshot
      reads this, players
    {
      Snapshot(Records(), maze, round, newRoundState, winner)
    }

    /** The players' records are rs, in order. */
    ghost predicate HasRecords(rs: seq<PlayerRecord>)
      reads this, players
    {
      |rs| == |players| && forall i :: 0 <= i < |players| ==> players[i].Record() == rs[i]
    }

    /** The players' records are rs, except that each player stands on its own current tile. */
    ghost predicate ShowsPass(rs: seq<PlayerRecord>)
      reads this, players
    {
      |rs| == |players| && forall i :: 0 <= i < |players| ==> players[i].Record() == rs[i].(tile := players[i].tile)
    }

    /** The state the two loops of a tick leave: the pass's records on the relocated tiles, and the relocated maze. */
    ghost predicate ShowsAct(res: Resolution, reloc: Relocation)
      reads this, players
    {
      ShowsPass(res.after) && Tiles() == reloc.tiles && maze == reloc.maze
    }

    /** The records rs with every score reset to 0, each player on its own current tile. */
    ghost predicate ShowsReset(rs: seq<PlayerRecord>)
      reads this, players
    {
      |rs| == |players| && forall i :: 0 <= i < |players| ==> players[i].Record() == rs[i].(tile := players[i].tile, score := 0)
    }

    /** The maze is one of the round's level mazes with every player's tile marked on it. */
    ghost predicate OnLevelMaze()
      reads this, players
    {
      Valid() && MarkedLevel(round, maze, Tiles())
    }

    /** A fresh round: the records rs with scores reset, each player on a tile of its own, on a marked level maze. */
    ghost predicate FreshRound(rs: seq<PlayerRecord>)
      reads this, players
    {
      ShowsReset(rs) && (forall i, j :: 0 <= i < j < |players| ==> players[i].tile != players[j].tile) && OnLevelMaze()
    }

    /** The state a tick leaves before it is published: the two loops' state, or a fresh round after it. */
    ghost predicate Settled(res: Resolution, reloc: Relocation, newRound: bool)
      reads this, players
    {
      if newRound then FreshRound(res.after) else ShowsAct(res, reloc)
    }

    /**
     * A completed tick, once published: the loops' outcome or a fresh
     * round after it (a new round exactly when a score reached 5), the
     * broadcast to `to` exactly when a player moved or joined, carrying
     * the state left, the round-change announcement and the winner of the
     * round just ended, and the round advanced from r0 when a new round
     * started (4 wraps to 1).
     */
    ghost predicate Concluded(outcome: TickOutcome, rest: seq<nat>, moved: bool, newRound: bool,
                              res: Resolution, reloc: Relocation, joined: bool, to: set<Endpoint>, r0: int)
      reads this, players
    {
      outcome.Completed? ==>
        reloc.ok && (newRound <==> ReachedLimit(res.after)) &&
        (!newRound ==> ShowsAct(res, reloc) && rest == reloc.rest) &&
        (newRound ==> FreshRound(res.after) && IsSuffix(rest, reloc.rest)) &&
        BetweenTicks() && (outcome.broadcast.Some? <==> moved || joined) && (newRound ==> moved) &&
        (outcome.broadcast.Some? ==>
          outcome.broadcast.value.to == to && outcome.broadcast.value.state.players == Records() &&
          outcome.broadcast.value.state.maze == maze && outcome.broadcast.value.state.round == round &&
          outcome.broadcast.value.state.newRoundState == newRound &&
          outcome.broadcast.value.state.winner == (if newRound then Winner(res.after) else "")) &&
        round == (if !newRound then r0 else if r0 == 3 then 1 else r0 + 1)
    }

    /**
     * The round check's verdict: a new round exactly when some score has
     * reached 5, won by the first such player's name.
     */
    ghost predicate Crowned(newRound: bool, w: string)
      reads this, players
    {
      newRound == FirstScorer(Records(), 0).Some? && (newRound ==> w == Winner(Records()))
    }

    /** `GameState::new`, given the maze `select_maze(1)` produced. */
    constructor (maze: seq<Byte>)
      requires IsFlatMaze(maze) && BorderIsWall(maze)
      ensures players == [] && this.maze == maze && round == 1 && !newRoundState && winner == ""
      ensures BetweenTicks()
    {
      players := [];
      this.maze := maze;
      round := 1;
      newRoundState := false;
      winner := "";
    }

    /**
     * A join from `from`: an endpoint already registered changes nothing.
     * Otherwise the id |players| is sent back as text, and the new player
     * gets that id, a drawn EMPTY tile that becomes PLAYER, and an entry in
     * `clients`. When the draws run out the reply has been sent already.
     */
    method Register(from: Endpoint, text: string, clients: map<Endpoint, PlayerRecord>, draws: seq<nat>)
      returns (clients': map<Endpoint, PlayerRecord>, reply: Option<Reply>, rest: seq<nat>, ok: bool)
      requires Valid()
      modifies this
      ensures Valid() && IsSuffix(rest, draws)
      ensures round == old(round) && newRoundState == old(newRoundState) && winner == old(winner)
      ensures from in clients ==>
        ok && clients' == clients && reply.None? && rest == draws &&
        players == old(players) && maze == old(maze)
      ensures from !in clients ==> reply == Some(Reply(from, DecimalString(|old(players)|)))
      ensures from !in clients && !ok ==>
        |rest| < 2 && clients' == clients && players == old(players) && maze == old(maze) &&
        FirstEmpty(old(maze), draws).tile.None?
      ensures from !in clients && ok ==>
        |players| == |old(players)| + 1 && players[..|old(players)|] == old(players) &&
        var n, p := |old(players)|, players[|old(players)|];
        fresh(p) && p.Record() == PlayerRecord(n, p.tile, (1, 0), 0, "", JoinName(text), 0) &&
        At(old(maze), p.tile) == EMPTY && maze == old(maze)[TileIndex(p.tile) := PLAYER] &&
        FirstEmpty(old(maze), draws).tile == Some(p.tile) && rest == FirstEmpty(old(maze), draws).rest &&
        clients' == clients[from := p.Record()]
      ensures forall i :: 0 <= i < |old(players)| ==> players[i] == old(players[i])
      ensures forall i :: 0 <= i < |old(players)| ==>
        players[i].action == old(players[i].action) && players[i].tile == old(players[i].tile) && players[i].score == old(players[i].score)
      ensures old(ScoresBelowLimit()) ==> ScoresBelowLimit()
    {
      clients', reply, rest, ok := clients, None, draws, true;
      if from in clients {
        return;
      }
      var playerName := JoinName(text);
      var id := |players|;
      reply := Some(Reply(from, DecimalString(id)));
      var spot;
      spot, rest := PickEmptyTile(maze, draws);
      if spot.None? {
        ok := false;
        return;
      }
      var newTile := spot.value;
      NonWallIsInterior(maze, newTile);
      WriteKeepsBorder(maze, newTile, PLAYER);
      maze := maze[TileIndex(newTile) := PLAYER];
      var newPlayer := new Player(newTile, |players|, playerName);
      clients' := clients[from := newPlayer.Record()];
      players := players + [newPlayer];
    }

    /** A parsed update sets the pending action of the player with its id, unless the action is "ping". */
    method ApplyUpdate(update: PlayerUpdate)
      requires Valid()
      modifies players
      ensures Valid()
      ensures forall i :: 0 <= i < |players| ==>
        players[i].action == (if i == update.id && update.action != "ping" then update.action else old(players[i].action)) &&
        players[i].tile == old(players[i].tile) && players[i].angle == old(players[i].angle) &&
        players[i].direction == old(players[i].direction) && players[i].score == old(players[i].score)
    {
      var i := 0;
      while i < |players|
        invariant 0 <= i <= |players| && Valid()
        invariant forall k :: 0 <= k < |players| ==>
          players[k].action == (if k < i && k == update.id && update.action != "ping" then update.action else old(players[k].action)) &&
          players[k].tile == old(players[k].tile) && players[k].angle == old(players[k].angle) &&
          players[k].direction == old(players[k].direction) && players[k].score == old(players[k].score)
      {
        if players[i].id == update.id && update.action != "ping" {
          players[i].action := update.action;
        }
        i := i + 1;
      }
    }

    /**
     * One pass of the resolution loop: player i applies its pending action
     * to the shared maze, the flag collects what `input` returned, and a hit
     * adds the player's id and the destroyed cell's column and row to the
     * relocation list. The ghost sequences record the pass so far, the new
     * entries being what this player did.
     */
    method ResolveOne(i: nat, moved: bool, kills: seq<(nat, nat, nat)>,
                      ghost before: seq<PlayerRecord>, ghost after: seq<PlayerRecord>,
                      ghost mazes: seq<seq<Byte>>, ghost flags: seq<bool>, ghost hits: seq<Option<nat>>)
      returns (moved': bool, kills': seq<(nat, nat, nat)>, ghost after': seq<PlayerRecord>,
               ghost mazes': seq<seq<Byte>>, ghost flags': seq<bool>, ghost hits': seq<Option<nat>>)
      requires Valid() && i < |players|
      requires EffectsHold(before, after, mazes, flags, hits) && |after| == i < |before|
      requires before[i] == players[i].Record() && mazes[i] == maze
      requires (moved <==> true in flags) && kills == KillsOf(hits)
      modifies this, players[i]
      ensures Valid() && players == old(players)
      ensures round == old(round) && newRoundState == old(newRoundState) && winner == old(winner)
      ensures forall k :: 0 <= k < |players| && k != i ==> players[k].Record() == old(players[k].Record())
      ensures after' == after + [players[i].Record()] && mazes' == mazes + [maze]
      ensures |flags'| == i + 1 && flags'[..i] == flags && |hits'| == i + 1 && hits'[..i] == hits
      ensures InputEffect(old(players[i].Record()), old(maze), players[i].Record(), maze, flags'[i], hits'[i])
      ensures EffectsHold(before, after', mazes', flags', hits')
      ensures (moved' <==> true in flags') && kills' == KillsOf(hits')
    {
      var maze', playerMoved, hit := players[i].Input(maze);
      maze := maze';
      moved', kills' := moved || playerMoved, kills;
      if hit.Some? {
        kills' := kills + [(players[i].id, hit.value % MAZE_WIDTH, hit.value / MAZE_HEIGHT)];
      }
      ghost var q := players[i].Record();
      EffectsExtend(before, after, mazes, flags, hits, q, maze, playerMoved, hit);
      after', mazes', flags', hits' := after + [q], mazes + [maze], flags + [playerMoved], hits + [hit];
      assert hits'[..i] == hits && flags'[..i] == flags && flags'[i] == playerMoved && hits'[i] == hit;
    }

    /**
     * The `iter_mut` loop over `input`: every player in order applies its
     * pending action to the maze the players before it left, as
     * InputEffect says; `mazes` are those mazes, and `flags` and `hits` what
     * each call reported. The flag ends up set exactly when some player
     * turned, went to another tile or destroyed a cell, and each hit is
     * listed with its shooter's id and the column and row of its cell.
     */
    method ResolveAll() returns (moved: bool, kills: seq<(nat, nat, nat)>,
                                 ghost before: seq<PlayerRecord>, ghost after: seq<PlayerRecord>,
                                 ghost mazes: seq<seq<Byte>>, ghost flags: seq<bool>, ghost hits: seq<Option<nat>>)
      requires Valid()
      modifies this, players
      ensures Valid() && players == old(players)
      ensures round == old(round) && newRoundState == old(newRoundState) && winner == old(winner)
      ensures |before| == |players| && |after| == |players|
      ensures forall k :: 0 <= k < |players| ==> before[k] == old(players[k].Record()) && after[k] == players[k].Record()
      ensures EffectsHold(before, after, mazes, flags, hits)
      ensures mazes[0] == old(maze) && mazes[|players|] == maze
      ensures (moved <==> true in flags) && kills == KillsOf(hits)
      ensures moved <==> kills != [] || AnyMoved(before, after)
      ensures before == old(Records())
      ensures forall k :: 0 <= k < |kills| ==>
        kills[k].0 < |players| && before[kills[k].0].action == "shoot" &&
        kills[k].1 < MAZE_WIDTH && kills[k].2 < MAZE_HEIGHT
      ensures forall k, l :: 0 <= k < l < |kills| ==> kills[k].0 < kills[l].0
      ensures forall k :: 0 <= k < |players| ==> before[k].score <= after[k].score <= before[k].score + 1
      ensures forall k :: 0 <= k < |players| && after[k].score > before[k].score ==> moved
      ensures old(Idle()) ==> !moved && kills == [] && maze == old(maze) && after == before
    {
      moved, kills, before, after, mazes, flags, hits := ResolveEach();
      KillsOfEntries(hits);
      KillsOfIncreasing(hits);
      ResolvedMoves(before, after, mazes, flags, hits);
      ResolvedScores(before, after, mazes, flags, hits);
      if old(Idle()) {
        assert forall k :: 0 <= k < |before| ==> before[k].action == old(players[k].action);
        ResolvedQuiet(before, after, mazes, flags, hits);
      }
    }

    /**
     * The loop of the resolution: player after player applies `input` to
     * the maze the players before it left, and each hit is collected.
     */
    method ResolveEach() returns (moved: bool, kills: seq<(nat, nat, nat)>,
                                  ghost before: seq<PlayerRecord>, ghost after: seq<PlayerRecord>,
                                  ghost mazes: seq<seq<Byte>>, ghost flags: seq<bool>, ghost hits: seq<Option<nat>>)
      requires Valid()
      modifies this, players
      ensures Valid() && players == old(players)
      ensures round == old(round) && newRoundState == old(newRoundState) && winner == old(winner)
      ensures |before| == |players| && |after| == |players|
      ensures forall k :: 0 <= k < |players| ==> before[k] == old(players[k].Record()) && after[k] == players[k].Record()
      ensures EffectsHold(before, after, mazes, flags, hits)
      ensures mazes[0] == old(maze) && mazes[|players|] == maze
      ensures (moved <==> true in flags) && kills == KillsOf(hits)
    {
      moved, kills := false, [];
      mazes, flags, hits := [maze], [], [];
      before, after := Records(), [];
      var i := 0;
      while i < |players|
        invariant 0 <= i <= |players| && Valid() && players == old(players)
        invariant round == old(round) && newRoundState == old(newRoundState) && winner == old(winner)
        invariant |before| == |players| && forall k :: 0 <= k < |players| ==> before[k] == old(players[k].Record())
        invariant EffectsHold(before, after, mazes, flags, hits) && |after| == i
        invariant mazes[0] == old(maze) && mazes[i] == maze
        invariant forall k :: 0 <= k < i ==> players[k].Record() == after[k]
        invariant forall k :: i <= k < |players| ==> players[k].Record() == before[k]
        invariant (moved <==> true in flags) && kills == KillsOf(hits)
      {
        moved, kills, after, mazes, flags, hits := ResolveOne(i, moved, kills, before, after, mazes, flags, hits);
        i := i + 1;
      }
    }

    /**
     * One entry of the relocation loop: draw the first EMPTY tile; then the
     * first player standing on tile (x, y), if any, moves there, the tile
     * is marked PLAYER and `moved` is set. The draw happens even when nobody
     * stands on (x, y), as after a breakable wall was shot.
     */
    method RelocateOne(x: nat, y: nat, draws: seq<nat>) returns (moved: bool, spot: Option<Tile>, rest: seq<nat>)
      requires Valid()
      modifies this, players`tile
      ensures Valid() && players == old(players)
      ensures round == old(round) && newRoundState == old(newRoundState) && winner == old(winner)
      ensures spot == FirstEmpty(old(maze), draws).tile && rest == FirstEmpty(old(maze), draws).rest
      ensures var victim := FirstOn(old(Tiles()), Tile(x, y), 0);
        if spot.Some? && victim.Some? then
          moved && Tiles() == old(Tiles())[victim.value := spot.value] &&
          maze == old(maze)[TileIndex(spot.value) := PLAYER]
        else
          !moved && Tiles() == old(Tiles()) && maze == old(maze)
    {
      moved := false;
      spot, rest := PickEmptyTile(maze, draws);
      if spot.None? {
        return;
      }
      var victim := FirstOn(Tiles(), Tile(x, y), 0);
      if victim.Some? {
        MovePlayer(victim.value, spot.value);
        moved := true;
      }
    }

    /** Player j moves to the EMPTY tile t, and t is marked PLAYER. */
    method MovePlayer(j: nat, t: Tile)
      requires Valid() && j < |players| && InGrid(t) && At(maze, t) == EMPTY
      modifies this, players`tile
      ensures Valid() && players == old(players)
      ensures round == old(round) && newRoundState == old(newRoundState) && winner == old(winner)
      ensures Tiles() == old(Tiles())[j := t] && maze == old(maze)[TileIndex(t) := PLAYER]
    {
      NonWallIsInterior(maze, t);
      WriteKeepsBorder(maze, t, PLAYER);
      players[j].tile := t;
      maze := maze[TileIndex(t) := PLAYER];
      assert Tiles() == old(Tiles())[j := t];
    }

    /** One pass of the relocation loop: the entry ks[0] is done, and the loop goes on with the rest of ks. */
    method RelocateStep(ks: seq<(nat, nat, nat)>, moved: bool, draws: seq<nat>) returns (moved': bool, rest: seq<nat>, found: bool)
      requires Valid() && ks != []
      modifies this, players`tile
      ensures Valid() && players == old(players)
      ensures round == old(round) && newRoundState == old(newRoundState) && winner == old(winner)
      ensures Relocate(old(Tiles()), old(maze), ks, draws, moved) ==
        if found then Relocate(Tiles(), maze, ks[1..], rest, moved') else Relocation(Tiles(), maze, moved', rest, false)
    {
      var (_, x, y) := ks[0];
      var relocated, spot;
      relocated, spot, rest := RelocateOne(x, y, draws);
      found := spot.Some?;
      moved' := moved || relocated;
    }

    /**
     * The relocation loop over the hits of this tick, in order: it leaves
     * the tiles, the maze and the flag where Relocate says. So the maze
     * changes only from EMPTY to PLAYER, a player whose tile changed stands
     * on such a cell, a player on none of the hit tiles stays, `moved` is
     * set exactly when some entry found a player, and with no hits no draw
     * is used.
     */
    method RelocateKills(kills: seq<(nat, nat, nat)>, draws: seq<nat>) returns (moved: bool, rest: seq<nat>, ok: bool)
      requires Valid()
      modifies this, players`tile
      ensures Valid() && players == old(players)
      ensures round == old(round) && newRoundState == old(newRoundState) && winner == old(winner)
      ensures Relocate(old(Tiles()), old(maze), kills, draws, false) == Relocation(Tiles(), maze, moved, rest, ok)
      ensures IsSuffix(rest, draws) && (!ok ==> |rest| < 2)
      ensures kills == [] ==> ok && !moved && rest == draws && maze == old(maze)
      ensures moved ==> kills != []
      ensures !moved ==> maze == old(maze) && forall i :: 0 <= i < |players| ==> players[i].tile == old(players[i].tile)
      ensures OnlyMarked(old(maze), maze)
      ensures forall i :: 0 <= i < |players| && players[i].tile != old(players[i].tile) ==>
        Marked(old(maze), maze, players[i].tile)
      ensures (exists i :: 0 <= i < |players| && players[i].tile != old(players[i].tile)) ==> moved
      ensures forall i :: 0 <= i < |players| && (forall k :: 0 <= k < |kills| ==> Tile(kills[k].1, kills[k].2) != old(players[i].tile)) ==>
        players[i].tile == old(players[i].tile)
    {
      moved, rest, ok := false, draws, true;
      ghost var m0, t0 := maze, Tiles();
      ghost var r := Relocate(t0, m0, kills, draws, false);
      var k := 0;
      while k < |kills|
        invariant 0 <= k <= |kills| && Valid() && players == old(players) && ok
        invariant round == old(round) && newRoundState == old(newRoundState) && winner == old(winner)
        invariant r == Relocate(Tiles(), maze, kills[k..], rest, moved)
      {
        var found, d;
        moved, d, found := RelocateStep(kills[k..], moved, rest);
        rest := d;
        if !found {
          ok := false;
          break;
        }
        assert kills[k..][1..] == kills[k + 1..];
        k := k + 1;
      }
      RelocateMarks(t0, m0, kills, draws, false);
      RelocateKeepsAllUnhit(t0, m0, kills, draws, false);
    }

    /**
     * `update_level`: the first player whose score has reached 5 wins the
     * round; the round counter goes up by one and the winner's name is kept.
     * The players show the records rs up to their tiles, so the winner is
     * Winner(rs).
     */
    method UpdateLevel(ghost rs: seq<PlayerRecord>) returns (newRound: bool)
      requires ShowsPass(rs)
      modifies this
      ensures players == old(players) && maze == old(maze) && newRoundState == old(newRoundState)
      ensures forall i :: 0 <= i < |players| ==> players[i].Record() == old(players[i].Record())
      ensures Crowned(newRound, winner)
      ensures newRound <==> !old(ScoresBelowLimit())
      ensures newRound ==> round == old(round) + 1
      ensures !newRound ==> round == old(round) && winner == old(winner)
      ensures newRound ==> winner == Winner(rs)
    {
      SameWinner(Records(), rs);
      var i := 0;
      while i < |players|
        invariant 0 <= i <= |players|
        invariant FirstScorer(Records(), 0) == FirstScorer(Records(), i)
      {
        if players[i].score >= 5 {
          assert Records()[i].score >= 5;
          round := round + 1;
          winner := players[i].name;
          return true;
        }
        i := i + 1;
      }
      FirstScorerIsFirst(Records(), 0);
      return false;
    }

    /**
     * The placement so far: the first |placed| players stand on the tiles of
     * `placed`, which were EMPTY on `start`, are distinct, and are exactly
     * what has been marked PLAYER on `start`.
     */
    ghost predicate PlacedSoFar(start: seq<Byte>, placed: seq<Tile>)
      reads this, players
    {
      Placement(start, placed) && |placed| <= |players| &&
      (forall k :: 0 <= k < |placed| ==> players[k].tile == placed[k]) &&
      maze == MarkPlayers(start, placed)
    }

    /**
     * `randomize_player_position`: every player in order gets a drawn tile
     * that is EMPTY at that moment, and the tile is marked PLAYER. So each
     * player lands on a tile that was EMPTY, no two share a tile, and the
     * new maze is the old one with exactly the players' tiles marked.
     */
    method RandomizePlayerPosition(draws: seq<nat>) returns (rest: seq<nat>, ok: bool)
      requires Valid()
      modifies this, players`tile
      ensures Valid() && players == old(players) && IsSuffix(rest, draws)
      ensures round == old(round) && newRoundState == old(newRoundState) && winner == old(winner)
      ensures !ok ==> |rest| < 2
      ensures ok ==> forall i :: 0 <= i < |players| ==> At(old(maze), players[i].tile) == EMPTY
      ensures ok ==> forall i, j :: 0 <= i < j < |players| ==> players[i].tile != players[j].tile
      ensures ok ==> maze == MarkPlayers(old(maze), Tiles())
      ensures forall i :: 0 <= i < |players| ==> players[i].Record() == old(players[i].Record()).(tile := players[i].tile)
    {
      rest, ok := draws, true;
      ghost var placed: seq<Tile> := [];
      var i := 0;
      while i < |players|
        invariant 0 <= i <= |players| && Valid() && players == old(players) && IsSuffix(rest, draws)
        invariant round == old(round) && newRoundState == old(newRoundState) && winner == old(winner)
        invariant |placed| == i && PlacedSoFar(old(maze), placed)
      {
        var spot, d := PlacePlayer(i, rest, old(maze), placed);
        SuffixTransitive(d, rest, draws);
        rest := d;
        if spot.None? {
          return rest, false;
        }
        placed := placed + [spot.value];
        i := i + 1;
      }
      PlacedEveryone(old(maze), placed);
    }

    /** A placement that covers every player gives each player its own tile, EMPTY at the start. */
    lemma PlacedEveryone(start: seq<Byte>, placed: seq<Tile>)
      requires PlacedSoFar(start, placed) && |placed| == |players|
      ensures placed == Tiles()
      ensures forall i :: 0 <= i < |players| ==> At(start, players[i].tile) == EMPTY
      ensures forall i, j :: 0 <= i < j < |players| ==> players[i].tile != players[j].tile
      ensures maze == MarkPlayers(start, Tiles())
    {
      assert placed == Tiles();
    }

    /**
     * One iteration of `randomize_player_position`: player i moves to a
     * drawn tile that is EMPTY on the maze so far, and the placement grows
     * by that tile.
     */
    method PlacePlayer(i: nat, draws: seq<nat>, ghost start: seq<Byte>, ghost placed: seq<Tile>)
      returns (spot: Option<Tile>, rest: seq<nat>)
      requires Valid() && i < |players| && |placed| == i && PlacedSoFar(start, placed)
      modifies this, {players[i]}`tile
      ensures Valid() && players == old(players) && IsSuffix(rest, draws)
      ensures round == old(round) && newRoundState == old(newRoundState) && winner == old(winner)
      ensures spot.None? ==> |rest| < 2
      ensures spot.Some? ==> PlacedSoFar(start, placed + [spot.value])
    {
      spot, rest := PickEmptyTile(maze, draws);
      if spot.None? {
        return;
      }
      var newTile := spot.value;
      NonWallIsInterior(maze, newTile);
      WriteKeepsBorder(maze, newTile, PLAYER);
      PlacementExtend(start, placed, newTile);
      players[i].tile := newTile;
      maze := maze[TileIndex(newTile) := PLAYER];
    }

    /**
     * The round transition: the counter wraps to 1 once it reaches 4, a maze
     * of the new round's level is installed, every score is reset
     * (announcing the new round as soon as there is a player) and the
     * players are placed afresh on distinct tiles of that maze.
     */
    method StartNewRound(draws: seq<nat>, ghost rs: seq<PlayerRecord>) returns (rest: seq<nat>, ok: bool)
      requires Valid() && 2 <= round <= 4 && ShowsPass(rs)
      modifies this, players`score, players`tile
      ensures Valid() && players == old(players) && IsSuffix(rest, draws)
      ensures !ok ==> |rest| < 2
      ensures ok ==> round == (if old(round) >= 4 then 1 else old(round)) && 1 <= round <= 3
      ensures ok ==> newRoundState == (old(newRoundState) || |players| > 0) && winner == old(winner)
      ensures ok ==> FreshRound(rs) && ScoresBelowLimit()
      ensures ok ==> MarksExactly(maze, Tiles())
    {
      rest, ok := PrepareRound(draws);
      if !ok {
        return;
      }
      ghost var installed := maze;
      var d;
      d, ok := PlaceForRound(rest, rs);
      SuffixTransitive(d, rest, draws);
      rest := d;
      if ok {
        PlacedOnLevel(installed);
      }
    }

    /**
     * The placement of a round change, on a maze without players and with
     * the scores reset: every player lands on its own tile, EMPTY on that
     * maze, which is marked, and the PLAYER cells are exactly the players'
     * tiles.
     */
    method PlaceForRound(draws: seq<nat>, ghost rs: seq<PlayerRecord>) returns (rest: seq<nat>, ok: bool)
      requires Valid() && FlatIsTerrain(maze) && ShowsReset(rs)
      modifies this, players`tile
      ensures Valid() && players == old(players) && IsSuffix(rest, draws)
      ensures round == old(round) && newRoundState == old(newRoundState) && winner == old(winner)
      ensures !ok ==> |rest| < 2
      ensures ok ==> ShowsReset(rs) && ScoresBelowLimit() && MarksExactly(maze, Tiles())
      ensures ok ==> forall i :: 0 <= i < |players| ==> At(old(maze), players[i].tile) == EMPTY
      ensures ok ==> forall i, j :: 0 <= i < j < |players| ==> players[i].tile != players[j].tile
      ensures ok ==> maze == MarkPlayers(old(maze), Tiles())
    {
      ghost var installed := maze;
      rest, ok := RandomizePlayerPosition(draws);
      if ok {
        ResetIsBelowLimit();
        PlacedOnTerrain(installed);
      }
    }

    /** The round transition up to the placement: wrap the counter, install the level's maze, reset the scores. */
    method PrepareRound(draws: seq<nat>) returns (rest: seq<nat>, ok: bool)
      requires Valid() && 2 <= round <= 4
      modifies this, players`score
      ensures Valid() && players == old(players) && IsSuffix(rest, draws)
      ensures !ok ==> |rest| < 2
      ensures ok ==> round == (if old(round) >= 4 then 1 else old(round)) && 1 <= round <= 3
      ensures ok ==> newRoundState == (old(newRoundState) || |players| > 0) && winner == old(winner)
      ensures ok ==> forall i :: 0 <= i < |players| ==> players[i].Record() == old(players[i].Record()).(score := 0)
      ensures ok ==> LevelMaze(round, maze) && FlatIsTerrain(maze)
    {
      if round >= 4 {
        round := 1;
      }
      rest, ok := InstallMaze(draws);
      if !ok {
        return;
      }
      ResetScores();
    }

    /** `select_maze(round)` becomes the maze: a fresh maze for the level, with a wall border and no player on it. */
    method InstallMaze(draws: seq<nat>) returns (rest: seq<nat>, ok: bool)
      requires Valid() && 1 <= round <= 4
      modifies this
      ensures Valid() && players == old(players) && IsSuffix(rest, draws)
      ensures round == old(round) && newRoundState == old(newRoundState) && winner == old(winner)
      ensures !ok ==> |rest| < 2
      ensures ok ==> LevelMaze(round, maze) && FlatIsTerrain(maze) && At(maze, Tile(1, 1)) == EMPTY
    {
      var generated;
      ghost var grid;
      generated, grid, rest := SelectMaze(round, draws);
      if generated.None? {
        return rest, false;
      }
      maze := generated.value;
      ok := true;
    }

    /** Players placed on EMPTY cells of a maze of the round's level stand on that maze, marked. */
    lemma PlacedOnLevel(installed: seq<Byte>)
      requires Valid() && IsFlatMaze(installed) && LevelMaze(round, installed) && maze == MarkPlayers(installed, Tiles())
      requires forall i :: 0 <= i < |players| ==> At(installed, players[i].tile) == EMPTY
      ensures OnLevelMaze()
    {
      assert forall k :: 0 <= k < |Tiles()| ==> At(installed, Tiles()[k]) == EMPTY;
    }

    /** Players placed on a maze that held no player are exactly its PLAYER cells. */
    lemma PlacedOnTerrain(start: seq<Byte>)
      requires Valid() && IsFlatMaze(start) && FlatIsTerrain(start) && maze == MarkPlayers(start, Tiles())
      ensures MarksExactly(maze, Tiles())
    {
      MarkedTerrain(start, Tiles());
    }

    /** The reset loop of a round change: every score becomes 0, and each iteration announces the new round. */
    method ResetScores()
      requires Valid()
      modifies this, players`score
      ensures Valid() && players == old(players) && maze == old(maze)
      ensures round == old(round) && winner == old(winner)
      ensures newRoundState == (old(newRoundState) || |players| > 0)
      ensures forall i :: 0 <= i < |players| ==> players[i].Record() == old(players[i].Record()).(score := 0)
    {
      var i := 0;
      while i < |players|
        invariant 0 <= i <= |players| && Valid() && players == old(players) && maze == old(maze)
        invariant round == old(round) && winner == old(winner)
        invariant newRoundState == (old(newRoundState) || i > 0)
        invariant forall k :: 0 <= k < |players| ==> players[k].Record() == old(players[k].Record()).(score := if k < i then 0 else players[k].score)
      {
        players[i].score := 0;
        newRoundState := true;
        i := i + 1;
      }
    }

    /**
     * A join message: `Register`, which acts only for a sender that is not a
     * client yet. A new client gets the next id as its reply, and a new
     * player on the first EMPTY tile drawn, which becomes PLAYER.
     */
    method ReceiveJoin(d: Datagram, clients: map<Endpoint, PlayerRecord>, draws: seq<nat>)
      returns (clients': map<Endpoint, PlayerRecord>, reply: Option<Reply>, rest: seq<nat>, ok: bool, joined: bool)
      requires Valid() && ScoresBelowLimit() && IsJoin(d)
      modifies this
      ensures Valid() && ScoresBelowLimit() && IsSuffix(rest, draws)
      ensures round == old(round) && newRoundState == old(newRoundState) && winner == old(winner)
      ensures joined == (d.from !in clients) && (reply.Some? <==> joined)
      ensures !ok ==> |rest| < 2 && joined
      ensures ok && joined ==>
        var n := |old(players)|;
        |players| == n + 1 && players[..n] == old(players) && fresh(players[n]) &&
        JoinRecords(old(Records()), JoinName(d.text), old(maze), draws, Records()) &&
        maze == old(maze)[TileIndex(players[n].tile) := PLAYER] && rest == FirstEmpty(old(maze), draws).rest &&
        reply == Some(Reply(d.from, DecimalString(n))) &&
        clients' == clients[d.from := players[n].Record()]
      ensures !joined ==> ok && clients' == clients && players == old(players) && maze == old(maze) && rest == draws
      ensures !joined ==> UpdatedRecords(old(Records()), d, Records())
      ensures |players| >= |old(players)| && forall i :: 0 <= i < |old(players)| ==> players[i] == old(players[i])
    {
      clients', reply, rest, ok := Register(d.from, d.text, clients, draws);
      joined := d.from !in clients;
      if ok && joined {
        var n := |old(players)|;
        assert players[n].Record() == PlayerRecord(n, players[n].tile, (1, 0), 0, "", JoinName(d.text), 0);
        assert forall i :: 0 <= i < n ==> Records()[i] == old(Records())[i];
      }
    }

    /** Any other datagram: its update, if it parsed, sets a pending action. */
    method ReceiveUpdate(d: Datagram)
      requires Valid() && !IsJoin(d)
      modifies players
      ensures Valid()
      ensures forall i :: 0 <= i < |players| ==>
        players[i].action == PendingAction(d, i, old(players[i].action)) &&
        players[i].tile == old(players[i].tile) && players[i].score == old(players[i].score)
      ensures UpdatedRecords(old(Records()), d, Records())
    {
      if d.update.Some? {
        ApplyUpdate(d.update.value);
      }
    }

    /**
     * The receiving part of a tick: a join message registers a new sender;
     * any other text that parses as an update sets a pending action.
     */
    method Receive(d: Datagram, clients: map<Endpoint, PlayerRecord>, draws: seq<nat>)
      returns (clients': map<Endpoint, PlayerRecord>, reply: Option<Reply>, rest: seq<nat>, ok: bool, joined: bool)
      requires Valid() && ScoresBelowLimit()
      modifies this, players
      ensures Valid() && ScoresBelowLimit() && IsSuffix(rest, draws)
      ensures round == old(round) && newRoundState == old(newRoundState) && winner == old(winner)
      ensures !ok ==> |rest| < 2 && IsNewJoin(d, clients)
      ensures ok ==> Received(old(Records()), old(maze), d, clients, draws, joined, Records(), maze, rest, clients', reply)
      ensures ok && joined ==> |players| == |old(players)| + 1 && players[..|old(players)|] == old(players) && fresh(players[|old(players)|])
      ensures ok && !joined ==> players == old(players)
      ensures !IsNewJoin(d, clients) &&
              (forall i :: 0 <= i < |old(players)| ==> PendingAction(d, i, old(players[i].action)) !in ACTIONS) ==>
        ok && !joined && Idle()
    {
      if IsJoin(d) {
        clients', reply, rest, ok, joined := ReceiveJoin(d, clients, draws);
      } else {
        clients', reply, rest, ok, joined := clients, None, draws, true, false;
        ReceiveUpdate(d);
      }
      if !IsNewJoin(d, clients) && forall i :: 0 <= i < |old(players)| ==> PendingAction(d, i, old(players[i].action)) !in ACTIONS {
        assert ok && !joined && players == old(players);
        forall i | 0 <= i < |players|
          ensures players[i].action !in ACTIONS
        {
          assert players[i].action == PendingAction(d, i, old(players[i].action));
        }
      }
    }

    /**
     * The rest of a tick: every player acts, shot players are relocated,
     * and a player reaching 5 starts the next round. `res` and `reloc` are
     * the two loops as Act says. Without a new round the state is what
     * they left; a new round starts exactly when a score in `res` reached
     * 5, from their records with the scores reset, announced and won by the
     * first of them to reach 5; it always counts as a move, since a score
     * can only reach 5 through a hit.
     */
    method Advance(draws: seq<nat>) returns (rest: seq<nat>, ok: bool, moved: bool, newRound: bool,
                                             ghost before: seq<PlayerRecord>, ghost res: Resolution, ghost reloc: Relocation)
      requires Valid() && ScoresBelowLimit() && 1 <= round <= 3
      modifies this, players
      ensures Valid() && players == old(players) && IsSuffix(rest, draws)
      ensures !ok ==> |rest| < 2
      ensures before == old(Records()) && ActOutcome(before, old(maze), draws, res, reloc)
      ensures moved <==> true in res.flags || reloc.moved
      ensures !reloc.ok ==> !ok && !newRound && rest == reloc.rest && ShowsAct(res, reloc)
      ensures reloc.ok ==> (newRound <==> ReachedLimit(res.after))
      ensures ok && !newRound ==> ShowsAct(res, reloc) && rest == reloc.rest
      ensures ok && newRound ==> IsSuffix(rest, reloc.rest) && FreshRound(res.after)
      ensures newRound ==> moved
      ensures ok ==> ScoresBelowLimit() && 1 <= round <= 3
      ensures ok ==> round == (if !newRound then old(round) else if old(round) == 3 then 1 else old(round) + 1)
      ensures ok ==> newRoundState == (old(newRoundState) || newRound)
      ensures ok ==> winner == (if newRound then Winner(res.after) else old(winner))
      ensures old(Idle()) ==> ok && !moved && !newRound && rest == draws && maze == old(maze)
    {
      newRound := false;
      moved, rest, ok, before, res, reloc := Act(draws);
      if !ok {
        return;
      }
      var d;
      d, ok, newRound := LevelUp(rest, res, reloc);
      SuffixTransitive(d, rest, draws);
      rest := d;
    }

    /**
     * `update_level` and what follows it: once a score has reached 5 the
     * round ends and the next one starts on a maze of its level; otherwise
     * nothing changes.
     */
    method LevelUp(draws: seq<nat>, ghost res: Resolution, ghost reloc: Relocation) returns (rest: seq<nat>, ok: bool, newRound: bool)
      requires Valid() && 1 <= round <= 3 && ShowsAct(res, reloc)
      modifies this, players`score, players`tile
      ensures Valid() && players == old(players) && IsSuffix(rest, draws)
      ensures newRound <==> !old(ScoresBelowLimit())
      ensures newRound <==> ReachedLimit(res.after)
      ensures !newRound ==> ShowsAct(res, reloc)
      ensures !ok ==> newRound && |rest| < 2
      ensures ok ==> ScoresBelowLimit() && 1 <= round <= 3
      ensures !newRound ==>
        ok && rest == draws && maze == old(maze) &&
        round == old(round) && newRoundState == old(newRoundState) && winner == old(winner)
      ensures ok && newRound ==>
        round == (if old(round) == 3 then 1 else old(round) + 1) &&
        newRoundState == (old(newRoundState) || |players| > 0) &&
        FreshRound(res.after)
      ensures ok && newRound ==> newRoundState && winner == Winner(res.after)
    {
      LimitIsNotBelow();
      SameScores(Records(), res.after);
      rest, ok := draws, true;
      newRound := UpdateLevel(res.after);
      if !newRound {
        return;
      }
      rest, ok := StartNewRound(draws, res.after);
    }

    /**
     * Every player acts, then the players shot are relocated: `res` is the
     * resolution pass from the old records `before` and the old maze, and
     * `reloc` the relocation over its hits, as ActOutcome says; the new
     * state is the pass's records on the relocated tiles, and the relocated
     * maze. The flag is set when `input` set it or a relocation found a
     * player; ActMeaning says what that amounts to. Without a move no score
     * can have reached 5.
     */
    method Act(draws: seq<nat>) returns (moved: bool, rest: seq<nat>, ok: bool,
                                        ghost before: seq<PlayerRecord>, ghost res: Resolution, ghost reloc: Relocation)
      requires Valid() && ScoresBelowLimit()
      modifies this, players
      ensures Valid() && players == old(players)
      ensures round == old(round) && newRoundState == old(newRoundState) && winner == old(winner)
      ensures before == old(Records()) && ActOutcome(before, old(maze), draws, res, reloc)
      ensures ShowsAct(res, reloc) && rest == reloc.rest && ok == reloc.ok
      ensures moved <==> true in res.flags || reloc.moved
      ensures !moved ==> ScoresBelowLimit()
      ensures old(Idle()) ==> ok && !moved && rest == draws && maze == old(maze)
    {
      var shots;
      ghost var after, mazes, flags, hits;
      moved, shots, before, after, mazes, flags, hits := ResolveAll();
      res := Resolution(after, mazes, flags, hits);
      moved, rest, ok, reloc := RelocateAfter(moved, shots, draws, before, old(maze), res);
    }

    /** The relocation loop of Act, after the resolution pass `res` from the records `before` and the maze m0. */
    method RelocateAfter(resolvedMoved: bool, shots: seq<(nat, nat, nat)>, draws: seq<nat>,
                         ghost before: seq<PlayerRecord>, ghost m0: seq<Byte>, ghost res: Resolution)
      returns (moved: bool, rest: seq<nat>, ok: bool, ghost reloc: Relocation)
      requires Valid() && |before| == |players| && PassFrom(before, m0, res) && maze == res.mazes[|players|]
      requires HasRecords(res.after)
      requires (resolvedMoved <==> true in res.flags) && shots == KillsOf(res.hits)
      modifies this, players`tile
      ensures Valid() && players == old(players)
      ensures round == old(round) && newRoundState == old(newRoundState) && winner == old(winner)
      ensures ActOutcome(before, m0, draws, res, reloc)
      ensures ShowsAct(res, reloc) && rest == reloc.rest && ok == reloc.ok
      ensures moved <==> resolvedMoved || reloc.moved
    {
      assert RecordTiles(res.after) == Tiles();
      var relocated;
      relocated, rest, ok := RelocateKills(shots, draws);
      reloc := Relocation(Tiles(), maze, relocated, rest, ok);
      assert reloc == Relocate(RecordTiles(res.after), res.mazes[|before|], KillsOf(res.hits), draws, false);
      assert ShowsPass(res.after);
      moved := resolvedMoved || relocated;
    }

    /**
     * One pass of the server loop. The datagram is what the poll returned
     * (None when nothing arrived). `pending` are the records once it has
     * been handled, on the maze `maze1` with the draws `left`, as Received
     * says: a new client gets the next id as its reply, an entry in the
     * clients and a player on the first EMPTY tile drawn; any other
     * datagram sets the pending actions it names. Then the two loops run
     * from there (`res` and `reloc`, as ActOutcome says) and a score of 5
     * starts the next round. The state is broadcast to every client exactly
     * when a player moved or joined, after which the round-change
     * announcement and the winner are cleared.
     */
    method Tick(clients: map<Endpoint, PlayerRecord>, received: Option<Datagram>, draws: seq<nat>)
      returns (clients': map<Endpoint, PlayerRecord>, outcome: TickOutcome, rest: seq<nat>,
               moved: bool, joined: bool, newRound: bool,
               ghost pending: seq<PlayerRecord>, ghost maze1: seq<Byte>, ghost left: seq<nat>,
               ghost res: Resolution, ghost reloc: Relocation)
      requires BetweenTicks()
      modifies this, players
      ensures IsSuffix(rest, draws)
      ensures outcome.Stalled? ==> Valid() && |rest| < 2
      ensures outcome.Completed? ==> BetweenTicks()
      ensures outcome.Completed? ==>
        Received(old(Records()), old(maze), Polled(received), clients, draws, joined, pending, maze1, left, clients', outcome.reply)
      ensures outcome.Completed? ==> ActOutcome(pending, maze1, left, res, reloc) && (moved <==> true in res.flags || reloc.moved)
      ensures Concluded(outcome, rest, moved, newRound, res, reloc, joined, clients'.Keys, old(round))
      ensures !IsNewJoin(Polled(received), clients) &&
              (forall i :: 0 <= i < |old(players)| ==> PendingAction(Polled(received), i, old(players[i].action)) !in ACTIONS) ==>
        outcome == Completed(None, None) && !moved && !newRound && rest == draws && maze == old(maze) && clients' == clients
    {
      var d := Polled(received);
      moved, newRound, pending, maze1, left := false, false, [], maze, draws;
      res, reloc := Resolution([], [], [], []), Relocation([], [], false, [], false);
      var reply, ok;
      clients', reply, rest, ok, joined := Receive(d, clients, draws);
      if !ok {
        outcome := Stalled;
        return;
      }
      pending, maze1, left := Records(), maze, rest;
      assert Received(old(Records()), old(maze), d, clients, draws, joined, pending, maze1, left, clients', reply);
      label mid:
      var rest';
      ghost var before;
      outcome, rest', moved, newRound, before, res, reloc := Conclude(reply, joined, clients'.Keys, rest);
      assert before == pending;
      assert old@mid(round) == old(round);
      SuffixTransitive(rest', rest, draws);
      rest := rest';
    }

    /**
     * A tick after the datagram has been handled: act, relocate, change
     * round, and publish. The state and the flags are as Advance says; the
     * tick completes exactly when Advance had the draws it needed, and the
     * broadcast carries the state it leaves.
     */
    method Conclude(reply: Option<Reply>, joined: bool, to: set<Endpoint>, draws: seq<nat>)
      returns (outcome: TickOutcome, rest: seq<nat>, moved: bool, newRound: bool,
               ghost before: seq<PlayerRecord>, ghost res: Resolution, ghost reloc: Relocation)
      requires Valid() && ScoresBelowLimit() && 1 <= round <= 3 && !newRoundState && winner == ""
      modifies this, players
      ensures Valid() && players == old(players) && IsSuffix(rest, draws)
      ensures outcome.Stalled? ==> |rest| < 2
      ensures before == old(Records()) && ActOutcome(before, old(maze), draws, res, reloc)
      ensures moved <==> true in res.flags || reloc.moved
      ensures !reloc.ok ==> outcome.Stalled?
      ensures outcome.Completed? ==> outcome.reply == reply
      ensures Concluded(outcome, rest, moved, newRound, res, reloc, joined, to, old(round))
      ensures !joined && old(Idle()) ==>
        outcome == Completed(reply, None) && !moved && !newRound && rest == draws && maze == old(maze)
    {
      var ok;
      rest, ok, moved, newRound, before, res, reloc := Advance(draws);
      outcome := Stalled;
      if ok {
        outcome := Publish(reply, joined, moved, newRound, to, res, reloc);
      }
    }

    /**
     * The end of a completed tick: the state is broadcast to `to` exactly
     * when a player moved or joined, and then the round-change
     * announcement and the winner are cleared.
     */
    method Publish(reply: Option<Reply>, joined: bool, moved: bool, newRound: bool, to: set<Endpoint>,
                   ghost res: Resolution, ghost reloc: Relocation)
      returns (outcome: TickOutcome)
      requires Valid() && ScoresBelowLimit() && 1 <= round <= 3 && (newRound ==> moved)
      requires !newRound ==> !newRoundState && winner == ""
      requires Settled(res, reloc, newRound)
      modifies this
      ensures BetweenTicks() && players == old(players) && maze == old(maze) && round == old(round)
      ensures Settled(res, reloc, newRound)
      ensures outcome.Completed? && outcome.reply == reply
      ensures outcome.broadcast.Some? <==> moved || joined
      ensures outcome.broadcast.Some? ==>
        outcome.broadcast.value == Broadcast(Snapshot(Records(), maze, round, old(newRoundState), old(winner)), to)
    {
      var broadcast := None;
      if moved || joined {
        var b := Announce(to);
        broadcast := Some(b);
      }
      outcome := Completed(reply, broadcast);
    }

    /** The broadcast of the current state to `to`; then the round-change announcement and the winner are cleared. */
    method Announce(to: set<Endpoint>) returns (b: Broadcast)
      requires Valid()
      modifies this
      ensures Valid() && players == old(players) && maze == old(maze) && round == old(round)
      ensures old(ScoresBelowLimit()) ==> ScoresBelowLimit()
      ensures !newRoundState && winner == ""
      ensures b == Broadcast(Snapshot(Records(), maze, round, old(newRoundState), old(winner)), to)
    {
      b := Broadcast(Snap(), to);
      newRoundState := false;
      winner := "";
    }
  }

  /** `GameState::new`: a game with no players, in round 1, on the maze of level 1. */
  method NewGame(draws: seq<nat>) returns (game: GameState?, rest: seq<nat>)
    ensures IsSuffix(rest, draws)
    ensures game == null ==> |rest| < 2
    ensures game != null ==> fresh(game) && game.BetweenTicks() && game.players == [] && game.round == 1
    ensures game != null ==> LevelMaze(1, game.maze)
  {
    var maze;
    ghost var grid;
    maze, grid, rest := SelectMaze(1, draws);
    if maze.None? {
      return null, rest;
    }
    game := new GameState(maze.value);
  }
}
