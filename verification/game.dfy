/**
 * The per-tick game rules of src/game.rs: world (re)loading, level and wave
 * control, the safe-spawn filter, the player's keyboard controls, and rocket
 * firing under the missile cap. Randomness is a finite list of spawn
 * candidates; the broad-phase grid constants are a parameter.
 */
module Game {
  import opened Options
  import opened Components
  import opened Ecs
  import opened Utils
  import opened AsteroidSystems

  const PlayerMoveSpeed: int := 5
  const MaxMissiles: nat := 5
  /** Asteroids a press of V adds to the wave. */
  const BurstSize: nat := 20000
  /** No asteroid is placed closer than this to the player. */
  const SafeSpawnDistance: nat := 150

  /** `X_GRID_COUNT` and `Y_GRID_COUNT`, whose values are not part of this model. */
  datatype GridCounts = GridCounts(x: int, y: int)

  /** The player built by the world loader. */
  function PlayerEntity(): (e: Entity)
    ensures e.position == Some(Position(Point(50, 50), 270.0))
    ensures e.player == Some(Player(0, Right, true))
    ensures e.collider.Some? && e.renderable.Some?
    ensures e.renderable.value.frame < e.renderable.value.totalFrames
    ensures e.asteroid.None? && e.rocket.None? && e.gameData.None?
  {
    Bare.(position := Some(Position(Point(50, 50), 270.0)),
          renderable := Some(Renderable("marco", 32, 42, 32, 42, 1, 9, 0.0)),
          player := Some(Player(0, Right, true)),
          collider := Some(Collider(0, 0)))
  }

  /**
   * `create_asteroid`: an asteroid of size multiplier `m` at `position`. Its
   * sprite is drawn from a 33×45 strip of 12 frames, starting at frame 1,
   * and its on-screen size is `m` times the strip's frame size.
   */
  function AsteroidEntity(position: Position, m: nat, collider: Collider): (e: Entity)
    ensures e.position == Some(position) && e.collider == Some(collider)
    ensures e.asteroid == Some(Asteroid(4.0, 0.5, m))
    ensures e.player.None? && e.rocket.None? && e.gameData.None?
    ensures e.renderable.Some?
    ensures var ren := e.renderable.value;
            && ren.inputWidth == 33 && ren.inputHeight == 45
            && ren.outputWidth == m * ren.inputWidth && ren.outputHeight == m * ren.inputHeight
            && ren.frame == 1 && ren.totalFrames == 12 && ren.renderRotation == 0.0
  {
    Bare.(position := Some(position),
          renderable := Some(Renderable("enemy", 33, 45, 33 * m, 45 * m, 1, 12, 0.0)),
          asteroid := Some(Asteroid(4.0, 0.5, m)),
          collider := Some(collider))
  }

  /** The rocket `fire_rocket` builds: speed 10, a one-frame 17×61 strip drawn 40×61. */
  function RocketEntity(position: Position, collider: Collider): (e: Entity)
    ensures e.position == Some(position) && e.collider == Some(collider)
    ensures e.rocket == Some(Rocket(10.0))
    ensures e.player.None? && e.asteroid.None? && e.gameData.None?
    ensures e.renderable.Some?
    ensures var ren := e.renderable.value;
            && ren.inputWidth == 17 && ren.inputHeight == 61 && ren.outputWidth == 40 && ren.outputHeight == 61
            && ren.frame == 0 && ren.totalFrames == 1
  {
    Bare.(position := Some(position),
          renderable := Some(Renderable("rocket", 17, 61, 40, 61, 0, 1, 0.0)),
          rocket := Some(Rocket(10.0)),
          collider := Some(collider))
  }

  /**
   * `load_world`: three new entities, in this order: the player at (50, 50)
   * facing 270 degrees, standing, vulnerable; a size-2 asteroid at
   * (200, 400) heading 45 degrees; and the game record with score 0 at
   * level 1. Nothing already in the world changes.
   */
  function LoadWorld(w: World, grid: GridCounts): (r: World)
    requires w.Valid()
    ensures r.Valid() && r.nextId == w.nextId + 3
    ensures r.entities.Keys == w.entities.Keys + {w.nextId, w.nextId + 1, w.nextId + 2}
    ensures forall id :: id in w.entities ==> r.entities[id] == w.entities[id]
    ensures r.entities[w.nextId] == PlayerEntity()
    ensures r.entities[w.nextId + 1] == AsteroidEntity(Position(Point(200, 400), 45.0), 2, Collider(grid.x * 2, grid.y * 4))
    ensures r.entities[w.nextId + 2] == Bare.(gameData := Some(GameData(0, 1)))
    ensures Players(r) == Players(w) + {w.nextId}
    ensures Asteroids(r) == Asteroids(w) + {w.nextId + 1}
    ensures Rockets(r) == Rockets(w)
    ensures GameDatas(r) == GameDatas(w) + {w.nextId + 2}
  {
    var (w1, p) := Create(w, PlayerEntity());
    var (w2, a) := Create(w1, AsteroidEntity(Position(Point(200, 400), 45.0), 2, Collider(grid.x * 2, grid.y * 4)));
    var (w3, g) := Create(w2, Bare.(gameData := Some(GameData(0, 1))));
    RolesAfterAdd(w, w1, p);
    RolesAfterAdd(w1, w2, a);
    RolesAfterAdd(w2, w3, g);
    w3
  }

  /** `delete_all` followed by `load_world`: only the three fresh entities remain. */
  function Reload(w: World, grid: GridCounts): (r: World)
    requires w.Valid()
    ensures r.Valid() && r.nextId == w.nextId + 3
    ensures forall id :: id in w.entities ==> id !in r.entities
    ensures r.entities.Keys == {w.nextId, w.nextId + 1, w.nextId + 2}
    ensures Players(r) == {w.nextId} && Asteroids(r) == {w.nextId + 1}
    ensures Rockets(r) == {} && GameDatas(r) == {w.nextId + 2}
    ensures r.entities[w.nextId] == PlayerEntity()
    ensures r.entities[w.nextId + 2].gameData == Some(GameData(0, 1))
  {
    var empty := Cleared(w);
    assert Players(empty) == {} && Asteroids(empty) == {} && Rockets(empty) == {} && GameDatas(empty) == {};
    LoadWorld(empty, grid)
  }

  /**
   * `fire_rocket`: with fewer than `MaxMissiles` rockets alive, one rocket
   * appears at `position`; at the cap nothing happens. So the cap is never
   * exceeded, and no other population changes.
   */
  function FireRocket(w: World, position: Position, collider: Collider): (r: World)
    requires w.Valid()
    ensures r.Valid()
    ensures |Rockets(w)| >= MaxMissiles ==> r == w
    ensures |Rockets(w)| < MaxMissiles ==>
              && r.entities.Keys == w.entities.Keys + {w.nextId} && w.nextId !in w.entities
              && r.entities[w.nextId] == RocketEntity(position, collider)
              && Rockets(r) == Rockets(w) + {w.nextId}
    ensures forall id :: id in w.entities ==> id in r.entities && r.entities[id] == w.entities[id]
    ensures |Rockets(r)| == if |Rockets(w)| < MaxMissiles then |Rockets(w)| + 1 else |Rockets(w)|
    ensures |Rockets(w)| <= MaxMissiles ==> |Rockets(r)| <= MaxMissiles
    ensures Players(r) == Players(w) && Asteroids(r) == Asteroids(w) && GameDatas(r) == GameDatas(w)
  {
    if |Rockets(w)| > MaxMissiles - 1 then w
    else
      var (r, id) := Create(w, RocketEntity(position, collider));
      RolesAfterAdd(w, r, id);
      r
  }

  /** One draw of the spawn loop's random generator: size, x, y, heading. */
  datatype Candidate = Candidate(size: nat, x: int, y: int, rot: real)

  /** The ranges the generator draws from: size in [1, 6), x in [50, 750), y in [50, 550), heading in [0, 360). */
  predicate InSpawnRange(c: Candidate) {
    && 1 <= c.size < 6
    && 50 <= c.x < ScreenWidth - 50
    && 50 <= c.y < ScreenHeight - 50
    && 0.0 <= c.rot < 360.0
  }

  /** The rejection test `sqrt(dx² + dy²) < 150`, squared. */
  predicate TooClose(player: Point, c: Candidate) {
    Sq(player.x - c.x) + Sq(player.y - c.y) < SafeSpawnDistance * SafeSpawnDistance
  }

  /** For any non-negative square root `d` of the squared distance, the source's rejection test `d < 150` is `TooClose`. */
  lemma TooCloseIsDistanceTest(player: Point, c: Candidate, d: real)
    requires 0.0 <= d && d * d == (Sq(player.x - c.x) + Sq(player.y - c.y)) as real
    ensures d < SafeSpawnDistance as real <==> TooClose(player, c)
  {
    SquareLess(d, SafeSpawnDistance as real);
    assert (SafeSpawnDistance * SafeSpawnDistance) as real == SafeSpawnDistance as real * SafeSpawnDistance as real;
  }

  /** The asteroid an accepted candidate becomes; its grid cell is the grid count times the hundreds of the coordinate. */
  function SpawnedAsteroid(c: Candidate, grid: GridCounts): Entity {
    // the coordinates are positive, so Dafny's division agrees with Rust's
    AsteroidEntity(Position(Point(c.x, c.y), c.rot), c.size,
                   Collider(grid.x * (c.x / 100), grid.y * (c.y / 100)))
  }

  /** The candidates the filter accepts, in the order they are drawn. */
  function Accepted(player: Point, cands: seq<Candidate>): seq<Candidate> {
    if |cands| == 0 then []
    else (if TooClose(player, cands[0]) then [] else [cands[0]]) + Accepted(player, cands[1..])
  }

  /** The number of candidates the filter accepts. */
  function SafeCount(player: Point, cands: seq<Candidate>): nat {
    if |cands| == 0 then 0
    else SafeCount(player, cands[1..]) + (if TooClose(player, cands[0]) then 0 else 1)
  }

  /** Counting the accepted candidates and listing them agree. */
  lemma {:induction false} AcceptedCount(player: Point, cands: seq<Candidate>)
    ensures |Accepted(player, cands)| == SafeCount(player, cands)
    ensures forall c :: c in Accepted(player, cands) ==> c in cands && !TooClose(player, c)
    decreases |cands|
  {
    if |cands| > 0 {
      AcceptedCount(player, cands[1..]);
      var head := if TooClose(player, cands[0]) then [] else [cands[0]];
      assert Accepted(player, cands) == head + Accepted(player, cands[1..]);
      forall c | c in Accepted(player, cands)
        ensures c in cands && !TooClose(player, c)
      {
        if c !in head {
          assert c in Accepted(player, cands[1..]);
          assert c in cands[1..];
        }
      }
    }
  }

  function Min(a: nat, b: nat): nat {
    if a <= b then a else b
  }

  /** An asteroid the spawn loop may have placed, given the player position it tested against. */
  predicate SafelySpawned(e: Entity, player: Point) {
    && e.asteroid.Some? && e.position.Some? && e.renderable.Some?
    && e.player.None? && e.rocket.None? && e.gameData.None?
    && 1 <= e.asteroid.value.sizeMultiplier <= 5
    && 50 <= e.position.value.pos.x < ScreenWidth - 50
    && 50 <= e.position.value.pos.y < ScreenHeight - 50
    && Sq(player.x - e.position.value.pos.x) + Sq(player.y - e.position.value.pos.y) >= SafeSpawnDistance * SafeSpawnDistance
  }

  /**
   * The spawn loop: place `remaining` asteroids, rejecting every candidate
   * within 150 pixels of `player`. Candidates are consumed in order; a
   * rejected one adds nothing. It places as many asteroids as it was asked
   * for, or as the candidates allow, whichever is fewer, each on a fresh
   * handle, and changes nothing else.
   */
  function Spawn(w: World, player: Point, remaining: nat, cands: seq<Candidate>, grid: GridCounts): (r: World)
    requires w.Valid()
    requires forall i :: 0 <= i < |cands| ==> InSpawnRange(cands[i])
    ensures r.Valid()
    ensures forall id :: id in w.entities ==> id in r.entities && r.entities[id] == w.entities[id]
    ensures r.nextId == w.nextId + Min(remaining, SafeCount(player, cands))
    ensures forall id :: w.nextId <= id < r.nextId ==> id in r.entities
    ensures forall id :: id in r.entities && id !in w.entities ==>
              w.nextId <= id && SafelySpawned(r.entities[id], player)
    decreases |cands|
  {
    if remaining == 0 || |cands| == 0 then w
    else if TooClose(player, cands[0]) then Spawn(w, player, remaining, cands[1..], grid)
    else
      var (w', _) := Create(w, SpawnedAsteroid(cands[0], grid));
      assert InSpawnRange(cands[0]);
      assert SafelySpawned(SpawnedAsteroid(cands[0], grid), player);
      Spawn(w', player, remaining - 1, cands[1..], grid)
  }

  /** The i-th asteroid `Spawn` adds sits on the i-th accepted candidate, under handle `w.nextId + i`. */
  lemma {:induction false} SpawnPlacesAccepted(w: World, player: Point, remaining: nat, cands: seq<Candidate>, grid: GridCounts)
    requires w.Valid()
    requires forall i :: 0 <= i < |cands| ==> InSpawnRange(cands[i])
    ensures PlacedRun(Spawn(w, player, remaining, cands, grid).entities, w.nextId,
                      Accepted(player, cands), Min(remaining, SafeCount(player, cands)), grid)
    decreases |cands|, 1
  {
    if remaining == 0 || |cands| == 0 {
    } else if TooClose(player, cands[0]) {
      assert Accepted(player, cands) == Accepted(player, cands[1..]);
      assert Spawn(w, player, remaining, cands, grid) == Spawn(w, player, remaining, cands[1..], grid);
      SpawnPlacesAccepted(w, player, remaining, cands[1..], grid);
    } else {
      AcceptedPlaced(w, player, remaining, cands, grid);
    }
  }

  /** `SpawnPlacesAccepted` when the first candidate is accepted. */
  lemma {:induction false} AcceptedPlaced(w: World, player: Point, remaining: nat, cands: seq<Candidate>, grid: GridCounts)
    requires w.Valid()
    requires forall i :: 0 <= i < |cands| ==> InSpawnRange(cands[i])
    requires remaining > 0 && |cands| > 0 && !TooClose(player, cands[0])
    ensures PlacedRun(Spawn(w, player, remaining, cands, grid).entities, w.nextId,
                      Accepted(player, cands), Min(remaining, SafeCount(player, cands)), grid)
    decreases |cands|, 0
  {
    var w' := Create(w, SpawnedAsteroid(cands[0], grid)).0;
    var tail := cands[1..];
    var k: nat := remaining - 1;
    var rest := Accepted(player, tail);
    var r := Spawn(w', player, k, tail, grid);
    var m := Min(k, SafeCount(player, tail));
    SpawnPlacesAccepted(w', player, k, tail, grid);
    assert PlacedRun(r.entities, w'.nextId, rest, m, grid);
    AcceptedHead(player, cands);
    SpawnAcceptStep(w, player, remaining, cands, grid);
    PlacesShift(r.entities, w.nextId, w'.nextId, cands[0], rest, m, grid);
    assert Spawn(w, player, remaining, cands, grid) == r;
    assert Accepted(player, cands) == [cands[0]] + rest;
    assert Min(remaining, SafeCount(player, cands)) == m + 1;
    assert PlacedRun(r.entities, w.nextId, [cands[0]] + rest, m + 1, grid);
  }

  /** An accepted first candidate heads the accepted list. */
  lemma AcceptedHead(player: Point, cands: seq<Candidate>)
    requires |cands| > 0 && !TooClose(player, cands[0])
    ensures Accepted(player, cands) == [cands[0]] + Accepted(player, cands[1..])
    ensures |Accepted(player, cands)| == SafeCount(player, cands)
  {
    AcceptedCount(player, cands);
  }

  /** One step of `Spawn` that accepts its first candidate: it creates that asteroid under `w.nextId` and goes on. */
  lemma SpawnAcceptStep(w: World, player: Point, remaining: nat, cands: seq<Candidate>, grid: GridCounts)
    requires w.Valid()
    requires forall i :: 0 <= i < |cands| ==> InSpawnRange(cands[i])
    requires remaining > 0 && |cands| > 0 && !TooClose(player, cands[0])
    ensures var w' := Create(w, SpawnedAsteroid(cands[0], grid)).0;
            var r := Spawn(w', player, remaining - 1, cands[1..], grid);
            && Spawn(w, player, remaining, cands, grid) == r
            && w'.nextId == w.nextId + 1
            && Min(remaining, SafeCount(player, cands)) == Min(remaining - 1, SafeCount(player, cands[1..])) + 1
            && w.nextId in r.entities && r.entities[w.nextId] == SpawnedAsteroid(cands[0], grid)
  {
    var w' := Create(w, SpawnedAsteroid(cands[0], grid)).0;
    assert w.nextId in w'.entities;
  }

  /** Handle `base + i` holds the asteroid spawned on candidate `a[i]`. */
  predicate PlacedAt(es: map<Id, Entity>, base: Id, a: seq<Candidate>, i: nat, grid: GridCounts) {
    i < |a| && base + i in es && es[base + i] == SpawnedAsteroid(a[i], grid)
  }

  /** Handles `base` to `base + n - 1` hold the asteroids spawned on `a[0]` to `a[n - 1]`. */
  predicate PlacedRun(es: map<Id, Entity>, base: Id, a: seq<Candidate>, n: nat, grid: GridCounts) {
    forall i: nat :: i < n ==> PlacedAt(es, base, a, i, grid)
  }

  /** Prepending one placed asteroid at `base` to a run placed from `base + 1` gives a run placed from `base`. */
  lemma PlacesShift(es: map<Id, Entity>, base: Id, next: Id, first: Candidate, rest: seq<Candidate>, m: nat, grid: GridCounts)
    requires next == base + 1
    requires base in es && es[base] == SpawnedAsteroid(first, grid)
    requires PlacedRun(es, next, rest, m, grid)
    ensures PlacedRun(es, base, [first] + rest, m + 1, grid)
  {
    var a := [first] + rest;
    forall i: nat | 0 < i < m + 1
      ensures PlacedAt(es, base, a, i, grid)
    {
      assert PlacedAt(es, next, rest, i - 1, grid);
    }
  }

  /** The players with a position: the entities the join at the start of `update` visits. */
  function PlacedPlayers(w: World): set<Id> {
    set id | id in w.entities && w.entities[id].player.Some? && w.entities[id].position.Some?
  }

  /**
   * The player position captured at the start of `update`: the point of the
   * last player the join visits; (0, 0) when there is none.
   */
  function StartPosition(w: World): Point
    requires w.Valid()
  {
    match LastWhere(JoinOrder(w), PlacedPlayers(w))
    case None => Point(0, 0)
    case Some(pid) => if pid in PlacedPlayers(w) then w.entities[pid].position.value.pos else Point(0, 0)
  }

  /** The join visits handles in increasing order, so the captured position is that of the placed player with the greatest handle. */
  lemma StartPositionOfGreatestPlayer(w: World)
    requires w.Valid()
    ensures PlacedPlayers(w) == {} ==> StartPosition(w) == Point(0, 0)
    ensures PlacedPlayers(w) != {} ==>
              exists pid :: pid in PlacedPlayers(w) && (forall other :: other in PlacedPlayers(w) ==> other <= pid) &&
                            StartPosition(w) == w.entities[pid].position.value.pos
  {
    GreatestInJoin(w, PlacedPlayers(w));
    if LastWhere(JoinOrder(w), PlacedPlayers(w)).None? {
      assert forall id :: id !in PlacedPlayers(w);
    }
  }

  /** The level-and-wave step of `update`: whether a wave is due, and how large. */
  datatype Wave = Wave(world: World, mustCreate: bool, count: nat)

  /** A game record one level further on. */
  function LevelUp(e: Entity): Entity {
    if e.gameData.Some? then e.(gameData := Some(e.gameData.value.(level := e.gameData.value.level + 1))) else e
  }

  /** Every game record one level further on; nothing else changes. */
  function LevelUpAll(w: World): (r: World)
    requires w.Valid()
    ensures r.Valid() && r.nextId == w.nextId && r.entities.Keys == w.entities.Keys
    ensures forall id :: id in w.entities ==>
              && r.entities[id].(gameData := w.entities[id].gameData) == w.entities[id]
              && (w.entities[id].gameData.None? ==> r.entities[id].gameData.None?)
              && (w.entities[id].gameData.Some? ==>
                    r.entities[id].gameData == Some(GameData(w.entities[id].gameData.value.score,
                                                             w.entities[id].gameData.value.level + 1)))
    ensures Players(r) == Players(w) && Asteroids(r) == Asteroids(w)
    ensures Rockets(r) == Rockets(w) && GameDatas(r) == GameDatas(w)
  {
    var r := World(map id | id in w.entities :: LevelUp(w.entities[id]), w.nextId);
    RolesKept(w, r);
    r
  }

  /**
   * The wave size after a level-up: `level / 3 + 1` for the raised level of
   * the last game record the join visits, the one with the greatest handle;
   * 0 without a record.
   */
  function WaveSize(w: World): nat
    requires w.Valid()
  {
    match LastWhere(JoinOrder(w), GameDatas(w))
    case None => 0
    case Some(gid) => if gid in GameDatas(w) then (w.entities[gid].gameData.value.level + 1) / 3 + 1 else 0
  }

  /** `WaveSize` reads the record with the greatest handle, and is 0 exactly when there is no record. */
  lemma WaveSizeOfGreatestRecord(w: World)
    requires w.Valid()
    ensures GameDatas(w) == {} ==> WaveSize(w) == 0
    ensures GameDatas(w) != {} ==>
              exists gid :: gid in GameDatas(w) && (forall other :: other in GameDatas(w) ==> other <= gid) &&
                            WaveSize(w) == (w.entities[gid].gameData.value.level + 1) / 3 + 1
  {
    GreatestInJoin(w, GameDatas(w));
    if LastWhere(JoinOrder(w), GameDatas(w)).None? {
      assert forall id :: id !in GameDatas(w);
    }
  }

  /**
   * With no asteroid left, every game record goes up exactly one level and a
   * wave of `WaveSize` asteroids is due. With asteroids left, nothing
   * changes and no wave is due.
   */
  function AdvanceLevel(w: World): (r: Wave)
    requires w.Valid()
    ensures r.world.Valid()
    ensures r.mustCreate <==> Asteroids(w) == {}
    ensures !r.mustCreate ==> r.world == w && r.count == 0
    ensures r.mustCreate ==> r.world == LevelUpAll(w) && r.count == WaveSize(w)
  {
    if Asteroids(w) != {} then Wave(w, false, 0)
    else Wave(LevelUpAll(w), true, WaveSize(w))
  }

  /** The movement keys, highest priority first. */
  const MoveBindings: seq<(string, Direction)> := [("D", Right), ("A", Left), ("W", Up), ("S", Down)]

  /** The direction of the first held key of `bindings`. */
  function FirstHeld(keys: Keys, bindings: seq<(string, Direction)>): Option<Direction> {
    if |bindings| == 0 then None
    else if IsKeyPressed(keys, bindings[0].0) then Some(bindings[0].1)
    else FirstHeld(keys, bindings[1..])
  }

  /** The binding table spelled out: D, then A, then W, then S. */
  lemma MoveBindingsPriority(keys: Keys)
    ensures FirstHeld(keys, MoveBindings) ==
              if IsKeyPressed(keys, "D") then Some(Right)
              else if IsKeyPressed(keys, "A") then Some(Left)
              else if IsKeyPressed(keys, "W") then Some(Up)
              else if IsKeyPressed(keys, "S") then Some(Down)
              else None
  {
    var b := MoveBindings;
    var b1 := [("A", Left), ("W", Up), ("S", Down)];
    var b2 := [("W", Up), ("S", Down)];
    var b3 := [("S", Down)];
    assert b[1..] == b1 && b1[1..] == b2 && b2[1..] == b3 && b3[1..] == [];
    assert FirstHeld(keys, b3) == if IsKeyPressed(keys, "S") then Some(Down) else FirstHeld(keys, []);
    assert FirstHeld(keys, b2) == if IsKeyPressed(keys, "W") then Some(Up) else FirstHeld(keys, b3);
    assert FirstHeld(keys, b1) == if IsKeyPressed(keys, "A") then Some(Left) else FirstHeld(keys, b2);
    assert FirstHeld(keys, b) == if IsKeyPressed(keys, "D") then Some(Right) else FirstHeld(keys, b1);
  }

  /**
   * The movement controls: the held movement key of highest priority
   * (D, then A, W, S) sets the direction and the move speed; with none
   * held the player stops and keeps its direction.
   */
  function Steer(p: Player, keys: Keys): (r: Player)
    ensures r.canTakeDamage == p.canTakeDamage
    ensures FirstHeld(keys, MoveBindings).Some? ==>
              r.direction == FirstHeld(keys, MoveBindings).value && r.speed == PlayerMoveSpeed
    ensures FirstHeld(keys, MoveBindings).None? ==> r.direction == p.direction && r.speed == 0
  {
    MoveBindingsPriority(keys);
    if IsKeyPressed(keys, "D") then p.(direction := Right, speed := PlayerMoveSpeed)
    else if IsKeyPressed(keys, "A") then p.(direction := Left, speed := PlayerMoveSpeed)
    else if IsKeyPressed(keys, "W") then p.(direction := Up, speed := PlayerMoveSpeed)
    else if IsKeyPressed(keys, "S") then p.(direction := Down, speed := PlayerMoveSpeed)
    else p.(speed := 0)
  }

  /** The players the control loop joins over. */
  predicate Controllable(e: Entity) {
    e.player.Some? && e.position.Some? && e.collider.Some?
  }

  /** What the control loop hands to `fire_rocket`: whether to fire, from where, in which cell. */
  datatype FireOrder = FireOrder(must: bool, at: Position, grid: Collider)

  const NoFire := FireOrder(false, Position(Point(0, 0), 0.0), Collider(0, 0))

  /** The launch point of a rocket fired by a player at `p`: the same point, turned 90 degrees to the sprite's forward axis. */
  function Muzzle(p: Position): Position {
    Position(p.pos, p.rot + 90.0)
  }

  /** One player's turn: the updated entity, the key table after it, and the pending fire order. */
  datatype Turn = Turn(entity: Entity, keys: Keys, order: FireOrder)

  /**
   * One player's turn of the control loop. Movement keys steer. A held C is
   * consumed and flips damage once. A held Space is consumed and orders a
   * rocket from this player's muzzle; otherwise the pending order is
   * cancelled. Only the player component and the C and Space entries change.
   */
  function ControlOne(e: Entity, keys: Keys, order: FireOrder): (r: Turn)
    requires Controllable(e)
    ensures Controllable(r.entity) && r.entity.(player := e.player) == e
    ensures r.entity.player.value.direction == Steer(e.player.value, keys).direction
    ensures r.entity.player.value.speed == Steer(e.player.value, keys).speed
    ensures r.entity.player.value.canTakeDamage == (e.player.value.canTakeDamage != IsKeyPressed(keys, "C"))
    ensures r.keys.Keys == keys.Keys
    ensures forall k :: k in keys ==> r.keys[k] == (keys[k] && k != "C" && k != "Space")
    ensures IsKeyPressed(keys, "Space") ==> r.order == FireOrder(true, Muzzle(e.position.value), e.collider.value)
    ensures !IsKeyPressed(keys, "Space") ==> r.order == order.(must := false)
  {
    var p := Steer(e.player.value, keys);
    var (p, keys) := if IsKeyPressed(keys, "C") then (p.(canTakeDamage := !p.canTakeDamage), KeyUp(keys, "C")) else (p, keys);
    var (keys, order) :=
      if IsKeyPressed(keys, "Space") then (KeyUp(keys, "Space"), FireOrder(true, Muzzle(e.position.value), e.collider.value))
      else (keys, order.(must := false));
    Turn(e.(player := Some(p)), keys, order)
  }

  /** The control loop's state between players. */
  datatype Control = Control(entities: map<Id, Entity>, keys: Keys, order: FireOrder)

  /**
   * The control loop of `update` over the handles `ids`, in order, skipping
   * entities that are not controllable players. Only player components and
   * the C and Space entries change; no key becomes held; once any
   * controllable player has had its turn, C and Space read as released.
   */
  function ControlAll(ents: map<Id, Entity>, ids: seq<Id>, keys: Keys, order: FireOrder): (r: Control)
    ensures r.entities.Keys == ents.Keys
    ensures forall id :: id in ents ==> r.entities[id].(player := ents[id].player) == ents[id]
    ensures forall id :: id in ents ==> SameRoles(ents[id], r.entities[id])
    ensures forall id :: id in ents ==> (Controllable(r.entities[id]) <==> Controllable(ents[id]))
    ensures forall id :: id in ents && !Controllable(ents[id]) ==> r.entities[id] == ents[id]
    ensures r.keys.Keys == keys.Keys
    ensures forall k :: k in keys && r.keys[k] ==> keys[k]
    ensures forall k :: k in keys && k != "C" && k != "Space" ==> r.keys[k] == keys[k]
    ensures (exists i :: 0 <= i < |ids| && ids[i] in ents && Controllable(ents[ids[i]])) ==>
              !IsKeyPressed(r.keys, "C") && !IsKeyPressed(r.keys, "Space")
    decreases |ids|
  {
    if |ids| == 0 then Control(ents, keys, order)
    else if ids[0] in ents && Controllable(ents[ids[0]]) then
      var t := ControlOne(ents[ids[0]], keys, order);
      ControlAll(ents[ids[0] := t.entity], ids[1..], t.keys, t.order)
    else
      ControllableInTail(ents, ids);
      ControlAll(ents, ids[1..], keys, order)
  }

  /** A controllable player among `ids` that is not the first is among `ids[1..]`. */
  lemma ControllableInTail(ents: map<Id, Entity>, ids: seq<Id>)
    requires |ids| > 0 && !(ids[0] in ents && Controllable(ents[ids[0]]))
    ensures (exists i :: 0 <= i < |ids| && ids[i] in ents && Controllable(ents[ids[i]])) ==>
              exists i :: 0 <= i < |ids[1..]| && ids[1..][i] in ents && Controllable(ents[ids[1..][i]])
  {
    if exists i :: 0 <= i < |ids| && ids[i] in ents && Controllable(ents[ids[i]]) {
      var i :| 0 <= i < |ids| && ids[i] in ents && Controllable(ents[ids[i]]);
      assert ids[1..][i - 1] == ids[i];
    }
  }

  /** A loop over handles none of which is a controllable player changes nothing. */
  lemma {:induction false} ControlAllNone(ents: map<Id, Entity>, ids: seq<Id>, keys: Keys, order: FireOrder)
    requires forall i :: 0 <= i < |ids| && ids[i] in ents ==> !Controllable(ents[ids[i]])
    ensures ControlAll(ents, ids, keys, order) == Control(ents, keys, order)
    decreases |ids|
  {
    if |ids| > 0 {
      ControlAllNone(ents, ids[1..], keys, order);
    }
  }

  /** With exactly one controllable player among distinct handles, the loop is that player's turn. */
  lemma {:induction false} ControlAllSingle(ents: map<Id, Entity>, ids: seq<Id>, keys: Keys, order: FireOrder, pid: Id)
    requires forall i, j :: 0 <= i < j < |ids| ==> ids[i] < ids[j]
    requires pid in ids && pid in ents && Controllable(ents[pid])
    requires forall i :: 0 <= i < |ids| && ids[i] in ents && Controllable(ents[ids[i]]) ==> ids[i] == pid
    ensures var t := ControlOne(ents[pid], keys, order);
            ControlAll(ents, ids, keys, order) == Control(ents[pid := t.entity], t.keys, t.order)
    decreases |ids|
  {
    if ids[0] == pid {
      var t := ControlOne(ents[pid], keys, order);
      var ents' := ents[pid := t.entity];
      forall i | 0 <= i < |ids[1..]| && ids[1..][i] in ents'
        ensures !Controllable(ents'[ids[1..][i]])
      {
        assert ids[1..][i] == ids[i + 1] && ids[i + 1] != pid;
      }
      ControlAllNone(ents', ids[1..], t.keys, t.order);
    } else {
      assert ids[0] !in ents || !Controllable(ents[ids[0]]);
      assert pid in ids[1..];
      ControlAllSingle(ents, ids[1..], keys, order, pid);
    }
  }

  /** A spawn step only adds asteroids: the other populations stay, the new handles join the asteroids. */
  lemma SpawnRoles(w: World, r: World, player: Point)
    requires forall id :: id in w.entities ==> id in r.entities && r.entities[id] == w.entities[id]
    requires forall id :: id in r.entities && id !in w.entities ==> SafelySpawned(r.entities[id], player)
    ensures Players(r) == Players(w) && Rockets(r) == Rockets(w) && GameDatas(r) == GameDatas(w)
    ensures Asteroids(r) == Asteroids(w) + (r.entities.Keys - w.entities.Keys)
  {
  }

  /** How many asteroids step 5 places: when a wave is due or V is held, the wave plus the burst, as far as the candidates allow. */
  function SpawnedCount(wave: Wave, burst: bool, start: Point, cands: seq<Candidate>): nat {
    if wave.mustCreate || burst then Min(wave.count + (if burst then BurstSize else 0), SafeCount(start, cands)) else 0
  }

  /**
   * Step 5 of `update`: when a wave is due or V is held, the spawn loop
   * places the wave plus `BurstSize` for V; otherwise nothing happens.
   */
  function SpawnStep(wave: Wave, burst: bool, start: Point, cands: seq<Candidate>, grid: GridCounts): (r: World)
    requires wave.world.Valid()
    requires forall i :: 0 <= i < |cands| ==> InSpawnRange(cands[i])
    ensures r.Valid()
    ensures forall id :: id in wave.world.entities ==> id in r.entities && r.entities[id] == wave.world.entities[id]
    ensures forall id :: id in r.entities && id !in wave.world.entities ==>
              wave.world.nextId <= id && SafelySpawned(r.entities[id], start)
    ensures forall id :: wave.world.nextId <= id < r.nextId ==> id in r.entities
    ensures r.nextId == wave.world.nextId + SpawnedCount(wave, burst, start, cands)
    ensures PlacedRun(r.entities, wave.world.nextId, Accepted(start, cands), SpawnedCount(wave, burst, start, cands), grid)
  {
    if wave.mustCreate || burst then
      SpawnPlacesAccepted(wave.world, start, wave.count + (if burst then BurstSize else 0), cands, grid);
      Spawn(wave.world, start, wave.count + (if burst then BurstSize else 0), cands, grid)
    else wave.world
  }

  /** The state `update` leaves behind: the world and the key table. */
  datatype Tick = Tick(world: World, keys: Keys)

  /** The intermediate worlds of one tick of `update`. */
  datatype Stages = Stages(start: Point, loaded: World, wave: Wave, keys1: Keys, spawned: World, control: Control, controlled: World)

  /**
   * The first six steps of `game::update`:
   *  1. capture the player position (before any reload);
   *  2. with no player, delete everything and load a fresh world;
   *  3. with no asteroid, raise the level and make a wave due;
   *  4. a held V is consumed and adds `BurstSize` asteroids to the wave;
   *  5. place the wave away from the captured position;
   *  6. run the control loop over the players.
   */
  function UpdateStages(w: World, keys: Keys, cands: seq<Candidate>, grid: GridCounts): (s: Stages)
    requires w.Valid()
    requires forall i :: 0 <= i < |cands| ==> InSpawnRange(cands[i])
    ensures s.loaded.Valid() && s.wave.world.Valid() && s.spawned.Valid() && s.controlled.Valid()
    ensures forall id :: id in s.wave.world.entities ==> id in s.spawned.entities && s.spawned.entities[id] == s.wave.world.entities[id]
    ensures forall id :: id in s.spawned.entities && id !in s.wave.world.entities ==>
              s.wave.world.nextId <= id && SafelySpawned(s.spawned.entities[id], s.start)
    ensures forall id :: s.wave.world.nextId <= id < s.spawned.nextId ==> id in s.spawned.entities
    ensures s.spawned.nextId == s.wave.world.nextId + SpawnedCount(s.wave, IsKeyPressed(keys, "V"), s.start, cands)
    ensures PlacedRun(s.spawned.entities, s.wave.world.nextId, Accepted(s.start, cands),
                      SpawnedCount(s.wave, IsKeyPressed(keys, "V"), s.start, cands), grid)
  {
    var start := StartPosition(w);
    var loaded := if Players(w) == {} then Reload(w, grid) else w;
    var wave := AdvanceLevel(loaded);
    var burst := IsKeyPressed(keys, "V");
    var keys1 := if burst then KeyUp(keys, "V") else keys;
    var spawned := SpawnStep(wave, burst, start, cands, grid);
    var control := ControlAll(spawned.entities, JoinOrder(spawned), keys1, NoFire);
    Stages(start, loaded, wave, keys1, spawned, control, World(control.entities, spawned.nextId))
  }

  /** `game::update`: the six steps, then 7. fire the ordered rocket, if any. */
  function Update(w: World, keys: Keys, cands: seq<Candidate>, grid: GridCounts): (r: Tick)
    requires w.Valid()
    requires forall i :: 0 <= i < |cands| ==> InSpawnRange(cands[i])
    ensures r.world.Valid()
  {
    var s := UpdateStages(w, keys, cands, grid);
    var order := s.control.order;
    Tick(if order.must then FireRocket(s.controlled, order.at, order.grid) else s.controlled, s.control.keys)
  }

  /** The level step keeps every population. */
  lemma WaveRoles(w: World)
    requires w.Valid()
    ensures var r := AdvanceLevel(w).world;
            Players(r) == Players(w) && Rockets(r) == Rockets(w) && GameDatas(r) == GameDatas(w) && Asteroids(r) == Asteroids(w)
  {
  }

  /** The control loop keeps every population. */
  lemma ControlRoles(s: Stages)
    requires s.spawned.Valid()
    requires s.control == ControlAll(s.spawned.entities, JoinOrder(s.spawned), s.keys1, NoFire)
    requires s.controlled == World(s.control.entities, s.spawned.nextId)
    ensures Players(s.controlled) == Players(s.spawned) && Rockets(s.controlled) == Rockets(s.spawned)
    ensures GameDatas(s.controlled) == GameDatas(s.spawned) && Asteroids(s.controlled) == Asteroids(s.spawned)
  {
    RolesKept(s.spawned, s.controlled);
  }

  /** Between the reload and the fire step, only asteroids are added and no population loses a member. */
  lemma StagesRoles(w: World, keys: Keys, cands: seq<Candidate>, grid: GridCounts)
    requires w.Valid()
    requires forall i :: 0 <= i < |cands| ==> InSpawnRange(cands[i])
    ensures var s := UpdateStages(w, keys, cands, grid);
            && Players(s.controlled) == Players(s.loaded)
            && Rockets(s.controlled) == Rockets(s.loaded)
            && GameDatas(s.controlled) == GameDatas(s.loaded)
            && Asteroids(s.controlled) == Asteroids(s.loaded) + (s.spawned.entities.Keys - s.wave.world.entities.Keys)
  {
    var s := UpdateStages(w, keys, cands, grid);
    assert s.wave == AdvanceLevel(s.loaded);
    WaveRoles(s.loaded);
    SpawnRoles(s.wave.world, s.spawned, s.start);
    ControlRoles(s);
  }

  /** The fire step adds at most one rocket, on a fresh handle, and keeps every other population and entity. */
  lemma FireStep(w: World, keys: Keys, cands: seq<Candidate>, grid: GridCounts)
    requires w.Valid()
    requires forall i :: 0 <= i < |cands| ==> InSpawnRange(cands[i])
    ensures var s := UpdateStages(w, keys, cands, grid);
            var r := Update(w, keys, cands, grid);
            && r.keys == s.control.keys
            && Players(r.world) == Players(s.controlled) && GameDatas(r.world) == GameDatas(s.controlled)
            && Asteroids(r.world) == Asteroids(s.controlled)
            && (forall id :: id in s.controlled.entities ==> id in r.world.entities && r.world.entities[id] == s.controlled.entities[id])
            && (forall id :: id in r.world.entities && id !in s.controlled.entities ==> id >= s.controlled.nextId)
            && (!s.control.order.must ==> r.world == s.controlled)
            && (s.control.order.must ==>
                  r.world == FireRocket(s.controlled, s.control.order.at, s.control.order.grid))
  {
  }

  /** A reload holds only fresh handles, among them the player and the game record. */
  lemma ReloadShape(w: World, grid: GridCounts)
    requires w.Valid()
    ensures var v := Reload(w, grid);
            && w.nextId in v.entities && w.nextId + 2 in v.entities
            && v.entities[w.nextId].position == Some(Position(Point(50, 50), 270.0))
            && v.entities[w.nextId + 2].gameData == Some(GameData(0, 1))
            && v.nextId >= w.nextId
            && forall id :: id in v.entities ==> id >= w.nextId
  {
  }

  /** A freshly loaded world holds an asteroid, so its level step is idle. */
  lemma ReloadIsIdleWave(w: World, grid: GridCounts)
    requires w.Valid()
    ensures var v := Reload(w, grid); AdvanceLevel(v) == Wave(v, false, 0)
  {
    assert w.nextId + 1 in Asteroids(Reload(w, grid));
  }

  /** Without a player, the wave step sees the freshly loaded world, whose asteroid keeps any level-up away. */
  lemma ReloadedStages(w: World, keys: Keys, cands: seq<Candidate>, grid: GridCounts)
    requires w.Valid()
    requires forall i :: 0 <= i < |cands| ==> InSpawnRange(cands[i])
    requires Players(w) == {}
    ensures var s := UpdateStages(w, keys, cands, grid);
            s.loaded == Reload(w, grid) && s.wave.world == s.loaded
    ensures var v := UpdateStages(w, keys, cands, grid).wave.world;
            && w.nextId in v.entities && w.nextId + 2 in v.entities
            && v.entities[w.nextId].position == Some(Position(Point(50, 50), 270.0))
            && v.entities[w.nextId + 2].gameData == Some(GameData(0, 1))
            && v.nextId >= w.nextId
            && forall id :: id in v.entities ==> id >= w.nextId
  {
    var s := UpdateStages(w, keys, cands, grid);
    assert s.loaded == Reload(w, grid);
    ReloadIsIdleWave(w, grid);
    ReloadShape(w, grid);
    assert s.wave == AdvanceLevel(s.loaded);
  }

  /** The control step keeps every entity's position and game record. */
  lemma ControlledKeeps(s: Stages, id: Id)
    requires s.spawned.Valid()
    requires s.control == ControlAll(s.spawned.entities, JoinOrder(s.spawned), s.keys1, NoFire)
    requires s.controlled == World(s.control.entities, s.spawned.nextId)
    requires id in s.spawned.entities
    ensures id in s.controlled.entities
    ensures s.controlled.entities[id].position == s.spawned.entities[id].position
    ensures s.controlled.entities[id].gameData == s.spawned.entities[id].gameData
  {
    assert s.controlled.entities[id].(player := s.spawned.entities[id].player) == s.spawned.entities[id];
  }

  /** The step-6 facts of `UpdateStages`, for lemmas that reason about one stage at a time. */
  lemma StagesControl(w: World, keys: Keys, cands: seq<Candidate>, grid: GridCounts)
    requires w.Valid()
    requires forall i :: 0 <= i < |cands| ==> InSpawnRange(cands[i])
    ensures var s := UpdateStages(w, keys, cands, grid);
            && s.control == ControlAll(s.spawned.entities, JoinOrder(s.spawned), s.keys1, NoFire)
            && s.controlled == World(s.control.entities, s.spawned.nextId)
  {
  }

  /** The control step keeps the handles, and every entity's position and game record. */
  lemma StagesControlKeeps(w: World, keys: Keys, cands: seq<Candidate>, grid: GridCounts)
    requires w.Valid()
    requires forall i :: 0 <= i < |cands| ==> InSpawnRange(cands[i])
    ensures var s := UpdateStages(w, keys, cands, grid);
            && s.controlled.entities.Keys == s.spawned.entities.Keys
            && forall id :: id in s.spawned.entities ==>
                 && s.controlled.entities[id].position == s.spawned.entities[id].position
                 && s.controlled.entities[id].gameData == s.spawned.entities[id].gameData
  {
    var s := UpdateStages(w, keys, cands, grid);
    StagesControl(w, keys, cands, grid);
    forall id | id in s.spawned.entities
      ensures s.controlled.entities[id].position == s.spawned.entities[id].position
      ensures s.controlled.entities[id].gameData == s.spawned.entities[id].gameData
    {
      ControlledKeeps(s, id);
    }
  }

  /** Every handle left behind by the spawn and control steps is old in the level step's world or fresh after it. */
  lemma HandlesAfterSpawn(s: Stages, id: Id)
    requires forall id :: id in s.spawned.entities && id !in s.wave.world.entities ==> s.wave.world.nextId <= id
    requires s.controlled.entities.Keys == s.spawned.entities.Keys
    requires id in s.controlled.entities
    ensures id in s.wave.world.entities || s.wave.world.nextId <= id
  {
  }

  /** The player and the game record of a reload come through the spawn and control steps with their position and record intact. */
  lemma ReloadedEntitiesKept(w: World, keys: Keys, cands: seq<Candidate>, grid: GridCounts)
    requires w.Valid()
    requires forall i :: 0 <= i < |cands| ==> InSpawnRange(cands[i])
    requires Players(w) == {}
    ensures var s := UpdateStages(w, keys, cands, grid);
            && w.nextId in s.controlled.entities && w.nextId + 2 in s.controlled.entities
            && s.controlled.entities[w.nextId].position == Some(Position(Point(50, 50), 270.0))
            && s.controlled.entities[w.nextId + 2].gameData == Some(GameData(0, 1))
  {
    var s := UpdateStages(w, keys, cands, grid);
    ReloadedStages(w, keys, cands, grid);
    StagesControlKeeps(w, keys, cands, grid);
    KeptThroughStages(s, w.nextId, w.nextId + 2);
  }

  /** After a reload, every handle the spawn and control steps leave behind is fresh. */
  lemma ReloadedHandlesFresh(w: World, keys: Keys, cands: seq<Candidate>, grid: GridCounts)
    requires w.Valid()
    requires forall i :: 0 <= i < |cands| ==> InSpawnRange(cands[i])
    requires Players(w) == {}
    ensures var s := UpdateStages(w, keys, cands, grid);
            forall id :: id in s.controlled.entities ==> id >= w.nextId
  {
    var s := UpdateStages(w, keys, cands, grid);
    ReloadedStages(w, keys, cands, grid);
    StagesControlKeeps(w, keys, cands, grid);
    AllFresh(s, w.nextId);
  }

  /** Entities `a` and `b` of the level step's world come through the spawn and control steps with their positions and game records. */
  lemma KeptThroughStages(s: Stages, a: Id, b: Id)
    requires a in s.wave.world.entities && b in s.wave.world.entities
    requires forall id :: id in s.wave.world.entities ==> id in s.spawned.entities && s.spawned.entities[id] == s.wave.world.entities[id]
    requires s.controlled.entities.Keys == s.spawned.entities.Keys
    requires forall id :: id in s.spawned.entities ==>
               && s.controlled.entities[id].position == s.spawned.entities[id].position
               && s.controlled.entities[id].gameData == s.spawned.entities[id].gameData
    ensures a in s.controlled.entities && b in s.controlled.entities
    ensures s.controlled.entities[a].position == s.wave.world.entities[a].position
    ensures s.controlled.entities[b].gameData == s.wave.world.entities[b].gameData
  {
  }

  /** When the level step's world holds only handles from `n` on, so does the world after the spawn and control steps. */
  lemma AllFresh(s: Stages, n: Id)
    requires forall id :: id in s.wave.world.entities ==> id >= n
    requires s.wave.world.nextId >= n
    requires forall id :: id in s.spawned.entities && id !in s.wave.world.entities ==> s.wave.world.nextId <= id
    requires s.controlled.entities.Keys == s.spawned.entities.Keys
    ensures forall id :: id in s.controlled.entities ==> id >= n
  {
    forall id | id in s.controlled.entities
      ensures id >= n
    {
      HandlesAfterSpawn(s, id);
    }
  }

  /**
   * A tick without a player tears the world down and reloads it: no old
   * handle survives, there is exactly one player, standing where the loader
   * put it, and exactly one game record, reset to score 0 at level 1.
   */
  lemma UpdateReloadsEmptyWorld(w: World, keys: Keys, cands: seq<Candidate>, grid: GridCounts)
    requires w.Valid()
    requires forall i :: 0 <= i < |cands| ==> InSpawnRange(cands[i])
    requires Players(w) == {}
    ensures var r := Update(w, keys, cands, grid).world;
            && (forall id :: id in w.entities ==> id !in r.entities)
            && Players(r) == {w.nextId}
            && r.entities[w.nextId].position == Some(Position(Point(50, 50), 270.0))
            && GameDatas(r) == {w.nextId + 2}
            && r.entities[w.nextId + 2].gameData == Some(GameData(0, 1))
  {
    var s := UpdateStages(w, keys, cands, grid);
    ReloadedStages(w, keys, cands, grid);
    ReloadedEntitiesKept(w, keys, cands, grid);
    ReloadedHandlesFresh(w, keys, cands, grid);
    StagesRoles(w, keys, cands, grid);
    FireStep(w, keys, cands, grid);
  }

  /** No tick takes the rocket population past the cap. */
  lemma UpdateKeepsRocketCap(w: World, keys: Keys, cands: seq<Candidate>, grid: GridCounts)
    requires w.Valid()
    requires forall i :: 0 <= i < |cands| ==> InSpawnRange(cands[i])
    requires |Rockets(w)| <= MaxMissiles
    ensures |Rockets(Update(w, keys, cands, grid).world)| <= MaxMissiles
  {
    var s := UpdateStages(w, keys, cands, grid);
    StagesRoles(w, keys, cands, grid);
    if Players(w) == {} {
      assert Rockets(s.loaded) == {};
    }
  }

  /** A tick keeps the one player it finds, or creates one when there is none: at most one player stays at most one. */
  lemma UpdatePlayerPopulation(w: World, keys: Keys, cands: seq<Candidate>, grid: GridCounts)
    requires w.Valid()
    requires forall i :: 0 <= i < |cands| ==> InSpawnRange(cands[i])
    ensures Players(w) != {} ==> Players(Update(w, keys, cands, grid).world) == Players(w)
    ensures |Players(w)| <= 1 ==> |Players(Update(w, keys, cands, grid).world)| == 1
  {
    var s := UpdateStages(w, keys, cands, grid);
    StagesRoles(w, keys, cands, grid);
    FireStep(w, keys, cands, grid);
    if Players(w) == {} {
      assert s.loaded == Reload(w, grid);
      assert Players(s.loaded) == {w.nextId};
    } else {
      assert s.loaded == w;
      if |Players(w)| <= 1 {
        var p :| p in Players(w);
        AtMostOne(Players(w), p);
      }
    }
  }

  /** The key table after step 4, the one the control loop starts from. */
  lemma StagesBurstKeys(w: World, keys: Keys, cands: seq<Candidate>, grid: GridCounts)
    requires w.Valid()
    requires forall i :: 0 <= i < |cands| ==> InSpawnRange(cands[i])
    ensures UpdateStages(w, keys, cands, grid).keys1 == if IsKeyPressed(keys, "V") then KeyUp(keys, "V") else keys
  {
  }

  /**
   * Consuming V and then running the control loop: the table keeps its
   * keys, no key becomes held, V reads as released, and only V, C and Space
   * can change.
   */
  lemma KeysAfterControl(keys: Keys, keys1: Keys, r: Keys)
    requires keys1 == if IsKeyPressed(keys, "V") then KeyUp(keys, "V") else keys
    requires r.Keys == keys1.Keys
    requires forall k :: k in keys1 && r[k] ==> keys1[k]
    requires forall k :: k in keys1 && k != "C" && k != "Space" ==> r[k] == keys1[k]
    ensures r.Keys == keys.Keys
    ensures forall k :: k in keys && r[k] ==> keys[k]
    ensures forall k :: k in keys && k != "V" && k != "C" && k != "Space" ==> r[k] == keys[k]
    ensures !IsKeyPressed(r, "V")
  {
    if IsKeyPressed(keys, "V") {
      assert !IsKeyPressed(keys1, "V");
    }
  }

  /**
   * What a tick does to the key table: no key is added or removed, none
   * becomes held, a held V is consumed, and every key other than V, C and
   * Space keeps its state.
   */
  lemma UpdateKeyConsumption(w: World, keys: Keys, cands: seq<Candidate>, grid: GridCounts)
    requires w.Valid()
    requires forall i :: 0 <= i < |cands| ==> InSpawnRange(cands[i])
    ensures var r := Update(w, keys, cands, grid).keys;
            && r.Keys == keys.Keys
            && (forall k :: k in keys && r[k] ==> keys[k])
            && (forall k :: k in keys && k != "V" && k != "C" && k != "Space" ==> r[k] == keys[k])
            && !IsKeyPressed(r, "V")
  {
    var s := UpdateStages(w, keys, cands, grid);
    StagesBurstKeys(w, keys, cands, grid);
    StagesControl(w, keys, cands, grid);
    FireStep(w, keys, cands, grid);
    KeysAfterControl(keys, s.keys1, s.control.keys);
  }

  /** Consuming V leaves every other key reading as it did. */
  lemma OtherKeysRead(keys: Keys, k: string)
    requires k != "V"
    ensures IsKeyPressed(if IsKeyPressed(keys, "V") then KeyUp(keys, "V") else keys, k) == IsKeyPressed(keys, k)
  {
  }

  /** With a player present nothing is reloaded and the start position is the captured one. */
  lemma StagesWithPlayer(w: World, keys: Keys, cands: seq<Candidate>, grid: GridCounts)
    requires w.Valid()
    requires forall i :: 0 <= i < |cands| ==> InSpawnRange(cands[i])
    requires Players(w) != {}
    ensures var s := UpdateStages(w, keys, cands, grid);
            s.loaded == w && s.wave == AdvanceLevel(w) && s.start == StartPosition(w)
  {
  }

  /** The level step changes no entity's player, position or collider. */
  lemma WaveKeepsBodies(w: World, id: Id)
    requires w.Valid() && id in w.entities
    ensures var v := AdvanceLevel(w).world;
            && id in v.entities
            && v.entities[id].player == w.entities[id].player
            && v.entities[id].position == w.entities[id].position
            && v.entities[id].collider == w.entities[id].collider
  {
    if Asteroids(w) == {} {
      var v := LevelUpAll(w);
      assert v.entities[id].(gameData := w.entities[id].gameData) == w.entities[id];
    }
  }

  /** With one player, and that one controllable, the control loop is exactly that player's turn. */
  lemma SingleControl(s: Stages, pid: Id)
    requires s.spawned.Valid()
    requires s.control == ControlAll(s.spawned.entities, JoinOrder(s.spawned), s.keys1, NoFire)
    requires Players(s.spawned) == {pid}
    requires pid in s.spawned.entities && Controllable(s.spawned.entities[pid])
    ensures var t := ControlOne(s.spawned.entities[pid], s.keys1, NoFire);
            s.control == Control(s.spawned.entities[pid := t.entity], t.keys, t.order)
  {
    OnlyPlayerInJoin(s.spawned, pid);
    ControlAllSingle(s.spawned.entities, JoinOrder(s.spawned), s.keys1, NoFire, pid);
  }

  /** In a world whose only player is `pid`, the join meets no other controllable entity. */
  lemma OnlyPlayerInJoin(w: World, pid: Id)
    requires w.Valid() && Players(w) == {pid}
    ensures forall i :: 0 <= i < |JoinOrder(w)| && JoinOrder(w)[i] in w.entities && Controllable(w.entities[JoinOrder(w)[i]]) ==>
              JoinOrder(w)[i] == pid
  {
    var ids := JoinOrder(w);
    forall i | 0 <= i < |ids| && ids[i] in w.entities && Controllable(w.entities[ids[i]])
      ensures ids[i] == pid
    {
      assert ids[i] in Players(w);
    }
  }

  /** With a single player, steps 1 to 5 hand it to the control loop unchanged in the parts the loop reads. */
  lemma SinglePlayerReachesControl(w: World, keys: Keys, cands: seq<Candidate>, grid: GridCounts, pid: Id)
    requires w.Valid()
    requires forall i :: 0 <= i < |cands| ==> InSpawnRange(cands[i])
    requires pid in w.entities && Players(w) == {pid}
    ensures var s := UpdateStages(w, keys, cands, grid);
            && pid in s.spawned.entities && Players(s.spawned) == {pid}
            && s.spawned.entities[pid].player == w.entities[pid].player
            && s.spawned.entities[pid].position == w.entities[pid].position
            && s.spawned.entities[pid].collider == w.entities[pid].collider
  {
    var s := UpdateStages(w, keys, cands, grid);
    StagesWithPlayer(w, keys, cands, grid);
    WaveKeepsBodies(w, pid);
    WaveRoles(w);
    SpawnRoles(s.wave.world, s.spawned, s.start);
  }

  /**
   * A tick with a single, controllable player: the player steers by the
   * movement keys, flips damage once if C was held, and C and Space are
   * consumed. A held Space fires one rocket from the player's muzzle when
   * fewer than five rockets are alive, and nothing otherwise.
   */
  lemma UpdateSinglePlayerControls(w: World, keys: Keys, cands: seq<Candidate>, grid: GridCounts, pid: Id)
    requires w.Valid()
    requires forall i :: 0 <= i < |cands| ==> InSpawnRange(cands[i])
    requires pid in w.entities && Players(w) == {pid} && Controllable(w.entities[pid])
    ensures var r := Update(w, keys, cands, grid);
            var p := w.entities[pid].player.value;
            && pid in r.world.entities && r.world.entities[pid].player.Some?
            && r.world.entities[pid].player.value == Steer(p, keys).(canTakeDamage := p.canTakeDamage != IsKeyPressed(keys, "C"))
            && !IsKeyPressed(r.keys, "C") && !IsKeyPressed(r.keys, "Space")
            && |Rockets(r.world)| == (if IsKeyPressed(keys, "Space") && |Rockets(w)| < MaxMissiles then |Rockets(w)| + 1 else |Rockets(w)|)
            && (IsKeyPressed(keys, "Space") && |Rockets(w)| < MaxMissiles ==>
                  exists id :: id in r.world.entities && id !in w.entities &&
                               r.world.entities[id] == RocketEntity(Muzzle(w.entities[pid].position.value), w.entities[pid].collider.value))
  {
    var s := UpdateStages(w, keys, cands, grid);
    SingleTickStages(w, keys, cands, grid, pid);
    StagesWithPlayer(w, keys, cands, grid);
    StagesRoles(w, keys, cands, grid);
    FireStep(w, keys, cands, grid);
    SingleTickFire(w, keys, s, pid, Update(w, keys, cands, grid));
  }

  /** Steps 1 to 6 of a tick with a single, controllable player. */
  lemma SingleTickStages(w: World, keys: Keys, cands: seq<Candidate>, grid: GridCounts, pid: Id)
    requires w.Valid()
    requires forall i :: 0 <= i < |cands| ==> InSpawnRange(cands[i])
    requires pid in w.entities && Players(w) == {pid} && Controllable(w.entities[pid])
    ensures var s := UpdateStages(w, keys, cands, grid);
            && pid in s.spawned.entities
            && s.spawned.entities[pid].player == w.entities[pid].player
            && s.spawned.entities[pid].position == w.entities[pid].position
            && s.spawned.entities[pid].collider == w.entities[pid].collider
            && s.keys1 == (if IsKeyPressed(keys, "V") then KeyUp(keys, "V") else keys)
            && s.controlled == World(s.control.entities, s.spawned.nextId)
            && var t := ControlOne(s.spawned.entities[pid], s.keys1, NoFire);
               s.control == Control(s.spawned.entities[pid := t.entity], t.keys, t.order)
  {
    var s := UpdateStages(w, keys, cands, grid);
    SinglePlayerReachesControl(w, keys, cands, grid, pid);
    StagesControl(w, keys, cands, grid);
    StagesBurstKeys(w, keys, cands, grid);
    SingleControl(s, pid);
  }

  /** Step 7 after a single player's turn, over the stages as plain values. */
  lemma SingleTickFire(w: World, keys: Keys, s: Stages, pid: Id, r: Tick)
    requires w.Valid() && s.controlled.Valid()
    requires pid in w.entities && Controllable(w.entities[pid])
    requires pid in s.spawned.entities
    requires s.spawned.entities[pid].player == w.entities[pid].player
    requires s.spawned.entities[pid].position == w.entities[pid].position
    requires s.spawned.entities[pid].collider == w.entities[pid].collider
    requires s.keys1 == if IsKeyPressed(keys, "V") then KeyUp(keys, "V") else keys
    requires s.controlled == World(s.control.entities, s.spawned.nextId)
    requires var t := ControlOne(s.spawned.entities[pid], s.keys1, NoFire);
             s.control == Control(s.spawned.entities[pid := t.entity], t.keys, t.order)
    requires Rockets(s.controlled) == Rockets(w)
    requires forall id :: id in w.entities ==> id < s.controlled.nextId
    requires r.keys == s.control.keys
    requires forall id :: id in s.controlled.entities ==> id in r.world.entities && r.world.entities[id] == s.controlled.entities[id]
    requires !s.control.order.must ==> r.world == s.controlled
    requires s.control.order.must ==> r.world == FireRocket(s.controlled, s.control.order.at, s.control.order.grid)
    ensures var p := w.entities[pid].player.value;
            && pid in r.world.entities && r.world.entities[pid].player.Some?
            && r.world.entities[pid].player.value == Steer(p, keys).(canTakeDamage := p.canTakeDamage != IsKeyPressed(keys, "C"))
            && !IsKeyPressed(r.keys, "C") && !IsKeyPressed(r.keys, "Space")
            && |Rockets(r.world)| == (if IsKeyPressed(keys, "Space") && |Rockets(w)| < MaxMissiles then |Rockets(w)| + 1 else |Rockets(w)|)
            && (IsKeyPressed(keys, "Space") && |Rockets(w)| < MaxMissiles ==>
                  exists id :: id in r.world.entities && id !in w.entities &&
                               r.world.entities[id] == RocketEntity(Muzzle(w.entities[pid].position.value), w.entities[pid].collider.value))
  {
    SinglePlayerTurn(w, keys, s, pid);
    assert pid in s.controlled.entities;
    if IsKeyPressed(keys, "Space") && |Rockets(w)| < MaxMissiles {
      assert s.controlled.nextId in r.world.entities;
    }
  }

  /** The single player's turn, read against the key table the tick started with. */
  lemma SinglePlayerTurn(w: World, keys: Keys, s: Stages, pid: Id)
    requires pid in w.entities && Controllable(w.entities[pid])
    requires pid in s.spawned.entities
    requires s.spawned.entities[pid].player == w.entities[pid].player
    requires s.spawned.entities[pid].position == w.entities[pid].position
    requires s.spawned.entities[pid].collider == w.entities[pid].collider
    requires s.keys1 == if IsKeyPressed(keys, "V") then KeyUp(keys, "V") else keys
    ensures var t := ControlOne(s.spawned.entities[pid], s.keys1, NoFire);
            var p := w.entities[pid].player.value;
            && t.entity.player == Some(Steer(p, keys).(canTakeDamage := p.canTakeDamage != IsKeyPressed(keys, "C")))
            && !IsKeyPressed(t.keys, "C") && !IsKeyPressed(t.keys, "Space")
            && t.order.must == IsKeyPressed(keys, "Space")
            && (t.order.must ==> t.order.at == Muzzle(w.entities[pid].position.value) && t.order.grid == w.entities[pid].collider.value)
  {
    OtherKeysRead(keys, "C");
    OtherKeysRead(keys, "Space");
    OtherKeysRead(keys, "D");
    OtherKeysRead(keys, "A");
    OtherKeysRead(keys, "W");
    OtherKeysRead(keys, "S");
  }

  /** The number of asteroids a tick that finds a player asks the spawn loop for: the wave the level step makes due, plus the burst for a held V. */
  function Requested(w: World, keys: Keys): nat
    requires w.Valid()
  {
    AdvanceLevel(w).count + (if IsKeyPressed(keys, "V") then BurstSize else 0)
  }

  /** The request is `WaveSize` when no asteroid is left and nothing otherwise, plus `BurstSize` for a held V. */
  lemma RequestedCount(w: World, keys: Keys)
    requires w.Valid()
    ensures Requested(w, keys) == (if Asteroids(w) == {} then WaveSize(w) else 0) + (if IsKeyPressed(keys, "V") then BurstSize else 0)
  {
    WaveCount(w);
  }

  /** Step 5 of a tick that finds a player: a spawn of `Requested` asteroids on the handles after the old `nextId`. */
  lemma SpawnTickStages(w: World, keys: Keys, cands: seq<Candidate>, grid: GridCounts)
    requires w.Valid()
    requires forall i :: 0 <= i < |cands| ==> InSpawnRange(cands[i])
    requires Players(w) != {}
    ensures var s := UpdateStages(w, keys, cands, grid);
            && s.spawned.nextId == w.nextId + Min(Requested(w, keys), SafeCount(StartPosition(w), cands))
            && forall id :: w.nextId <= id < s.spawned.nextId ==> id in s.spawned.entities
  {
    var s := UpdateStages(w, keys, cands, grid);
    StagesWithPlayer(w, keys, cands, grid);
    SpawnCount(w, keys, cands, s);
  }

  /** `SpawnTickStages` over the stages as plain values. */
  lemma SpawnCount(w: World, keys: Keys, cands: seq<Candidate>, s: Stages)
    requires w.Valid()
    requires s.wave == AdvanceLevel(w) && s.start == StartPosition(w)
    requires forall id :: s.wave.world.nextId <= id < s.spawned.nextId ==> id in s.spawned.entities
    requires s.spawned.nextId == s.wave.world.nextId + SpawnedCount(s.wave, IsKeyPressed(keys, "V"), s.start, cands)
    ensures s.wave.world.nextId == w.nextId
    ensures s.spawned.nextId == w.nextId + Min(Requested(w, keys), SafeCount(StartPosition(w), cands))
    ensures forall id :: w.nextId <= id < s.spawned.nextId ==> id in s.spawned.entities
  {
    WaveCount(w);
  }

  /** The level step's wave count and handle counter. */
  lemma WaveCount(w: World)
    requires w.Valid()
    ensures AdvanceLevel(w).count == if Asteroids(w) == {} then WaveSize(w) else 0
    ensures AdvanceLevel(w).world.nextId == w.nextId
  {
  }

  /** The handles a spawn adds are exactly the `k` after the old `nextId`. */
  lemma FreshRange(v: World, sp: World, k: nat)
    requires v.Valid()
    requires sp.nextId == v.nextId + k
    requires forall id :: v.nextId <= id < sp.nextId ==> id in sp.entities
    requires forall id :: id in sp.entities && id !in v.entities ==> v.nextId <= id
    requires sp.Valid()
    ensures forall id :: id in sp.entities && id !in v.entities <==> v.nextId <= id < v.nextId + k
  {
  }

  /** The control step leaves every entity that is not a controllable player as it was. */
  lemma StagesControlKeepsOthers(w: World, keys: Keys, cands: seq<Candidate>, grid: GridCounts)
    requires w.Valid()
    requires forall i :: 0 <= i < |cands| ==> InSpawnRange(cands[i])
    ensures var s := UpdateStages(w, keys, cands, grid);
            forall id :: id in s.spawned.entities && !Controllable(s.spawned.entities[id]) ==>
              id in s.controlled.entities && s.controlled.entities[id] == s.spawned.entities[id]
  {
    StagesControl(w, keys, cands, grid);
  }

  /** Steps 5 and 6 of a tick that finds a player: the handles added, and what the spawn put there. */
  lemma SpawnTickAdded(w: World, keys: Keys, cands: seq<Candidate>, grid: GridCounts)
    requires w.Valid()
    requires forall i :: 0 <= i < |cands| ==> InSpawnRange(cands[i])
    requires Players(w) != {}
    ensures var s := UpdateStages(w, keys, cands, grid);
            var k := Min(Requested(w, keys), SafeCount(StartPosition(w), cands));
            && (forall id :: id in s.spawned.entities && id !in s.wave.world.entities <==> w.nextId <= id < w.nextId + k)
            && (forall id :: id in s.spawned.entities && id !in s.wave.world.entities ==>
                  id in s.controlled.entities && SafelySpawned(s.controlled.entities[id], StartPosition(w)))
  {
    var s := UpdateStages(w, keys, cands, grid);
    StagesWithPlayer(w, keys, cands, grid);
    WaveCount(w);
    SpawnTickStages(w, keys, cands, grid);
    FreshRange(s.wave.world, s.spawned, Min(Requested(w, keys), SafeCount(StartPosition(w), cands)));
    StagesControlKeepsOthers(w, keys, cands, grid);
  }

  /**
   * A tick that finds a player. With no asteroid left every game record
   * goes up exactly one level; otherwise no record changes. The asteroids
   * afterwards are the old ones plus the handles just spawned, which are
   * fresh, as many as `Requested` asks for or the candidates allow, each
   * safely away from the player position captured at the start of the tick.
   */
  lemma UpdateSpawnsWave(w: World, keys: Keys, cands: seq<Candidate>, grid: GridCounts)
    requires w.Valid()
    requires forall i :: 0 <= i < |cands| ==> InSpawnRange(cands[i])
    requires Players(w) != {}
    ensures var r := Update(w, keys, cands, grid).world;
            var k := Min(Requested(w, keys), SafeCount(StartPosition(w), cands));
            && (forall id :: id in Asteroids(r) <==> id in Asteroids(w) || w.nextId <= id < w.nextId + k)
            && (forall id :: id in Asteroids(r) && id !in w.entities ==> SafelySpawned(r.entities[id], StartPosition(w)))
            && GameDatas(r) == GameDatas(w)
            && (forall id :: id in GameDatas(w) ==>
                  var g := w.entities[id].gameData.value;
                  r.entities[id].gameData == Some(GameData(g.score, if Asteroids(w) == {} then g.level + 1 else g.level)))
  {
    var s := UpdateStages(w, keys, cands, grid);
    StagesWithPlayer(w, keys, cands, grid);
    WaveCount(w);
    SpawnTickStages(w, keys, cands, grid);
    SpawnTickAdded(w, keys, cands, grid);
    StagesControlKeeps(w, keys, cands, grid);
    StagesRoles(w, keys, cands, grid);
    FireStep(w, keys, cands, grid);
    SpawnTickFire(w, s, Update(w, keys, cands, grid).world, Min(Requested(w, keys), SafeCount(StartPosition(w), cands)), StartPosition(w));
  }

  /** `UpdateSpawnsWave` over the stages as plain values. */
  lemma SpawnTickFire(w: World, s: Stages, r: World, k: nat, start: Point)
    requires w.Valid()
    requires s.loaded == w && s.wave == AdvanceLevel(w) && s.wave.world.nextId == w.nextId
    requires forall id :: id in s.wave.world.entities ==> id in s.spawned.entities && s.spawned.entities[id] == s.wave.world.entities[id]
    requires forall id :: id in s.spawned.entities && id !in s.wave.world.entities <==> w.nextId <= id < w.nextId + k
    requires forall id :: id in s.spawned.entities && id !in s.wave.world.entities ==>
               id in s.controlled.entities && SafelySpawned(s.controlled.entities[id], start)
    requires s.controlled.entities.Keys == s.spawned.entities.Keys
    requires forall id :: id in s.spawned.entities ==> s.controlled.entities[id].gameData == s.spawned.entities[id].gameData
    requires GameDatas(s.controlled) == GameDatas(s.loaded)
    requires Asteroids(s.controlled) == Asteroids(s.loaded) + (s.spawned.entities.Keys - s.wave.world.entities.Keys)
    requires GameDatas(r) == GameDatas(s.controlled) && Asteroids(r) == Asteroids(s.controlled)
    requires forall id :: id in s.controlled.entities ==> id in r.entities && r.entities[id] == s.controlled.entities[id]
    ensures forall id :: id in Asteroids(r) <==> id in Asteroids(w) || w.nextId <= id < w.nextId + k
    ensures forall id :: id in Asteroids(r) && id !in w.entities ==> SafelySpawned(r.entities[id], start)
    ensures GameDatas(r) == GameDatas(w)
    ensures forall id :: id in GameDatas(w) ==>
              var g := w.entities[id].gameData.value;
              r.entities[id].gameData == Some(GameData(g.score, if Asteroids(w) == {} then g.level + 1 else g.level))
  {
    WaveKeepsHandles(w);
    forall id | id in GameDatas(w)
      ensures var g := w.entities[id].gameData.value;
              r.entities[id].gameData == Some(GameData(g.score, if Asteroids(w) == {} then g.level + 1 else g.level))
    {
      assert id in s.wave.world.entities;
    }
  }

  /**
   * A tick that finds a player places the i-th asteroid it spawns on the
   * i-th candidate that is far enough from the captured player position,
   * under handle `w.nextId + i`, and neither the control loop nor the fire
   * step touches it afterwards.
   */
  lemma UpdatePlacesAccepted(w: World, keys: Keys, cands: seq<Candidate>, grid: GridCounts)
    requires w.Valid()
    requires forall i :: 0 <= i < |cands| ==> InSpawnRange(cands[i])
    requires Players(w) != {}
    ensures PlacedRun(Update(w, keys, cands, grid).world.entities, w.nextId, Accepted(StartPosition(w), cands),
                      Min(Requested(w, keys), SafeCount(StartPosition(w), cands)), grid)
  {
    var s := UpdateStages(w, keys, cands, grid);
    StagesWithPlayer(w, keys, cands, grid);
    SpawnCount(w, keys, cands, s);
    var a := Accepted(StartPosition(w), cands);
    var m := Min(Requested(w, keys), SafeCount(StartPosition(w), cands));
    assert PlacedRun(s.spawned.entities, w.nextId, a, m, grid);
    StagesControlKeepsOthers(w, keys, cands, grid);
    RunOutlivesControl(s.spawned.entities, s.controlled.entities, w.nextId, a, m, grid);
    FireStep(w, keys, cands, grid);
    RunOutlivesFire(s.controlled.entities, Update(w, keys, cands, grid).world.entities, w.nextId, a, m, grid);
  }

  /** Spawned asteroids are not controllable, so a step that keeps every non-controllable entity keeps the run. */
  lemma RunOutlivesControl(es: map<Id, Entity>, es': map<Id, Entity>, base: Id, a: seq<Candidate>, n: nat, grid: GridCounts)
    requires PlacedRun(es, base, a, n, grid)
    requires forall id :: id in es && !Controllable(es[id]) ==> id in es' && es'[id] == es[id]
    ensures PlacedRun(es', base, a, n, grid)
  {
    forall i: nat | i < n
      ensures PlacedAt(es', base, a, i, grid)
    {
      assert PlacedAt(es, base, a, i, grid);
    }
  }

  /** A step that keeps every entity keeps the run. */
  lemma RunOutlivesFire(es: map<Id, Entity>, es': map<Id, Entity>, base: Id, a: seq<Candidate>, n: nat, grid: GridCounts)
    requires PlacedRun(es, base, a, n, grid)
    requires forall id :: id in es ==> id in es' && es'[id] == es[id]
    ensures PlacedRun(es', base, a, n, grid)
  {
    forall i: nat | i < n
      ensures PlacedAt(es', base, a, i, grid)
    {
      assert PlacedAt(es, base, a, i, grid);
    }
  }

  /**
   * The frame of a tick that finds a player: every entity survives, and
   * apart from its game record (the level step) and its player component
   * (the control loop) it is left exactly as it was; an entity that is not
   * a controllable player keeps its player component too. Every handle
   * the tick adds is fresh.
   */
  lemma UpdateFrame(w: World, keys: Keys, cands: seq<Candidate>, grid: GridCounts)
    requires w.Valid()
    requires forall i :: 0 <= i < |cands| ==> InSpawnRange(cands[i])
    requires Players(w) != {}
    ensures var r := Update(w, keys, cands, grid).world;
            && (forall id :: id in w.entities ==>
                  id in r.entities &&
                  r.entities[id].(player := w.entities[id].player, gameData := w.entities[id].gameData) == w.entities[id])
            && (forall id :: id in w.entities && !Controllable(w.entities[id]) ==> r.entities[id].player == w.entities[id].player)
            && (forall id :: id in r.entities && id !in w.entities ==> id >= w.nextId)
  {
    var s := UpdateStages(w, keys, cands, grid);
    StagesWithPlayer(w, keys, cands, grid);
    WaveFrame(w);
    StagesControl(w, keys, cands, grid);
    FireStep(w, keys, cands, grid);
    FrameAcross(w, s.wave.world, s.spawned, s.controlled, Update(w, keys, cands, grid).world);
  }

  /** The level step keeps every handle and changes nothing but game records. */
  lemma WaveFrame(w: World)
    requires w.Valid()
    ensures var v := AdvanceLevel(w).world;
            && v.entities.Keys == w.entities.Keys && v.nextId == w.nextId
            && forall id :: id in w.entities ==> v.entities[id].(gameData := w.entities[id].gameData) == w.entities[id]
  {
  }

  /** `UpdateFrame` over the level, spawn, control and fire results as plain values. */
  lemma FrameAcross(w: World, v: World, sp: World, c: World, r: World)
    requires v.entities.Keys == w.entities.Keys && v.nextId == w.nextId
    requires forall id :: id in w.entities ==> v.entities[id].(gameData := w.entities[id].gameData) == w.entities[id]
    requires forall id :: id in v.entities ==> id in sp.entities && sp.entities[id] == v.entities[id]
    requires forall id :: id in sp.entities && id !in v.entities ==> v.nextId <= id
    requires sp.nextId >= v.nextId
    requires c.entities.Keys == sp.entities.Keys && c.nextId == sp.nextId
    requires forall id :: id in sp.entities ==> c.entities[id].(player := sp.entities[id].player) == sp.entities[id]
    requires forall id :: id in sp.entities && !Controllable(sp.entities[id]) ==> c.entities[id] == sp.entities[id]
    requires forall id :: id in c.entities ==> id in r.entities && r.entities[id] == c.entities[id]
    requires forall id :: id in r.entities && id !in c.entities ==> id >= c.nextId
    ensures forall id :: id in w.entities ==>
              id in r.entities &&
              r.entities[id].(player := w.entities[id].player, gameData := w.entities[id].gameData) == w.entities[id]
    ensures forall id :: id in w.entities && !Controllable(w.entities[id]) ==> r.entities[id].player == w.entities[id].player
    ensures forall id :: id in r.entities && id !in w.entities ==> id >= w.nextId
  {
    forall id | id in w.entities
      ensures id in r.entities
      ensures r.entities[id].(player := w.entities[id].player, gameData := w.entities[id].gameData) == w.entities[id]
      ensures !Controllable(w.entities[id]) ==> r.entities[id].player == w.entities[id].player
    {
      var e, ev := w.entities[id], v.entities[id];
      assert sp.entities[id] == ev;
      assert ev.player == e.player && ev.position == e.position && ev.collider == e.collider;
      assert c.entities[id].(player := ev.player) == ev;
    }
  }

  /** The level step keeps the handles. */
  lemma WaveKeepsHandles(w: World)
    requires w.Valid()
    ensures AdvanceLevel(w).world.entities.Keys == w.entities.Keys
  {
  }
}
