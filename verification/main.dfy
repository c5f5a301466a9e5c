/**
 * The game logic of src/main.rs: the player mover `update_player`, the pure
 * arithmetic of `render` (which frame of a sprite strip is drawn, and the
 * frame advance), and the order of the systems of one dispatch.
 */
module MainLoop {
  import opened Options
  import opened Components
  import opened Ecs
  import opened AsteroidSystems
  import opened RocketSystems

  /** The displacement one tick of movement in direction `d` at `speed` should produce: screen y grows downwards. */
  function Velocity(d: Direction, speed: int): Point {
    match d
    case Right => Point(speed, 0)
    case Left => Point(-speed, 0)
    case Up => Point(0, -speed)
    case Down => Point(0, speed)
  }

  /** SDL's `Point::offset`. */
  function Offset(p: Point, dx: int, dy: int): Point {
    Point(p.x + dx, p.y + dy)
  }

  /**
   * One axis of the wrap: past the far edge subtract the screen size, then
   * below zero add it. Both tests are strict, so 0 and `size` stay put.
   */
  function WrapAxis(v: int, size: int): (r: int)
    requires size > 0
    ensures (r - v) % size == 0
    ensures -size <= v <= 2 * size ==> 0 <= r <= size
    ensures 0 <= v <= size ==> r == v
    ensures v > size ==> r == v - size
    ensures v < 0 ==> r == v + size
  {
    var a := if v > size then v - size else v;
    if a < 0 then a + size else a
  }

  /** The move of `update_player`: offset by the player's direction and speed, then wrap. */
  function MovePlayer(player: Player, position: Position): (r: Position)
    ensures r.rot == position.rot
    ensures (r.pos.x - (position.pos.x + Velocity(player.direction, player.speed).x)) % ScreenWidth == 0
    ensures (r.pos.y - (position.pos.y + Velocity(player.direction, player.speed).y)) % ScreenHeight == 0
    ensures InScreen(position.pos) && 0 <= player.speed <= ScreenHeight ==> InScreen(r.pos)
    ensures InScreen(position.pos) && player.speed == 0 ==> r == position
    ensures var m := Offset(position.pos, Velocity(player.direction, player.speed).x, Velocity(player.direction, player.speed).y);
            r.pos == Point(WrapAxis(m.x, ScreenWidth), WrapAxis(m.y, ScreenHeight))
  {
    var s := player.speed;
    var moved :=
      match player.direction
      case Left => Offset(position.pos, -s, 0)
      case Right => Offset(position.pos, s, 0)
      case Up => Offset(position.pos, 0, -s)
      case Down => Offset(position.pos, 0, s);
    Position(Point(WrapAxis(moved.x, ScreenWidth), WrapAxis(moved.y, ScreenHeight)), position.rot)
  }

  /** Walking right off the right edge reappears at the left edge, and keeps going. */
  lemma WrapRightScenario()
    ensures MovePlayer(Player(5, Right, true), Position(Point(799, 300), 0.0)) == Position(Point(4, 300), 0.0)
    ensures MovePlayer(Player(5, Right, true), Position(Point(4, 300), 0.0)) == Position(Point(9, 300), 0.0)
  {
  }

  /** The wrap tests are strict: walking onto the right border stops there, and leaving the top reappears at the bottom border. */
  lemma EdgeKeptScenario()
    ensures MovePlayer(Player(5, Right, true), Position(Point(795, 300), 0.0)) == Position(Point(800, 300), 0.0)
    ensures MovePlayer(Player(5, Up, true), Position(Point(10, 0), 0.0)) == Position(Point(10, 595), 0.0)
  {
  }

  /** A wrapped position is a fixed point of a standstill move. */
  lemma WrapIdempotent(player: Player, position: Position)
    requires InScreen(position.pos) && 0 <= player.speed <= ScreenHeight
    ensures MovePlayer(player.(speed := 0), MovePlayer(player, position)) == MovePlayer(player, position)
  {
  }

  /** `update_player` over the world: every entity with a Player and a Position moves; nothing else changes. */
  function UpdatePlayers(w: World): (r: World)
    requires w.Valid()
    ensures r.Valid() && r.nextId == w.nextId
    ensures r.entities.Keys == w.entities.Keys
    ensures forall id :: id in w.entities ==>
              r.entities[id].(position := w.entities[id].position) == w.entities[id]
    ensures forall id :: id in w.entities && w.entities[id].player.None? ==>
              r.entities[id] == w.entities[id]
    ensures forall id :: id in w.entities && w.entities[id].player.Some? && w.entities[id].position.Some? ==>
              r.entities[id].position == Some(MovePlayer(w.entities[id].player.value, w.entities[id].position.value))
    ensures forall id :: id in w.entities && w.entities[id].player.Some? && w.entities[id].position.Some? ==>
              r.entities[id].position.Some? &&
              r.entities[id].position.value.rot == w.entities[id].position.value.rot &&
              (InScreen(w.entities[id].position.value.pos) && 0 <= w.entities[id].player.value.speed <= ScreenHeight ==>
                 InScreen(r.entities[id].position.value.pos))
  {
    World(map id | id in w.entities ::
            var e := w.entities[id];
            if e.player.Some? && e.position.Some?
            then e.(position := Some(MovePlayer(e.player.value, e.position.value)))
            else e,
          w.nextId)
  }

  datatype Rect = Rect(x: int, y: int, width: nat, height: nat)

  /** The source rectangle of `render`: frame `frame` of a horizontal strip of `input_width`-wide frames. */
  function SourceRect(r: Renderable): (rect: Rect)
    ensures rect.y == 0 && rect.width == r.inputWidth && rect.height == r.inputHeight
    ensures rect.x == r.inputWidth * r.frame
  {
    Rect(r.inputWidth * r.frame, 0, r.inputWidth, r.inputHeight)
  }

  /** Successive frames sit side by side, and every frame below `total_frames` lies inside the strip. */
  lemma SourceRectsTileStrip(r: Renderable)
    ensures SourceRect(r.(frame := r.frame + 1)).x == SourceRect(r).x + SourceRect(r).width
    ensures r.frame < r.totalFrames ==>
              0 <= SourceRect(r).x && SourceRect(r).x + SourceRect(r).width <= r.inputWidth * r.totalFrames
  {
    assert r.inputWidth * (r.frame + 1) == r.inputWidth * r.frame + r.inputWidth;
    if r.frame < r.totalFrames {
      MulMonotone(r.inputWidth, r.frame + 1, r.totalFrames);
    }
  }

  lemma MulMonotone(a: nat, b: nat, c: nat)
    requires b <= c
    ensures a * b <= a * c
  {
  }

  /**
   * The frame advance of `render`: `(frame + 1) % total_frames`. A strip of
   * zero frames makes the remainder panic, which is `None` here.
   */
  function NextFrame(frame: nat, total: nat): (r: Option<nat>)
    ensures r.None? <==> total == 0
    ensures r.Some? ==> r.value < total
    ensures r.Some? && frame + 1 < total ==> r.value == frame + 1
    ensures r.Some? && frame + 1 == total ==> r.value == 0
  {
    if total == 0 then None else Some((frame + 1) % total)
  }

  /** The frame shown `n` draws after `frame`. */
  function FrameAfter(frame: nat, total: nat, n: nat): nat
    requires total > 0
  {
    if n == 0 then frame else NextFrame(FrameAfter(frame, total, n - 1), total).value
  }

  /** `n` draws move a valid frame `n` steps round its strip. */
  lemma {:induction false} FrameAfterIsModular(frame: nat, total: nat, n: nat)
    requires 0 < total && frame < total
    ensures FrameAfter(frame, total, n) == (frame + n) % total
  {
    if n == 0 {
      ModUnique(frame, total, 0, frame);
    } else {
      var a := frame + n - 1;
      FrameAfterIsModular(frame, total, n - 1);
      NextFrameStep(FrameAfter(frame, total, n - 1), a, total);
      assert a + 1 == frame + n;
    }
  }

  /** Advancing the frame `a % total` lands on `(a + 1) % total`. */
  lemma NextFrameStep(x: nat, a: nat, total: nat)
    requires total > 0 && x == a % total
    ensures NextFrame(x, total) == Some((a + 1) % total)
  {
    ModSucc(a, total);
  }

  /** The animation is a cycle: `total_frames` draws return to the frame they started from. */
  lemma FramesCycle(frame: nat, total: nat)
    requires 0 < total && frame < total
    ensures FrameAfter(frame, total, total) == frame
  {
    FrameAfterIsModular(frame, total, total);
    ModUnique(frame + total, total, 1, frame);
  }

  lemma ModUnique(a: int, t: int, q: int, r: int)
    requires t > 0 && 0 <= r < t && a == q * t + r
    ensures a % t == r && a / t == q
  {
    var q' := a / t;
    var r' := a % t;
    assert a == q' * t + r';
    var d := q - q';
    assert d * t == q * t - q' * t;
    assert d * t == r' - r;
    if d > 0 {
      MulAtLeast(d, t);
    } else if d < 0 {
      MulAtLeast(-d, t);
    }
  }

  lemma MulAtLeast(k: int, t: int)
    requires k >= 1 && t > 0
    ensures k * t >= t
  {
    assert k * t == (k - 1) * t + t;
    assert (k - 1) * t >= 0;
  }

  lemma ModSucc(a: nat, t: nat)
    requires t > 0
    ensures (a % t + 1) % t == (a + 1) % t
  {
    var q := a / t;
    var r := a % t;
    assert a == q * t + r;
    if r + 1 == t {
      ModUnique(a + 1, t, q + 1, 0);
      ModUnique(r + 1, t, 1, 0);
    } else {
      ModUnique(a + 1, t, q, r + 1);
      ModUnique(r + 1, t, 0, r + 1);
    }
  }

  /** An entity `render` draws. */
  predicate Drawn(e: Entity) {
    e.renderable.Some? && e.position.Some?
  }

  /**
   * The frame advance of `render` over the world. One drawn entity with an
   * empty strip makes the remainder panic. Otherwise every drawn entity's
   * frame moves one step round its strip and nothing else changes.
   */
  function AdvanceFrames(w: World): (r: Option<World>)
    requires w.Valid()
    ensures r.None? <==> exists id :: id in w.entities && Drawn(w.entities[id]) && w.entities[id].renderable.value.totalFrames == 0
    ensures r.Some? ==> r.value.Valid() && r.value.entities.Keys == w.entities.Keys
    ensures r.Some? ==> forall id :: id in w.entities && !Drawn(w.entities[id]) ==> r.value.entities[id] == w.entities[id]
    ensures r.Some? ==> forall id :: id in w.entities && Drawn(w.entities[id]) ==>
              var before := w.entities[id].renderable.value;
              r.value.entities[id].renderable.Some? &&
              r.value.entities[id] == w.entities[id].(renderable := r.value.entities[id].renderable) &&
              r.value.entities[id].renderable.value == before.(frame := r.value.entities[id].renderable.value.frame) &&
              r.value.entities[id].renderable.value.frame < before.totalFrames &&
              r.value.entities[id].renderable.value.frame == (before.frame + 1) % before.totalFrames
  {
    if exists id :: id in w.entities && Drawn(w.entities[id]) && w.entities[id].renderable.value.totalFrames == 0 then None
    else
      Some(World(map id | id in w.entities ::
                   var e := w.entities[id];
                   if Drawn(e)
                   then e.(renderable := Some(e.renderable.value.(frame := NextFrame(e.renderable.value.frame, e.renderable.value.totalFrames).value)))
                   else e,
                 w.nextId))
  }

  /**
   * One `dispatch` of the three systems followed by `maintain`. The systems
   * write the same storages, so they run one after another in the order they
   * were registered: asteroids move, the collider looks at the moved
   * asteroids, rockets move; the deletions of the collider and of the rocket
   * mover take effect together at `maintain`.
   */
  function Dispatch(w: World, trig: Trig): (r: World)
    requires w.Valid()
    ensures r.Valid() && r.nextId == w.nextId && r.entities.Keys <= w.entities.Keys
    ensures forall id :: id in w.entities && id !in r.entities ==> id in Players(w) || id in Rockets(w)
    ensures forall id :: id in r.entities ==> SameRoles(r.entities[id], w.entities[id])
    ensures Players(r) <= Players(w) && Rockets(r) <= Rockets(w)
    ensures Godmode(w) ==> forall id :: id in Players(w) && id !in Rockets(w) ==> id in Players(r)
    ensures forall id :: id in w.entities && !IsMovingAsteroid(w.entities[id]) && !IsFlyingRocket(w.entities[id]) ==>
              (w.entities[id].player.None? ==> id in r.entities && r.entities[id] == w.entities[id])
    ensures forall id :: id in r.entities && !IsMovingAsteroid(w.entities[id]) && !IsFlyingRocket(w.entities[id]) ==>
              r.entities[id] == w.entities[id]
    ensures forall id :: id in r.entities && IsFlyingRocket(w.entities[id]) && !IsMovingAsteroid(w.entities[id]) ==>
              r.entities[id] == MoveRocket(w.entities[id], trig)
    ensures forall id :: id in w.entities && IsFlyingRocket(w.entities[id]) && !IsMovingAsteroid(w.entities[id]) ==>
              (w.entities[id].player.None? ==> (id in r.entities <==> InScreen(MoveRocket(w.entities[id], trig).position.value.pos)))
    ensures forall id :: id in w.entities && IsMovingAsteroid(w.entities[id]) && w.entities[id].rocket.None? ==>
              (w.entities[id].player.None? ==> id in r.entities && r.entities[id] == MoveAsteroid(w.entities[id], trig))
    ensures !Godmode(w) ==> forall id :: id in Players(w) && id !in Rockets(w) ==>
              (id !in r.entities <==> exists aid :: Hits(AsteroidMover(w, trig), id, aid))
  {
    var moved := AsteroidMover(w, trig);
    var dead := AsteroidCollider(moved);
    var flown := RocketMover(moved, trig);
    DispatchRoles(w, moved, flown.world);
    var r := Maintain(flown.world, dead + flown.deleted);
    RolesAfterMaintain(flown.world, dead + flown.deleted, r);
    r
  }

  /** Deleting some handles keeps the roles of the rest and shrinks every population to the survivors. */
  lemma RolesAfterMaintain(w: World, deleted: set<Id>, r: World)
    requires r.entities.Keys == w.entities.Keys - deleted
    requires forall id :: id in r.entities ==> r.entities[id] == w.entities[id]
    ensures Players(r) == Players(w) - deleted && Rockets(r) == Rockets(w) - deleted
  {
  }

  /** A player standing still on a standing asteroid: the asteroid survives the dispatch, the player dies unless invulnerable. */
  lemma DispatchScenario(vulnerable: bool)
    ensures var r := Dispatch(OverlapWorld(vulnerable), (speed: real, rot: real) => Displacement(0, 0));
            && 1 in r.entities
            && (0 in r.entities <==> !vulnerable)
  {
    var w := OverlapWorld(vulnerable);
    var trig := (speed: real, rot: real) => Displacement(0, 0);
    var moved := AsteroidMover(w, trig);
    assert IsMovingAsteroid(w.entities[1]);
    assert moved.entities[1].position.value.pos == Point(100, 100);
    if vulnerable {
      assert !Godmode(w);
      assert 0 in Players(w) && 0 !in Rockets(w);
      assert Hits(moved, 0, 1);
    } else {
      assert Godmode(w) by {
        assert 0 in w.entities && !w.entities[0].player.value.canTakeDamage;
      }
      assert 0 in Players(w) && 0 !in Rockets(w);
    }
  }

  /** The movers change positions and sprites only, so roles and godmode survive them. */
  lemma DispatchRoles(w: World, moved: World, flown: World)
    requires moved.entities.Keys == w.entities.Keys && flown.entities.Keys == w.entities.Keys
    requires forall id :: id in w.entities ==>
               moved.entities[id].(position := w.entities[id].position, renderable := w.entities[id].renderable) == w.entities[id]
    requires forall id :: id in w.entities ==>
               flown.entities[id].(position := moved.entities[id].position, renderable := moved.entities[id].renderable) == moved.entities[id]
    ensures forall id :: id in w.entities ==> SameRoles(flown.entities[id], w.entities[id])
    ensures forall id :: id in w.entities ==> moved.entities[id].player == w.entities[id].player
    ensures Players(moved) == Players(w) && Rockets(moved) == Rockets(w)
    ensures Players(flown) == Players(w) && Rockets(flown) == Rockets(w)
    ensures Godmode(w) <==> Godmode(moved)
  {
    forall id | id in w.entities
      ensures moved.entities[id].player == w.entities[id].player
      ensures SameRoles(flown.entities[id], w.entities[id])
    {
      assert moved.entities[id].player == moved.entities[id].(position := w.entities[id].position, renderable := w.entities[id].renderable).player;
      assert flown.entities[id].player == flown.entities[id].(position := moved.entities[id].position, renderable := moved.entities[id].renderable).player;
    }
    RolesKept(w, moved);
    RolesKept(w, flown);
    if Godmode(w) {
      var id :| id in w.entities && w.entities[id].player.Some? && !w.entities[id].player.value.canTakeDamage;
      assert moved.entities[id].player == w.entities[id].player;
    }
    if Godmode(moved) {
      var id :| id in moved.entities && moved.entities[id].player.Some? && !moved.entities[id].player.value.canTakeDamage;
      assert moved.entities[id].player == w.entities[id].player;
    }
  }
}
