/**
 * The two asteroid systems of src/asteroid.rs: `AsteroidMover` (drift,
 * bounce off the screen edges, spin of the sprite) and `AstroidCollider`
 * (an asteroid touching a vulnerable player kills it).
 */
module AsteroidSystems {
  import opened Options
  import opened Components
  import opened Ecs

  /** The entities `AsteroidMover` joins over. */
  predicate IsMovingAsteroid(e: Entity) {
    e.position.Some? && e.renderable.Some? && e.asteroid.Some?
  }

  /** Past a vertical edge, with half the sprite's output width as margin. */
  predicate OffVerticalEdge(p: Point, outputWidth: nat) {
    var half := outputWidth / 2;
    p.x > ScreenWidth - half || p.x < half
  }

  /** Past a horizontal edge, with half the sprite's output height as margin. */
  predicate OffHorizontalEdge(p: Point, outputHeight: nat) {
    var half := outputHeight / 2;
    p.y > ScreenHeight - half || p.y < half
  }

  /** Heading mirrored across a vertical wall: sin changes sign, cos is kept. */
  predicate MirroredAcrossVertical(before: real, after: real) {
    after + before == 360.0
  }

  /** Heading mirrored across a horizontal wall: cos changes sign, sin is kept (180 - rot, up to a full turn). */
  predicate MirroredAcrossHorizontal(before: real, after: real) {
    after + before == 180.0 || after + before == 540.0
  }

  /**
   * The bounce of `AsteroidMover`, applied to the already moved point. The
   * vertical-edge test wins: at most one reflection per tick. Either way a
   * heading in [0, 360] stays in [0, 360].
   */
  function Bounce(p: Point, rot: real, outputWidth: nat, outputHeight: nat): (r: real)
    ensures OffVerticalEdge(p, outputWidth) ==> MirroredAcrossVertical(rot, r)
    ensures !OffVerticalEdge(p, outputWidth) && OffHorizontalEdge(p, outputHeight) ==>
              MirroredAcrossHorizontal(rot, r)
    ensures !OffVerticalEdge(p, outputWidth) && !OffHorizontalEdge(p, outputHeight) ==> r == rot
    ensures 0.0 <= rot <= 360.0 ==> 0.0 <= r <= 360.0
  {
    if OffVerticalEdge(p, outputWidth) then 360.0 - rot
    else if OffHorizontalEdge(p, outputHeight) then
      if rot > 180.0 then 540.0 - rot else 180.0 - rot
    else rot
  }

  /**
   * The sprite spin of `AsteroidMover`: add the speed, then fold back by one
   * turn if past 360 or below 0. The result is the same angle up to a full
   * turn; with a start in [0, 360] and a speed in [0, 360] it is in [0, 360],
   * and 360 itself is kept because the test is strict.
   */
  function Spin(renderRotation: real, speed: real): (r: real)
    ensures r == renderRotation + speed || r == renderRotation + speed - 360.0 || r == renderRotation + speed + 360.0
    ensures 0.0 <= renderRotation + speed <= 360.0 ==> r == renderRotation + speed
    ensures 0.0 <= renderRotation <= 360.0 && 0.0 <= speed <= 360.0 ==> 0.0 <= r <= 360.0
  {
    var turned := renderRotation + speed;
    var folded := if turned > 360.0 then turned - 360.0 else turned;
    if folded < 0.0 then folded + 360.0 else folded
  }

  /** One asteroid's step: move by the displacement of its speed and heading, bounce, spin. */
  function MoveAsteroid(e: Entity, trig: Trig): (r: Entity)
    requires IsMovingAsteroid(e)
    ensures IsMovingAsteroid(r)
    ensures r.(position := e.position, renderable := e.renderable) == e
    ensures r.renderable.value == e.renderable.value.(renderRotation := r.renderable.value.renderRotation)
    ensures var d := trig(e.asteroid.value.speed, e.position.value.rot);
            var moved := Point(e.position.value.pos.x + d.dx, e.position.value.pos.y - d.dy);
            && r.position.value.pos == moved
            && r.position.value.rot == Bounce(moved, e.position.value.rot, e.renderable.value.outputWidth, e.renderable.value.outputHeight)
    ensures r.renderable.value.renderRotation == Spin(e.renderable.value.renderRotation, e.asteroid.value.speed)
  {
    var pos := e.position.value;
    var ren := e.renderable.value;
    var speed := e.asteroid.value.speed;
    var d := trig(speed, pos.rot);
    var moved := Point(pos.pos.x + d.dx, pos.pos.y - d.dy);
    var rot := Bounce(moved, pos.rot, ren.outputWidth, ren.outputHeight);
    e.(position := Some(Position(moved, rot)),
       renderable := Some(ren.(renderRotation := Spin(ren.renderRotation, speed))))
  }

  /** Headings and sprite rotations of all moving asteroids are in [0, 360], and so are their speeds. */
  predicate AnglesInRange(w: World) {
    forall id :: id in w.entities && IsMovingAsteroid(w.entities[id]) ==>
      var e := w.entities[id];
      0.0 <= e.position.value.rot <= 360.0 &&
      0.0 <= e.renderable.value.renderRotation <= 360.0 &&
      0.0 <= e.asteroid.value.speed <= 360.0
  }

  /** `AsteroidMover::run`: every moving asteroid steps; every other entity is left alone. */
  function AsteroidMover(w: World, trig: Trig): (r: World)
    requires w.Valid()
    ensures r.Valid() && r.nextId == w.nextId && r.entities.Keys == w.entities.Keys
    ensures forall id :: id in w.entities && !IsMovingAsteroid(w.entities[id]) ==> r.entities[id] == w.entities[id]
    ensures forall id :: id in w.entities && IsMovingAsteroid(w.entities[id]) ==> r.entities[id] == MoveAsteroid(w.entities[id], trig)
    ensures forall id :: id in w.entities ==>
              r.entities[id].(position := w.entities[id].position, renderable := w.entities[id].renderable) == w.entities[id]
    ensures forall id :: id in w.entities ==>
              (IsMovingAsteroid(r.entities[id]) <==> IsMovingAsteroid(w.entities[id]))
    ensures AnglesInRange(w) ==> AnglesInRange(r)
  {
    World(map id | id in w.entities ::
            if IsMovingAsteroid(w.entities[id]) then MoveAsteroid(w.entities[id], trig) else w.entities[id],
          w.nextId)
  }

  /**
   * The kill test with the square root squared away: centres closer than the
   * mean of the two output widths, `sqrt(dx²+dy²) < (aw + pw) / 2`.
   */
  predicate Touching(player: Point, playerWidth: nat, asteroid: Point, asteroidWidth: nat) {
    4 * (Sq(player.x - asteroid.x) + Sq(player.y - asteroid.y)) < (asteroidWidth + playerWidth) * (asteroidWidth + playerWidth)
  }

  /** For any non-negative square root `d` of the squared distance, the source's test `d < (aw + pw) / 2` is `Touching`. */
  lemma TouchingIsDistanceTest(player: Point, playerWidth: nat, asteroid: Point, asteroidWidth: nat, d: real)
    requires 0.0 <= d && d * d == (Sq(player.x - asteroid.x) + Sq(player.y - asteroid.y)) as real
    ensures d < (asteroidWidth + playerWidth) as real / 2.0 <==> Touching(player, playerWidth, asteroid, asteroidWidth)
  {
    var h := (asteroidWidth + playerWidth) as real / 2.0;
    var s := Sq(player.x - asteroid.x) + Sq(player.y - asteroid.y);
    assert ((asteroidWidth + playerWidth) * (asteroidWidth + playerWidth)) as real == 4.0 * h * h;
    SquareLess(d, h);
    assert (4 * s) as real == 4.0 * (d * d);
  }

  /** On non-negative reals, comparing two numbers is comparing their squares. */
  lemma SquareLess(a: real, b: real)
    requires 0.0 <= a && 0.0 <= b
    ensures a < b <==> a * a < b * b
  {
    if a < b {
      SquareGrows(a, b);
    } else if b < a {
      SquareGrows(b, a);
    }
  }

  lemma SquareGrows(a: real, b: real)
    requires 0.0 <= a < b
    ensures a * a < b * b
  {
    var d := b - a;
    assert b * b == a * a + 2.0 * a * d + d * d;
    assert d * d > 0.0;
    assert a * d >= 0.0;
  }

  /** The entities the collider treats as players. */
  predicate IsTarget(e: Entity) {
    e.position.Some? && e.renderable.Some? && e.player.Some?
  }

  /** Some player in the world has damage switched off. */
  predicate Godmode(w: World) {
    exists id :: id in w.entities && w.entities[id].player.Some? && !w.entities[id].player.value.canTakeDamage
  }

  /** Player `pid` and asteroid `aid` touch. */
  predicate Hits(w: World, pid: Id, aid: Id) {
    && pid in w.entities && IsTarget(w.entities[pid])
    && aid in w.entities && IsMovingAsteroid(w.entities[aid])
    && Touching(w.entities[pid].position.value.pos, w.entities[pid].renderable.value.outputWidth,
                w.entities[aid].position.value.pos, w.entities[aid].renderable.value.outputWidth)
  }

  /**
   * `AstroidCollider::run`, as the set of handles it deletes. One
   * invulnerable player switches the whole system off; otherwise a player is
   * deleted exactly when some asteroid touches it. Only players are deleted.
   */
  function AsteroidCollider(w: World): (dead: set<Id>)
    ensures dead <= Players(w)
    ensures Godmode(w) ==> dead == {}
    ensures !Godmode(w) ==> forall pid :: pid in dead <==> exists aid :: Hits(w, pid, aid)
  {
    if Godmode(w) then {}
    else set pid | pid in w.entities && IsTarget(w.entities[pid]) && exists aid :: aid in w.entities && Hits(w, pid, aid)
  }

  /** A standing player on top of a size-2 asteroid, both at (100, 100); `vulnerable` is the player's damage switch. */
  function OverlapWorld(vulnerable: bool): World {
    World(map[
      0 := Bare.(position := Some(Position(Point(100, 100), 0.0)),
                 renderable := Some(Renderable("marco", 32, 42, 32, 42, 1, 9, 0.0)),
                 player := Some(Player(0, Right, vulnerable))),
      1 := Bare.(position := Some(Position(Point(100, 100), 0.0)),
                 renderable := Some(Renderable("enemy", 33, 45, 66, 90, 1, 12, 0.0)),
                 asteroid := Some(Asteroid(4.0, 0.5, 2)))], 2)
  }

  /** An invulnerable player sitting on top of an asteroid survives the collider. */
  lemma GodmodeScenario()
    ensures AsteroidCollider(OverlapWorld(false)) == {}
  {
    var w := OverlapWorld(false);
    assert Godmode(w) by {
      assert 0 in w.entities && !w.entities[0].player.value.canTakeDamage;
    }
  }

  /** Without godmode the same overlap kills the player, and only the player. */
  lemma VulnerableScenario()
    ensures AsteroidCollider(OverlapWorld(true)) == {0}
  {
    var w := OverlapWorld(true);
    assert !Godmode(w);
    assert Hits(w, 0, 1);
  }
}
