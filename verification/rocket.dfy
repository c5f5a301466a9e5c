/**
 * `RocketMover` of src/rocket.rs: each rocket flies along its heading,
 * leaves the world once it is off screen, and its sprite turns to the
 * heading.
 */
module RocketSystems {
  import opened Options
  import opened Components
  import opened Ecs

  /** The entities `RocketMover` joins over. */
  predicate IsFlyingRocket(e: Entity) {
    e.position.Some? && e.renderable.Some? && e.rocket.Some?
  }

  /** The four strict bounds tests of the mover. */
  predicate OffScreen(p: Point) {
    p.x > ScreenWidth || p.x < 0 || p.y > ScreenHeight || p.y < 0
  }

  /** One rocket's step: move by the displacement of its speed and heading, point the sprite along the heading. */
  function MoveRocket(e: Entity, trig: Trig): (r: Entity)
    requires IsFlyingRocket(e)
    ensures IsFlyingRocket(r)
    ensures r.(position := e.position, renderable := e.renderable) == e
    ensures r.position.value.rot == e.position.value.rot
    ensures r.renderable.value == e.renderable.value.(renderRotation := e.position.value.rot)
    ensures var d := trig(e.rocket.value.speed, e.position.value.rot);
            r.position.value.pos == Point(e.position.value.pos.x + d.dx, e.position.value.pos.y - d.dy)
  {
    var pos := e.position.value;
    var d := trig(e.rocket.value.speed, pos.rot);
    var moved := Position(Point(pos.pos.x + d.dx, pos.pos.y - d.dy), pos.rot);
    e.(position := Some(moved),
       renderable := Some(e.renderable.value.(renderRotation := moved.rot)))
  }

  /** A rocket after `n` steps of the mover. */
  function Fly(e: Entity, trig: Trig, n: nat): (r: Entity)
    requires IsFlyingRocket(e)
    ensures IsFlyingRocket(r)
  {
    if n == 0 then e else MoveRocket(Fly(e, trig, n - 1), trig)
  }

  /**
   * The mover never turns a rocket or changes its speed, so a rocket flies
   * a straight line: after `n` steps it has moved by exactly `n` times its
   * first displacement, and its sprite points along its heading.
   */
  lemma {:induction false} FliesStraight(e: Entity, trig: Trig, n: nat)
    requires IsFlyingRocket(e)
    ensures var d := trig(e.rocket.value.speed, e.position.value.rot);
            var r := Fly(e, trig, n);
            && r.position.value.pos == Point(e.position.value.pos.x + n * d.dx, e.position.value.pos.y - n * d.dy)
            && r.position.value.rot == e.position.value.rot
            && r.rocket == e.rocket
            && (n > 0 ==> r.renderable.value.renderRotation == e.position.value.rot)
  {
    if n > 0 {
      FliesStraight(e, trig, n - 1);
      var d := trig(e.rocket.value.speed, e.position.value.rot);
      var p := Fly(e, trig, n - 1).position.value.pos;
      assert p.x + d.dx == e.position.value.pos.x + n * d.dx;
      assert p.y - d.dy == e.position.value.pos.y - n * d.dy;
    }
  }

  /** The mover's result: the stepped world and the handles queued for deletion. */
  datatype Moved = Moved(world: World, deleted: set<Id>)

  /**
   * `RocketMover::run`. Every rocket steps (a rocket queued for deletion is
   * still stepped and turned); it is queued exactly when its new point is
   * off the playfield, the border counting as on it. Other entities are
   * neither moved nor deleted.
   */
  function RocketMover(w: World, trig: Trig): (r: Moved)
    requires w.Valid()
    ensures r.world.Valid() && r.world.nextId == w.nextId && r.world.entities.Keys == w.entities.Keys
    ensures forall id :: id in w.entities && !IsFlyingRocket(w.entities[id]) ==> r.world.entities[id] == w.entities[id]
    ensures forall id :: id in w.entities && IsFlyingRocket(w.entities[id]) ==>
              r.world.entities[id] == MoveRocket(w.entities[id], trig)
    ensures forall id :: id in r.deleted <==>
              id in w.entities && IsFlyingRocket(w.entities[id]) && !InScreen(MoveRocket(w.entities[id], trig).position.value.pos)
    ensures r.deleted <= Rockets(w)
  {
    var world := World(map id | id in w.entities ::
                         if IsFlyingRocket(w.entities[id]) then MoveRocket(w.entities[id], trig) else w.entities[id],
                       w.nextId);
    Moved(world, set id | id in world.entities && IsFlyingRocket(w.entities[id]) &&
                          OffScreen(world.entities[id].position.value.pos))
  }

  /** A rocket on the border survives; one pixel past it is deleted. */
  lemma BorderScenario()
    ensures var w := World(map[
                0 := Bare.(position := Some(Position(Point(795, 300), 90.0)),
                           renderable := Some(Renderable("rocket", 17, 61, 40, 61, 0, 1, 0.0)),
                           rocket := Some(Rocket(10.0))),
                1 := Bare.(position := Some(Position(Point(796, 300), 90.0)),
                           renderable := Some(Renderable("rocket", 17, 61, 40, 61, 0, 1, 0.0)),
                           rocket := Some(Rocket(10.0)))], 2);
            RocketMover(w, (speed: real, rot: real) => Displacement(5, 0)).deleted == {1}
  {
    var w := World(map[
                0 := Bare.(position := Some(Position(Point(795, 300), 90.0)),
                           renderable := Some(Renderable("rocket", 17, 61, 40, 61, 0, 1, 0.0)),
                           rocket := Some(Rocket(10.0))),
                1 := Bare.(position := Some(Position(Point(796, 300), 90.0)),
                           renderable := Some(Renderable("rocket", 17, 61, 40, 61, 0, 1, 0.0)),
                           rocket := Some(Rocket(10.0)))], 2);
    var trig := (speed: real, rot: real) => Displacement(5, 0);
    var r := RocketMover(w, trig);
    assert r.world.entities[0].position.value.pos == Point(800, 300);
    assert r.world.entities[1].position.value.pos == Point(801, 300);
  }
}
