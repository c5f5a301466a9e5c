/**
 * The component records of the asteroids game (src/components.rs), the entity
 * as a record of optional components, and the world as a finite map from
 * entity handle to entity.
 *
 * Unsigned 32-bit fields are `nat`; signed 32-bit fields and screen
 * coordinates are `int`; floating-point angles and speeds are `real`.
 */
module Components {
  import opened Options

  /** Playfield size in pixels (src/main.rs:24-25). */
  const ScreenWidth: int := 800
  const ScreenHeight: int := 600

  /** On the playfield or on its border. */
  predicate InScreen(p: Point) {
    0 <= p.x <= ScreenWidth && 0 <= p.y <= ScreenHeight
  }

  function Sq(n: int): nat {
    n * n
  }

  datatype Direction = Up | Down | Left | Right

  /** An SDL point: integer screen coordinates. */
  datatype Point = Point(x: int, y: int)

  /** A point plus a rotation in degrees. */
  datatype Position = Position(pos: Point, rot: real)

  /** A frame of a horizontal sprite strip, its on-screen size and its display rotation. */
  datatype Renderable = Renderable(
    textureName: string,
    inputWidth: nat,
    inputHeight: nat,
    outputWidth: nat,
    outputHeight: nat,
    frame: nat,
    totalFrames: nat,
    renderRotation: real)

  datatype Player = Player(speed: int, direction: Direction, canTakeDamage: bool)

  datatype Asteroid = Asteroid(speed: real, rotationSpeed: real, sizeMultiplier: nat)

  datatype Rocket = Rocket(speed: real)

  /**
   * Broad-phase grid cell. Its declaration is not part of this model; the
   * game only copies the two coordinates around, so they are opaque integers.
   */
  datatype Collider = Collider(gridX: int, gridY: int)

  datatype GameData = GameData(score: nat, level: nat)

  /** An entity is the set of components attached to it; the presence of a component is its type. */
  datatype Entity = Entity(
    position: Option<Position>,
    renderable: Option<Renderable>,
    player: Option<Player>,
    asteroid: Option<Asteroid>,
    rocket: Option<Rocket>,
    collider: Option<Collider>,
    gameData: Option<GameData>)

  /** An entity with no components, the start of every builder chain. */
  const Bare := Entity(None, None, None, None, None, None, None)

  type Id = nat

  /**
   * The entity store. Handles are issued in increasing order and never
   * reused: creation order stands in for the store's generational indices.
   */
  datatype World = World(entities: map<Id, Entity>, nextId: Id) {

    /** Every live handle was issued by the allocator. */
    predicate Valid() {
      forall id :: id in entities ==> id < nextId
    }
  }

  /**
   * The displacement an angle-driven mover applies in one tick:
   * `dx` is `speed * sin(rot)` and `dy` is `speed * cos(rot)`, each
   * truncated to an integer.
   */
  datatype Displacement = Displacement(dx: int, dy: int)

  /** The trigonometry of the movers, supplied from outside: (speed, rot in degrees) to displacement. */
  type Trig = (real, real) -> Displacement
}
