# Asteroids game logic in Dafny

A model of the game logic of a small asteroids clone written in Rust on SDL2
and the `specs` entity-component system. What is modelled:

- the world as a finite map from entity handle to a record of optional
  components (`Components`), and the entity store's services: fresh handles,
  join order, deferred deletion, component populations (`Ecs`);
- the key-state table (`Utils`);
- the player mover, the sprite-strip arithmetic of the renderer, and one
  dispatch of the three systems followed by `maintain` (`MainLoop`);
- the asteroid mover (drift, bounce, sprite spin) and the asteroid-player
  collider with its godmode switch (`AsteroidSystems`);
- the rocket mover with its off-screen deletion (`RocketSystems`);
- the per-tick game rules of `game::update`: reload when no player is left,
  level-up and wave size when no asteroid is left, the V burst, the safe-spawn
  filter, the movement/godmode/fire controls, and the five-rocket cap; and the
  entity builders `load_world`, `create_asteroid`, `fire_rocket` (`Game`).

Everything that comes from outside the game logic is a parameter:
trigonometry is a function `Trig` from (speed, heading) to the truncated
integer displacement; the random generator is a finite sequence of spawn
candidates, each within the generator's ranges; the grid constants
`X_GRID_COUNT`/`Y_GRID_COUNT` are a `GridCounts` value. In the model, handles
are issued in creation order and a join visits entities in increasing handle
order, so a loop that overwrites a variable on every match keeps the value of
the entity with the greatest handle (`Ecs.LastWhereIsGreatest`); how this
differs from `specs` is under "Left out". Deletions requested by a system are returned as a
set and applied by `Ecs.Maintain`.

Unsigned 32-bit fields are `nat`, signed ones and screen coordinates `int`
(unbounded), `f64` angles and speeds `real`. `Direction` is a closed four-variant datatype.

Behaviours of the code a reader might not expect, all modelled as written:

- `handle_key` inserts `true` for a key it has not seen before, so releasing
  an unknown key marks it held (`Utils.KeyUp`).
- The asteroid sprite rotation keeps exactly 360 (the fold-back test is
  strict), so its range is [0, 360], not [0, 360).
- The player position used by the spawn filter is captured before the world
  is reloaded; after a reload it is (0, 0), not the new player's position.
- The guard `!create_asteroids_pressed` in the level step is always true at
  that point, so the level step depends on the asteroid count alone.

## Model

| member | source | states |
|---|---|---|
| Utils.IsKeyPressed | src/utils.rs:11-14 | a key reads as pressed exactly when it is in the table with value true |
| Utils.HandleKey | src/utils.rs:16-24 | the domain grows by at most the named key; an unseen key is inserted as held whatever the requested state, a known key takes the state; every other entry is unchanged |
| Utils.KeyDown | src/utils.rs:3-5 | after a press the key reads as pressed whether or not it was known; other entries unchanged, no key removed |
| Utils.KeyUp | src/utils.rs:7-9 | releasing a known key makes it read as released; releasing an unknown key makes it read as held; other entries unchanged, no key removed |
| Utils.KeyUpIdempotent | src/utils.rs:16-24 | releasing a known key twice gives the same table as releasing it once; an unknown key released twice reads as released |
| Utils.PressThenRelease | src/utils.rs:3-9 | a press followed by a release leaves the key in the table as released, known before or not |
| Ecs.JoinOrder | src/game.rs:23-26 | a join visits every live handle exactly once, in strictly increasing order |
| Ecs.LastWhereIsGreatest | src/game.rs:23-26 | the last match of an ascending handle sequence is the greatest matching handle; there is none exactly when no handle matches |
| Ecs.GreatestInJoin | src/game.rs:44-47 | over a world's join, the last match is the live matching entity with the greatest handle, or there is no matching live entity |
| Ecs.Create | src/game.rs:161-185 | building an entity adds it under a handle greater than every live handle and changes no other entity |
| Ecs.Cleared | src/game.rs:33 | deleting all entities leaves an empty store whose allocator stays above every old handle |
| Ecs.Maintain | src/main.rs:220 | the deferred deletions take effect: exactly the requested live handles disappear, the others keep their entities |
| MainLoop.WrapAxis | src/main.rs:106-117 | the strict wrap rule: a coordinate above the size loses one size, one below 0 gains one size, one in [0, size], borders included, is unchanged; a coordinate within one screen of the playfield lands in [0, size] |
| MainLoop.MovePlayer | src/main.rs:91-117 | the new point is exactly the velocity-offset point with each axis wrapped by `WrapAxis`; an on-screen start with speed in [0, 600] stays on screen; speed 0 on screen changes nothing; the heading is never changed |
| MainLoop.EdgeKeptScenario | src/main.rs:106-117 | walking right onto x = 800 stops on the border; leaving the top at y = 0 moving up reappears at y = 595 |
| MainLoop.WrapRightScenario | src/main.rs:96-108 | (799, 300) moving right at speed 5 reappears at (4, 300), then moves on to (9, 300) |
| MainLoop.WrapIdempotent | src/main.rs:106-117 | a wrapped position is a fixed point of a standstill move |
| MainLoop.UpdatePlayers | src/main.rs:86-118 | every entity with a player and a position takes exactly the `MovePlayer` step (offset by its velocity, then wrapped); nothing else changes; headings are kept and on-screen players stay on screen |
| MainLoop.SourceRect | src/main.rs:46-51 | the source rectangle is frame `frame` of the strip, at x = input width times frame, y = 0, of the input size; that successive frames tile the strip is `SourceRectsTileStrip` |
| MainLoop.SourceRectsTileStrip | src/main.rs:46-51 | successive frames sit side by side, and every frame below the frame count lies inside the strip |
| MainLoop.NextFrame | src/main.rs:61 | a strip with zero frames panics (None); otherwise the next frame is below the frame count, the successor when there is room, 0 after the last frame |
| MainLoop.FrameAfterIsModular | src/main.rs:61 | n draws move a valid frame to (frame + n) mod frame count |
| MainLoop.FramesCycle | src/main.rs:61 | as many draws as there are frames return the strip to the frame it started on |
| MainLoop.AdvanceFrames | src/main.rs:39-62 | one render panics exactly when some drawn entity has an empty strip; otherwise every drawn entity's frame moves one step round its strip and nothing else changes |
| MainLoop.Dispatch | src/main.rs:171-175 | one dispatch plus maintain deletes only players and rockets, never adds an entity or changes roles; with godmode no player that is not also a rocket dies, and without it such a player dies exactly when some moved asteroid touches it; every asteroid takes exactly its `MoveAsteroid` step and survives; a rocket dies exactly when its moved point is off the playfield, and a surviving rocket is exactly its `MoveRocket` step; every surviving entity that is neither a moving asteroid nor a flying rocket (players included) is untouched |
| MainLoop.DispatchScenario | src/main.rs:171-175 | a player standing on an asteroid dies in the dispatch exactly when it is vulnerable; the asteroid survives either way |
| AsteroidSystems.Bounce | src/asteroid.rs:22-37 | past a vertical edge the heading is mirrored (rot + r = 360); otherwise past a horizontal edge it is mirrored across the horizontal (sum 180 or 540); otherwise unchanged; [0, 360] is preserved |
| AsteroidSystems.Spin | src/asteroid.rs:39-45 | the sprite rotation advances by the speed and folds back by at most one turn; a start and speed in [0, 360] give a result in [0, 360], 360 kept |
| AsteroidSystems.MoveAsteroid | src/asteroid.rs:17-45 | an asteroid moves by its displacement (x plus dx, y minus dy), its heading is the `Bounce` of the old heading at the moved point, its sprite rotation is the `Spin` by its speed; nothing else changes |
| AsteroidSystems.AsteroidMover | src/asteroid.rs:15-47 | every moving asteroid takes exactly its `MoveAsteroid` step; every other entity is unchanged; no entity is added or removed; headings, sprite rotations and speeds in [0, 360] stay in range |
| AsteroidSystems.TouchingIsDistanceTest | src/asteroid.rs:72-76 | for the real square root of the squared distance, the test distance < (aw + pw) / 2 is the integer test 4(dx² + dy²) < (aw + pw)² |
| AsteroidSystems.AsteroidCollider | src/asteroid.rs:60-82 | only players are deleted; one invulnerable player means nothing is deleted; otherwise a player is deleted exactly when some asteroid touches it |
| AsteroidSystems.GodmodeScenario | src/asteroid.rs:63-67 | an invulnerable player on top of an asteroid survives |
| AsteroidSystems.VulnerableScenario | src/asteroid.rs:68-80 | the same overlap without godmode deletes the player and only the player |
| RocketSystems.MoveRocket | src/rocket.rs:22-36 | a rocket moves by its displacement (x plus dx, y minus dy); its heading is kept and its sprite rotation becomes the heading |
| RocketSystems.RocketMover | src/rocket.rs:16-38 | every rocket moves, including the ones deleted; a rocket is deleted exactly when its moved point is off the playfield, the border counting as on it; other entities are neither moved nor deleted |
| RocketSystems.FliesStraight | src/rocket.rs:22-36 | the mover never turns a rocket or changes its speed, so after n steps a rocket has moved by exactly n times its first displacement, along an unchanged heading, its sprite pointing along it |
| RocketSystems.BorderScenario | src/rocket.rs:29-35 | a rocket landing on x = 800 survives; one landing on x = 801 is deleted |
| Game.PlayerEntity | src/game.rs:161-185 | the loaded player stands at (50, 50) facing 270, speed 0, direction Right, vulnerable, with a sprite and a grid cell, and no other role |
| Game.AsteroidEntity | src/game.rs:227-252 | an asteroid of size m has a 33×45 twelve-frame strip starting at frame 1, drawn at m times that size, speed 4, rotation speed 0.5, and no other role |
| Game.RocketEntity | src/game.rs:210-224 | a rocket has speed 10, a one-frame 17×61 strip drawn 40×61, and no other role |
| Game.LoadWorld | src/game.rs:160-201 | exactly three fresh entities are added, in order: the player, a size-2 asteroid at (200, 400) heading 45, a game record at score 0 level 1; nothing else changes |
| Game.Reload | src/game.rs:32-35 | after delete-all and load, the world holds exactly the three fresh entities: one player, one asteroid, one game record, no rocket |
| Game.FireRocket | src/game.rs:203-225 | below the cap exactly one rocket appears on a fresh handle at the given position; at the cap nothing changes; so the cap is kept and no other population changes |
| Game.TooCloseIsDistanceTest | src/game.rs:69-73 | for the real square root of the squared distance, the rejection test distance < 150 is the integer test dx² + dy² < 150² |
| Game.Spawn | src/game.rs:58-86 | the loop places as many asteroids as asked or as the candidates allow, whichever is fewer, on fresh consecutive handles; each lies in the spawn ranges at least 150 from the captured position; nothing else changes |
| Game.AcceptedCount | src/game.rs:69-74 | the list of accepted candidates is as long as the count `Spawn` uses, and holds only drawn candidates at least 150 from the position |
| Game.SpawnPlacesAccepted | src/game.rs:58-86 | the i-th asteroid the loop adds sits under handle `nextId + i` and is the asteroid built from the i-th accepted candidate (its point, heading, size and grid cell `grid * (coordinate / 100)`) |
| Game.SpawnStep | src/game.rs:53-86 | the spawn runs only when a wave is due or V was held, for the wave plus 20000 on V; the placed asteroids are safe, on fresh handles, and the i-th is built from the i-th accepted candidate |
| Game.StartPositionOfGreatestPlayer | src/game.rs:15-26 | the captured position is that of the positioned player with the greatest handle, or (0, 0) without one |
| Game.LevelUpAll | src/game.rs:43-46 | every game record goes up exactly one level, score kept; nothing else changes |
| Game.WaveSizeOfGreatestRecord | src/game.rs:44-47 | the wave size is (raised level) / 3 + 1 of the game record with the greatest handle, 0 without a record |
| Game.AdvanceLevel | src/game.rs:37-52 | a wave is due exactly when there is no asteroid; then every record levels up and the wave has the wave size; otherwise nothing changes and the wave is empty |
| Game.MoveBindingsPriority | src/game.rs:103-117 | the movement keys are tried in the order D, A, W, S |
| Game.Steer | src/game.rs:103-117 | the held movement key of highest priority sets the direction and speed 5; with none held the speed becomes 0 and the direction stays; damage is untouched |
| Game.ControlOne | src/game.rs:102-138 | one player's turn steers, flips damage once and consumes C when C is held, and on Space consumes it and orders a rocket at the player's point turned 90 degrees in the player's cell, otherwise cancels the order; only the player component and C/Space change |
| Game.ControlAll | src/game.rs:98-139 | the control loop changes only player components of controllable players and the C/Space entries; no key becomes held; once a controllable player took its turn, C and Space read as released |
| Game.ControlAllNone | src/game.rs:102-138 | a loop that meets no controllable player changes nothing |
| Game.ControlAllSingle | src/game.rs:102-138 | with exactly one controllable player, the loop is that player's turn |
| Game.UpdateStages | src/game.rs:12-139 | the spawn keeps the level-step world, adds only safe asteroids on fresh consecutive handles, as many as the wave (plus the V burst) and the candidates allow, the i-th built from the i-th accepted candidate |
| Game.Update | src/game.rs:12-144 | a tick leaves every handle below the allocator's counter; its behaviour is stated by the lemmas below (`UpdateFrame` for what it keeps) |
| Game.StagesRoles | src/game.rs:12-139 | between the reload and the fire step no population loses a member and only asteroids are added |
| Game.FireStep | src/game.rs:141-143 | the fire step adds at most the ordered rocket, on a fresh handle, and keeps every other entity and population |
| Game.UpdateReloadsEmptyWorld | src/game.rs:27-35 | a tick on a world without players removes every old entity and leaves exactly the fresh player at (50, 50) facing 270 and the fresh game record at score 0 level 1 |
| Game.UpdateKeepsRocketCap | src/game.rs:127-143 | a tick never takes the rocket count above 5 |
| Game.UpdatePlayerPopulation | src/game.rs:12-144 | a tick with players keeps exactly those players; a tick starting with at most one player ends with exactly one |
| Game.UpdateKeyConsumption | src/game.rs:53-137 | a tick keeps the key table's domain, makes no key held, touches only V, C and Space, and leaves V released |
| Game.UpdateSinglePlayerControls | src/game.rs:98-143 | with one controllable player, the tick steers it, flips damage on C, releases C and Space, and fires exactly one rocket from its muzzle when Space was held below the cap, none otherwise |
| Game.RequestedCount | src/game.rs:37-57 | the asteroids requested are the wave size when no asteroid is left, plus 20000 when V is held |
| Game.UpdateSpawnsWave | src/game.rs:37-86 | with a player present, the asteroids after a tick are the old ones plus the requested number (as far as the candidates allow) on fresh consecutive handles, each at a safe distance from the captured position; game records level up exactly when no asteroid was left |
| Game.UpdatePlacesAccepted | src/game.rs:58-86 | with a player present, after the whole tick handle `nextId + i` holds the asteroid built from the i-th accepted candidate, for every i below the number spawned |
| Game.UpdateFrame | src/game.rs:12-144 | with a player present, a tick keeps every entity, changing at most its game record and its player component, and the player component only of controllable players; every added handle is fresh |

## Left out

- SDL plumbing: window, canvas, event pump, texture loading, `copy_ex`, `present`, the frame sleep and the main loop itself; key events map to `Utils.KeyDown`/`Utils.KeyUp`.
- The renderer's destination rectangle and the drawing itself; only the source rectangle and the frame advance are modelled. (The destination rectangle is sized from the input, strip-frame, size rather than the output size.)
- `update_player_rotation` (src/game.rs:145-158): aiming by `atan2` of the mouse position is floating-point trigonometry; for the same reason the whole frame (`update_player`, `update`, aiming, dispatch, render) is not composed into one function.
- Trigonometry: `sin`/`cos` and the `as i32` truncation are the `Trig` parameter; their values are not modelled.
- The random generator: its draws are a finite candidate sequence. Game.Spawn: the source retries without bound until it has placed the whole wave; the model places fewer asteroids when the candidates run out.
- Floating-point rounding of the collider's square root and of the spawn filter's square root: the tests are stated with exact arithmetic.
- `u32` wrap-around of the level, score and asteroid counters is not modelled; they are unbounded `nat`.
- `i32` overflow of screen coordinates (`pos.x +=` in the movers, `Point::offset` in `update_player`, which clamps to the `i32` range) is not modelled: coordinates are unbounded `int`, and play keeps them within a few hundred pixels of the screen.
- Ecs.Create / Ecs.JoinOrder: the model issues handles in creation order and never reuses them, so "greatest handle" means "most recently built" and spawned asteroids get consecutive handles. `specs` reuses the index of a deleted entity (with a new generation), so after `delete_all` join order need not be creation order. This matters for which player or game record a join sees last only when there are several of them, which the game never builds.
- The `specs` internals: storages, registration, the dispatcher's scheduling (modelled as running the three systems in registration order) and the entity generations. The registration in src/main.rs:165-169 omits `Collider` and `GameData`; the model assumes every storage exists.
- `Collider`, `X_GRID_COUNT` and `Y_GRID_COUNT` are not part of this model beyond being copied around: the grid cell is two opaque integers and the grid counts are a parameter.
- `println!` output (player died, damage toggled).
- `PendingAsteroid` (src/components.rs:47-51) is never used by the game.
- The source file `texture_manager.rs` is commented out, and `vector2D.rs` is not compiled into the game; neither is part of this model.
- `Asteroid.rotation_speed` is stored but never read: the sprite spin uses `speed`, as the code does.
- Game.UpdateSinglePlayerControls: stated for a world with exactly one controllable player, the only kind the game builds; with several players the model's control loop runs each in turn, but which player's fire order survives is not stated as a lemma.
- Game.UpdateReloadsEmptyWorld: does not state what a held V spawns right after a reload.
- MainLoop.Dispatch: the clauses about rockets and untouched entities exclude entities that carry the roles of several systems at once (a player that is also a rocket, say); the game never builds such entities.
