# Nucleus: the rules of a fission puzzle, in Dafny

Nucleus is a Bevy game. During set-up the player places neutrons on a board
of atoms and gives each one a velocity. The simulation then moves the
neutrons. An atom that a neutron touches splits: it releases one to five new
neutrons, fanned out around the incoming direction, and each split adds
`ENERGY_RELEASED` to the score. The level ends with a letter grade.

This project lifts those rules out of the entity-component system and into
pure functions over one immutable `World` value. The world holds:

- atoms and neutrons as sequences, each entity with an id;
- the `GameStats` and `LevelStats` resources;
- the `PlacementState` and `GameState` machines.

The modules follow the source files:

| module | file | what it holds |
|---|---|---|
| `Wrappers` | `wrappers.dfy` | `Option` |
| `Vectors` | `vectors.dfy` | `Vec2`, squared lengths, unit rotations |
| `Util` | `util.dfy` | `clamp` and `clamp_vec2_by_length` (`src/util.rs`) |
| `Collision` | `collision.dfy` | colliders, the two overlap tests, `CollisionEvent` (`src/collision.rs`) |
| `Neutrons` | `neutron.dfy` | neutron data, motion, the split-trajectory table (`src/neutron.rs`) |
| `Atoms` | `atom.dfy` | atom data and the `atom_collision` pass (`src/atom.rs`) |
| `World` | `world.dfy` | the world value, the constants of `src/main.rs`, whole-board motion |
| `Listener` | `collision_listener.dfy` | `collision_listener` and one collision step (`src/collision.rs`) |
| `Levels` | `level_manager.dfy` | grading, the level table, `generate_atom_sphere`, `setup_level` (`src/level_manager.rs`) |
| `PlayerControls` | `player_controls.dfy` | placing, aiming and removing neutrons, and starting the game (`src/player_controls.rs`) |

Numbers are Dafny `real`s. The model never takes a square root. Each test
of the form `|v| < r` is stated on squares instead. Where the source
normalises a vector or uses its length, the model takes that length `len`
as an argument together with `IsLength(len, v)`, which says `len >= 0` and
`len² = |v|²`; this fixes `len` uniquely. The split angles are symbolic
rotations `(cos, sin)`. The only irrational values they need are √2/2 and
√3/2, which are carried in a `Trig` record. `ValidTrig` admits exactly the
true values of that record.

The atoms of a frame run in parallel in the source, and their despawns are
deferred commands, so every atom scans the same set of neutrons. The model
scans the atoms in order against one snapshot and applies the removals
afterwards. Two atoms can therefore claim the same neutron: a neutron
claimed by two atoms yields two events and one removal.

## Model

| member | source | states |
|---|---|---|
| Util.Clamp | src/util.rs:4-17 | the result lies in `[min, max]`; it is `min` at or below `min`, `max` at or above `max`, and the input itself strictly between |
| Util.ClampIsNearest | src/util.rs:8-16 | no point of `[min, max]` is closer to the input than the clamped value |
| Util.ClampIdempotent | src/util.rs:8-16 | clamping an already clamped value changes nothing |
| Util.ClampMonotone | src/util.rs:8-16 | clamping preserves the order of two inputs |
| Util.ClampVecByLength | src/util.rs:19-29 | a vector whose length is already in range comes back unchanged; the result is undefined (NaN in the source) exactly for a zero length that the clamp moves |
| Util.ClampVecUndefinedIffZero | src/util.rs:21-25 | normalising fails exactly for the zero vector when the range excludes zero |
| Util.ClampVecLength | src/util.rs:21-28 | with `min >= 0`, the result's length is the input's length clamped to `[min, max]` |
| Util.ClampVecKeepsDirection | src/util.rs:24-26 | for a nonzero input and `min > 0`, the result is a positive multiple of the input |
| Collision.CollidingMatchesDistance | src/collision.rs:50-52 | the squared-distance test agrees with the source's `distance < r1 + r2` whenever the distance is known |
| Collision.CordsMatchDistance | src/collision.rs:54-56 | the squared point test agrees with `distance < radius` |
| Collision.CollidingSymmetric | src/collision.rs:50-52 | the overlap test does not depend on the order of its two pairs |
| Collision.CollidingMonotone | src/collision.rs:51 | an overlap survives growing the second collider |
| Collision.TouchingDoesNotCollide | src/collision.rs:51 | circles whose centres are exactly `r1 + r2` apart do not collide |
| Collision.SamePositionCollides | src/collision.rs:51 | two colliders at one position collide exactly when their radii have a positive sum |
| Collision.CordsAsZeroRadiusCollision | src/collision.rs:50-56 | a point lies in a collider exactly when a zero-radius collider at the point overlaps it |
| Collision.RimIsOutside | src/collision.rs:55 | a point on the rim is not inside, since the test is strict |
| Neutrons.SpawnNeutron | src/neutron.rs:31-51 | the new neutron has the given position and velocity, a collider of radius `NEUTRON_SIZE * 0.75` and no marker |
| Neutrons.SpawnMarkedNeutron | src/neutron.rs:53-91 | the new neutron rests at the given position with radius `NEUTRON_SIZE * 0.75` and carries the `PlacementMarker` |
| Neutrons.Move | src/neutron.rs:21-29 | only the position changes, by `velocity * dt * simulation_speed` |
| Neutrons.MoveAdditive | src/neutron.rs:26-28 | two frames of motion equal one frame of the summed duration |
| Neutrons.RestingNeutronStays | src/neutron.rs:26-28 | a neutron with zero velocity does not move |
| Neutrons.FromAngleIsUnit | src/neutron.rs:100-147 | every angle of the table gives a unit rotation |
| Neutrons.MirrorConjugates | src/neutron.rs:100-147 | the angle `360° - a` has the cosine of `a` and the opposite sine |
| Neutrons.SplitAngles | src/neutron.rs:96-151 | only yields 2 to 5 have an angle list; it has one angle per output and is mirror-symmetric about its middle |
| Neutrons.SplitTrajectories | src/neutron.rs:93-155 | the result is present exactly for yields 1 to 5 and then holds that many vectors; a yield of 1 gives exactly the incoming velocity |
| Neutrons.SplitPreservesSpeed | src/neutron.rs:100-147 | every split neutron is as fast as the neutron that caused the split |
| Neutrons.SplitMatchesNormalizedForm | src/neutron.rs:94-147 | for a moving neutron each output equals the source's `rotation.rotate(v.normalize()) * v.length()` |
| Neutrons.SplitCentreIsInput | src/neutron.rs:109-147 | the middle output of a yield of 3, and of 5, is the incoming velocity |
| Neutrons.SplitIsSymmetric | src/neutron.rs:100-147 | outputs `i` and `n - 1 - i` use rotations with equal cosine and opposite sine |
| Atoms.SpawnAtom | src/atom.rs:12-29 | the atom has the given position and yield and a collider of radius `ATOM_SIZE * 0.75` |
| Atoms.FirstHit | src/atom.rs:36-43 | an atom claims the first overlapping neutron in query order, and claims nothing exactly when no neutron overlaps it |
| Atoms.CollisionPass | src/atom.rs:31-64 | the atoms that survive are exactly those no neutron overlaps; the claimed ids are exactly the first hits of some atom; each atom either survives or sends one event |
| Atoms.EventsInAtomOrder | src/atom.rs:36-58 | the event of each colliding atom, carrying its position, its yield and its first neutron's velocity, sits at the position given by the number of colliding atoms before it; with the event count this fixes the event list |
| Atoms.EventsFromCollidingAtoms | src/atom.rs:36-58 | every event is the event of some colliding atom |
| Atoms.EventsCountCollidingAtoms | src/atom.rs:31-64 | there is one event per colliding atom, and the other atoms survive |
| Atoms.NeutronRemovedIffClaimed | src/atom.rs:36-47 | with distinct ids, a neutron is removed exactly when it is some atom's first hit |
| Atoms.UntouchedNeutronSurvives | src/atom.rs:36-47 | a neutron that overlaps no atom is left in place |
| Atoms.TwoAtomsCanClaimOneNeutron | src/atom.rs:31-64 | two atoms sharing one neutron make two events but only one removal |
| World.MoveNeutrons | src/neutron.rs:21-29 | every neutron moves by its own velocity; nothing else in the world changes |
| World.MoveNeutronsKeepsIds | src/neutron.rs:21-29 | motion keeps entity ids fresh and distinct |
| World.MoveNeutronsAdditive | src/neutron.rs:26-28 | two frames of board motion equal one frame of the summed duration |
| Listener.Offspring | src/collision.rs:40-44 | an event spawns as many neutrons as its yield when that is 1 to 5, otherwise none; they sit at the atom and take the split vectors in list order |
| Listener.ResolveEvent | src/collision.rs:32-47 | one event appends its offspring and adds `ENERGY_RELEASED` to the score once; the rest of the stats and of the world is unchanged |
| Listener.CollisionListener | src/collision.rs:25-48 | after `k` events the score has grown by `k * ENERGY_RELEASED` and the other stats are unchanged; the new neutrons are the old ones followed by each event's offspring, in event order, with fresh ids |
| Listener.ListenerSpawnsFirstEvent | src/collision.rs:40-44 | the first event's neutrons follow the old ones, at its atom, on its split paths |
| Listener.ListenerKeepsIds | src/collision.rs:40-44 | newborn neutrons keep entity ids fresh and distinct |
| Listener.CollisionStep | src/main.rs:97 | a collision pass followed by its events scores one `ENERGY_RELEASED` per colliding atom, keeps exactly the atoms no neutron overlaps, and leaves the unclaimed neutrons followed by the offspring of every event; placement, level stats and game state are unchanged |
| Listener.CollisionStepKeepsIds | src/main.rs:97 | a collision step keeps entity ids fresh and distinct |
| Levels.Letter | src/level_manager.rs:36 | letter `i` of `["S", "A", "B", "C", "D"]` has rank `i` |
| Levels.ThresholdFactors | src/level_manager.rs:39 | the thresholds are `s_score` times 1, 5/6, 3/4, 7/10 and 2/3 |
| Levels.GradeFrom | src/level_manager.rs:38-44 | the loop returns the first letter from `i` on whose threshold the score reaches, or "F" |
| Levels.CalculateGrade | src/level_manager.rs:35-45 | every earlier letter is missed and the returned letter, unless "F", is earned |
| Levels.FullScoreEarnsS | src/level_manager.rs:38-40 | a score of at least `s_score` earns an S |
| Levels.GradeMonotone | src/level_manager.rs:38-44 | a higher score never earns a later letter |
| Levels.ZeroScoreFails | src/level_manager.rs:39-44 | with `s_score > 1.5 * EPSILON`, a zero score is an F |
| Levels.Steps | src/level_manager.rs:101 | every value of the stepped range lies in `[from, r)` |
| Levels.StepsMembers | src/level_manager.rs:101 | a value is in the stepped range exactly when it lies in `[from, r)` a whole number of steps from `from` |
| Levels.Column | src/level_manager.rs:102-108 | one column holds exactly the points of its `y` range inside the disc |
| Levels.Sphere | src/level_manager.rs:101-109 | the nested loops hold exactly the points of the two ranges inside the disc |
| Levels.AtomSphereHasGridPoint | src/level_manager.rs:98-112 | every grid point of `[-r, r)²` inside the closed disc is produced |
| Levels.AtomSphereOnlyGridPoints | src/level_manager.rs:98-112 | only such grid points are produced |
| Levels.AtomSpherePoints | src/level_manager.rs:98-112 | a point is produced exactly when both coordinates are of the form `-r + k*d` below `r` and `x² + y² <= r²` |
| Levels.AtomSphereYield | src/level_manager.rs:107 | every entry carries the requested yield |
| Levels.GenerateColumn | src/level_manager.rs:102-108 | the inner loop builds exactly the column |
| Levels.GenerateAtomSphere | src/level_manager.rs:98-112 | the nested loops build exactly the sphere described above |
| Levels.GetLevel | src/level_manager.rs:47-96 | a level exists exactly for 0 to 4, and each grants one placeable neutron |
| Levels.LevelTable | src/level_manager.rs:47-93 | the levels have 3, 6, 14 and 18 hand-placed atoms with S targets of 3, 6, 14 and 17 energies; level 4 is the disc of radius 8000, spacing 75 and yield 2, with a target of 35000 energies |
| Levels.SpawnLevelAtoms | src/level_manager.rs:26-28 | one atom per entry, with that entry's position and yield |
| Levels.SetupLevel | src/level_manager.rs:18-33 | an unknown level changes nothing; a known one adds its atoms, installs its stats and resets the score to 0, leaving the neutrons and states alone |
| Levels.SetupLevelKeepsIds | src/level_manager.rs:25-32 | loading a level keeps entity ids fresh |
| PlayerControls.MarkedIndex | src/player_controls.rs:116 | the neutron `single_mut` takes is a marked one, and the first |
| PlayerControls.CursorOverAtomIffSomeAtom | src/player_controls.rs:102-109 | the scan finds an atom exactly when some atom overlaps a radius-`NEUTRON_SIZE` circle at the cursor |
| PlayerControls.LeftClick | src/player_controls.rs:78-132 | nothing happens without placeable neutrons; in NEUTRON a click over an atom changes nothing, and any other click adds one resting marked neutron at the cursor and moves to VELOCITY with the counter unchanged; in VELOCITY the marked neutron loses its marker and keeps its position, the counter drops by one, the state returns to NEUTRON, other aimed neutrons are untouched, an in-range aim becomes the velocity, and atoms, ids, stats and game state are unchanged |
| PlayerControls.CommitVelocityIsClampedAim | src/player_controls.rs:116-122 | for a nonzero aim, the new velocity points along the aim and has the aim's length clamped to `[0.1, 1500]` |
| PlayerControls.FirstContaining | src/player_controls.rs:154-158 | the hit neutron is the first, in query order, whose collider strictly contains the cursor, and none is hit exactly when no collider contains it |
| PlayerControls.RemoveNeutronAsWritten | src/player_controls.rs:134-171 | a miss changes nothing; a hit despawns exactly that neutron, refunds one neutron in NEUTRON, and otherwise forces NEUTRON without a refund; atoms, ids, stats, S target and game state are unchanged |
| PlayerControls.RemoveNeutron | src/player_controls.rs:159-165 | the corrected removal: removing the marked neutron cancels the placement with no refund; removing an aimed one refunds it and keeps the state; atoms, ids, stats, S target and game state are unchanged |
| PlayerControls.SetupStartsInvariant | src/level_manager.rs:30 | a freshly loaded level satisfies the placement invariant |
| PlayerControls.InvariantGivesSingleMarker | src/player_controls.rs:116 | under the invariant a commit click finds the one marker `single_mut` needs |
| PlayerControls.LeftClickKeepsInvariant | src/player_controls.rs:91-122 | left clicks keep the counter non-negative, keep every aimed neutron paid for, and keep one marker exactly while in VELOCITY |
| PlayerControls.RemoveNeutronKeepsInvariant | src/player_controls.rs:154-169 | the corrected removal keeps the invariant |
| PlayerControls.RemovalsAgreeOutsideTheFault | src/player_controls.rs:161-165 | the two removals agree while in NEUTRON and whenever the marked neutron itself is hit |
| PlayerControls.RemovalsAgreeOnBudgetOne | src/player_controls.rs:161-165 | with a budget of one neutron, as every shipped level grants, the two removals always agree |
| PlayerControls.PlacedNeutronClearOfAtoms | src/player_controls.rs:101-111 | a neutron placed by a click overlaps no atom with its own, smaller collider |
| PlayerControls.EndSetup | src/player_controls.rs:68-76 | the game starts exactly on Space in set-up while no placement awaits its velocity; otherwise the game state stays as it was, and nothing but the game state ever changes |
| PlayerControls.GameStartsWithoutMarkers | src/player_controls.rs:73-75 | under the invariant the simulation starts with every placed neutron aimed |
| PlayerControls.RemovalAsWrittenLeavesTwoMarkers | src/player_controls.rs:161-165 | on a two-neutron level, place, aim, place, remove the aimed one, and place again: the board then holds two markers in VELOCITY and the invariant is broken |
| PlayerControls.CorrectedRemovalKeepsTheMarker | src/player_controls.rs:161-165 | on the same board the corrected removal refunds the aimed neutron and keeps the invariant |

## Left out

- Square roots: the model has no `sqrt` and no axiom standing in for one. Every length the source computes is an argument constrained by `IsLength`.
- Rounding: `f32` and `f64` rounding is not modelled. `f64::EPSILON` appears only as the constant 2^-52 in the grade test.
- `generate_atom_sphere` arithmetic: the `i64` squares cannot overflow at the one radius used, 8000. The grid values convert to `f32` exactly.
- The cursor: it is a given world point. The window and camera conversion is not modelled, and neither is a click with no cursor in the window, which does nothing.
- Mouse and keyboard input: `LeftClick` and `RemoveNeutron` model a frame in which the button was just pressed. `EndSetup` takes whether Space was just pressed as an argument.
- Concurrency: `par_iter`, `ParallelCommands`, deferred `Commands` and the event queue become the ordered snapshot-then-apply semantics described above. The order of events within a frame follows atom order.
- Entity ids: Bevy assigns them; the model draws them from the counter `nextId`.
- Scheduling (`src/main.rs`): which systems run in which `GameState` is modelled only by the state check in `EndSetup`. `CollisionStep` resolves a pass's events in the same step as the pass. In the source the despawns and events are queued commands, and `collision_listener` has no ordering against `atom_collision`, so it reads them in the next frame. The model therefore resolves a pass one frame earlier than the source.
- Query order: `FirstHit` and `FirstContaining` take the sequence order as the order in which Bevy's queries visit neutrons. Bevy's order follows its archetype tables and can change when a neutron loses its `PlacementMarker`.
- Presentation: meshes, materials, the `PlacementPointer` child, camera zoom and pan, the menu and the HUD.
- `setup_level` passes an `asset_server` to a `spawn_atom` that takes none, because the files come from different revisions. The model uses `spawn_atom` as written in `src/atom.rs`.
- Neutrons.SplitTrajectories: for a zero incoming velocity and a yield of 2 to 5 the model returns zero vectors, where the source's `normalize` gives NaN.
- PlayerControls.LeftClick: when the aim has length zero the source stores a NaN velocity. The model stores the zero vector, so the neutron rests and, by `PlacedNeutronClearOfAtoms`, never hits an atom. The contract states the velocity only for an in-range aim; `CommitVelocityIsClampedAim` covers the rest.
- PlayerControls.LeftClick: a commit click requires exactly one marked neutron, because `single_mut` panics on zero or several. `InvariantGivesSingleMarker` shows that the placement invariant supplies it, and `RemovalAsWrittenLeavesTwoMarkers` shows how the as-written removal loses it.
- Levels.GenerateAtomSphere: requires a spacing `d > 0`, because `step_by(0)` panics. The one call uses a spacing of 75.
- Util.ClampVecByLength: the NaN result of normalising the zero vector is `None`.
- Neutrons.FromAngle: the rotation table is exact. `Vec2::from_angle` of an `f32` angle is only close to these values.

## Findings

| source | as written | input that shows it | evidently intended | confidence | as-written member | corrected member |
|---|---|---|---|---|---|---|
| src/player_controls.rs:161-165 | in VELOCITY, a right click on any neutron despawns it without a refund and forces NEUTRON, even when the neutron hit is an aimed one and the marked neutron stays on the board | a level granting two neutrons: place at (0,0) and aim it, place at (100,0), right-click (0,0), then left-click (200,0); two neutrons now carry the marker in VELOCITY, so the next commit click's `single_mut` panics. No shipped level grants more than one neutron, so the fault is latent (`RemovalsAgreeOnBudgetOne`) | removing the marked neutron cancels the placement; removing an aimed neutron refunds it and keeps the placement in progress | not executed | PlayerControls.RemoveNeutronAsWritten, PlayerControls.RemovalAsWrittenLeavesTwoMarkers | PlayerControls.RemoveNeutron, PlayerControls.RemoveNeutronKeepsInvariant |
