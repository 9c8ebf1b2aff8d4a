# chain-reaction: the per-tick simulation rules, modelled in Dafny

chain-reaction is a hex-arena game built on Bevy. The player places towers, fires bullets and sets off explosions. A bullet entering a tower's hex triggers that tower. An explosion triggers every tower in its hex range. A chain remembers which towers it has already passed through.

This project models the game's per-tick rules as pure step functions. Each takes a state and returns the new state plus the events it emits. The ECS wiring, rendering and float motion around them are not modelled.

- **`Hexes`**:
  - axial hexes and the `hexx` distance (the largest cube-coordinate difference, shown equal to half the sum of the three);
  - the disk `range(n)`, enumerated once per hex;
  - the arena of radius `ARENA_RADIUS = 20`.
- **`Timers`**: Bevy's `Timer` in `TimerMode::Once`, in nanoseconds. It keeps `finished` and `just_finished` as Bevy does:
  - a finished timer stays finished;
  - `just_finished` holds only on the crossing tick.
- **`ArenaIndexing`** (`src/arena_index.rs`): the hex → entities index and each entity's stored `ArenaHex`. This covers relocation, the out-of-bounds signal and removal. The at-most-once and exactly-once invariants are stated and proved preserved.
- **`Towers`** (`src/tower.rs`): tower kinds and single-occupant placement into a hex → tower map.
- **`Building`** (`src/building.rs`):
  - the collected towers and the selected index;
  - number-key selection and placement;
  - the hexes highlighted by the shoot and explode previews.
- **`Bullets`** (`src/player/bullet.rs`):
  - lifetime;
  - tower collision, with the chain history kept free of duplicates;
  - first-hit enemy collision;
  - the out-of-bounds despawn.
- **`Explosions`** (`src/explosion.rs`):
  - creation;
  - clamped strength updates;
  - the one-shot damage tick, with tower triggers and team/self/radius filtering.
- **`Forces`** (`src/force.rs`): the linear falloff, force accumulation, and relaxation that snaps small forces to zero. Values are `real`.
- **`Healths`** (`src/health.rs`): saturating damage with a death reported once, capped heals, and heals running before damage.
- **`Scores`** (`src/score.rs`): the combo multiplier, the longest chain and the combo timer.

Some collaborators are not defined in the shown files:
- the placement map `tower_index`;
- `is_occupied`;
- `get_many_index`;
- `TowerKind::actions`;
- the hit and distance tests.

These appear as parameters:
- a `map<Hex, Entity>`;
- a boolean occupancy answer, with the named assumption `Towers.OccupiedIsPlaced` where placement must be single-occupant;
- a sequence of ids;
- an action table `TowerKind -> seq<TowerAction>`;
- functions on entities.

Frame times are nanosecond counts. The hex that a world position maps to is an input.

Rust's `u16`, `u32` and `u128` bounds are explicit:
- a heal or score that would overflow in a debug build is an error result (`Overflow`, `None`);
- the `f32 → u32` cast of a rounded-up radius saturates, as Rust's cast does.

Behaviour of the code that the model follows as written:
- An explosion's tower triggers carry the explosion's history unchanged. The explosion does not add itself, and towers already in the history are triggered anyway.
- `reduce_force` has no clamp at zero. The force stays non-negative only while `restitution * dt` lies in `[0, 1]`.
- An entity whose new hex is out of bounds stays in its old bucket, and its stored hex keeps the old value.
- Build mode switches between `Running` and `Building` as `src/building.rs` uses them. `src/main.rs` is from a different revision with other state names.

## Model

| member | source | states |
|---|---|---|
| Hexes.DiskSeq | src/explosion.rs:146 | `range(n)` around a centre lists every hex within distance `n` and no other, each exactly once |
| Hexes.ArenaDisk | src/arena_index.rs:37-38 | `hexagon(Hex::ZERO, ARENA_RADIUS)` holds exactly the hexes at distance at most 20 from the origin |
| Timers.Tick | src/player/bullet.rs:76-77 | ticking keeps the timer well-formed; it is finished exactly when it was or the elapsed time reaches the duration, and just finished exactly on the crossing tick |
| Timers.JustFinishedAtMostOnce | src/explosion.rs:134-135 | over any run of ticks a once-timer reports `just_finished` at most once, and never after it has finished |
| Base.RemoveFirstIsRemoveAtPosition | src/arena_index.rs:95-96 | `remove(position(e))` on a vector holding `e` drops exactly its first occurrence |
| Base.RemoveFirstCount | src/arena_index.rs:94-98 | dropping the first occurrence of `e` lowers its count by one when present and leaves every other element's count unchanged |
| ArenaIndexing.DefaultIndex | src/arena_index.rs:35-45 | a fresh index has one empty bucket for every arena hex and no other key |
| ArenaIndexing.Relocate | src/arena_index.rs:73-101 | same hex: nothing changes; unindexed hex: one out-of-bounds event (stored hex, new hex) and nothing changes; else the entity is appended to the new bucket, its first occurrence leaves the old bucket, the stored hex becomes the new one, and no other bucket or key changes |
| ArenaIndexing.RelocatePreservesAtMostOnce | src/arena_index.rs:83-101 | relocation keeps every entity at most once in the index, and only in its stored hex's bucket |
| ArenaIndexing.RelocatePreservesExactlyOnce | src/arena_index.rs:91-101 | when every tracked entity is indexed exactly once, relocation keeps it so |
| ArenaIndexing.RelocateMovesEntity | src/arena_index.rs:91-98 | after a move to an indexed hex the entity occurs once in the new bucket and not at all in the old one |
| ArenaIndexing.UpdateArenaHexAndIndex | src/arena_index.rs:61-104 | the loop computes the reference pass: every moved entity with an `ArenaHex` relocated in query order, the others skipped, one signal per out-of-bounds move; it keeps the at-most-once and the exactly-once invariants |
| ArenaIndexing.RelocateAllFacts | src/arena_index.rs:68-103 | a whole pass keeps the at-most-once invariant and the key sets, changes a stored hex only to an indexed hex, and raises at most one signal per move, each naming a tracked entity and an unindexed hex |
| ArenaIndexing.RelocateAllPreservesExactlyOnce | src/arena_index.rs:68-103 | a whole pass over any moves keeps every tracked entity exactly once in its stored hex's bucket |
| ArenaIndexing.RemoveFromIndex | src/arena_index.rs:106-131 | removal succeeds exactly when the entity has a stored hex whose bucket holds it, and then drops one occurrence; a missing record, bucket or entry is reported as such and changes nothing |
| ArenaIndexing.RemovePreservesAtMostOnce | src/arena_index.rs:119-121 | removal keeps the at-most-once invariant for the entities still tracked |
| ArenaIndexing.RemoveLeavesNoTrace | src/arena_index.rs:119-121 | under the invariant, a removed entity is in no bucket afterwards and the keys are unchanged |
| ArenaIndexing.RemovePreservesExactlyOnce | src/arena_index.rs:106-131 | removal keeps every other tracked entity exactly once in its bucket |
| ArenaIndexing.SpawnTracked | src/arena_index.rs:49-52 | a spawned entity's default `ArenaHex` is the origin, and the index is not touched |
| ArenaIndexing.SpawnPreservesAtMostOnce | src/arena_index.rs:49-52 | spawning a fresh entity keeps the at-most-once invariant |
| ArenaIndexing.SpawnAtOriginNotIndexed | src/arena_index.rs:49-74 | an entity spawned with the origin record whose first position maps to the origin is not inserted; while it stays on the origin hex it is in no bucket, a removal reports entity-not-found, and exactly-once fails |
| ArenaIndexing.RelocateIndexesEntity | src/arena_index.rs:83-91 | a move to another indexed hex puts the entity in its new bucket even if it was missing from the index, so with every other tracked entity in its bucket, exactly-once holds afterwards |
| ArenaIndexing.SpawnedAtOriginIndexedOnFirstMove | src/arena_index.rs:83-91 | the entity left out at the origin is indexed exactly once by its first move to another arena hex |
| ArenaIndexing.Track | src/arena_index.rs:47-48 | tracking as the `ArenaHex` doc comment describes it: a fresh entity is recorded at its initial hex and appended to that bucket; a hex outside the index leaves it untracked |
| ArenaIndexing.TrackPreservesExactlyOnce | src/arena_index.rs:83-91 | tracking a fresh entity keeps every tracked entity exactly once in its stored hex's bucket |
| Towers.AllTowerKinds | src/tower.rs:22-30 | there are exactly six tower kinds |
| Towers.PlaceTower | src/tower.rs:37-76 | an occupied hex logs a warning and changes nothing; otherwise exactly one tower with the command's `Tower` is spawned and only the map entry for the hex changes, to the new id |
| Towers.PlaceNeverOverwrites | src/tower.rs:39-47 | when the occupancy answer is map membership, placement never changes an existing entry, and spawns nothing exactly when the hex already holds a tower |
| Towers.PlaceKeepsInjective | src/tower.rs:73-75 | with a fresh id, placement keeps every tower entity on at most one hex |
| Towers.PlaceAllKeepsFirstTower | src/tower.rs:39-75 | over any queue of placements, a hex keeps the first tower placed on it, and every commanded hex ends up placed |
| Building.DefaultSettings | src/building.rs:69-76 | default settings have no towers and select nothing |
| Building.GetSelected | src/building.rs:61-66 | `get_selected` is `Some(towers[i])` exactly when `Some(i)` is selected with `i` in range |
| Building.AddTower | src/building.rs:93-103 | the kind is appended at the end, the rest and the selection unchanged |
| Building.AddTowerKeepsSelection | src/building.rs:97-101 | adding a tower never changes what was selected, except to make a dangling index at the old length name the new tower |
| Building.PlaceBuilding | src/building.rs:149-185 | no-op exactly when the hex is occupied or nothing valid is selected; else one command for the pointer hex with the selected kind and rotation 0, the selected element removed with the others in order, selection cleared, an update event, and the state set to Running |
| Building.PlaceBuildingSpendsTower | src/building.rs:169-179 | the collection loses exactly the placed kind, as a multiset |
| Building.PlaceBuildingBuildsSelected | src/building.rs:169-175 | the queued command places a tower of the selected kind on the pointer hex |
| Building.FirstSelectable | src/building.rs:205-229 | the chosen key is just pressed and names a tower, and no earlier key does both |
| Building.SelectBuilding | src/building.rs:187-231 | the first just-pressed key naming a tower is selected and ends the scan, switching to Building when not already there; otherwise nothing changes; every pressed key visited writes a redraw event |
| Building.ShootRay | src/building.rs:256-261 | the ray starts at its first hex, every hex of it is in the arena, and the step after its last hex leaves the arena |
| Building.ShootRaySteps | src/building.rs:257-260 | each hex of the ray is one direction step past the previous one |
| Building.ShootPreview | src/building.rs:256-261 | the loop from `p + d` terminates for a unit direction and highlights exactly the ray |
| Building.ArenaOnly | src/building.rs:264-267 | filtering keeps exactly the arena hexes of a list, without duplicates if there were none |
| Building.ExplodePreview | src/building.rs:263-268 | the explode preview highlights exactly the hexes within `range` of the pointer that are in the arena, each once |
| Building.PreviewsCover | src/building.rs:254-271 | a hex is highlighted exactly when the preview of one of the selected kind's actions highlights it |
| Building.PreviewsInArena | src/building.rs:254-271 | every highlighted hex is in the arena |
| Building.PreviewAction | src/building.rs:255-270 | the loop or disk scan of one action computes that action's preview |
| Building.RedrawPlacement | src/building.rs:233-272 | nothing is highlighted without a selection; otherwise the previews of every action, in order |
| Bullets.DefaultBullet | src/player/bullet.rs:25-36 | a default bullet has damage 1, a fresh 500 ms timer and an empty history |
| Bullets.SpawnBullet | src/player/bullet.rs:43-60 | a spawned bullet is the default one carrying the command's history |
| Bullets.UpdateBullet | src/player/bullet.rs:74-80 | the timer is ticked, and the bullet is despawned exactly when the timer has finished |
| Bullets.SurvivesAllIffTimeLeft | src/player/bullet.rs:74-80 | a live bullet survives a run of frames exactly when their total time stays below its remaining lifetime |
| Bullets.CheckTowerCollision | src/player/bullet.rs:112-138 | no tower, or one already in the history, leaves the bullet as it is; otherwise one trigger with the pre-append history, the tower appended, and a despawn |
| Bullets.CollisionKeepsHistoryNoDup | src/player/bullet.rs:124-134 | the history stays free of duplicates, and a trigger never targets a tower of its own history |
| Bullets.CollideAllTriggersOnce | src/player/bullet.rs:118-137 | over any run of hexes the towers triggered are distinct and extend the history |
| Bullets.CheckEnemyCollision | src/player/bullet.rs:87-110 | the first enemy the hit test accepts takes the bullet's damage and the bullet is despawned; no hit means no event and no despawn |
| Bullets.OutOfBoundsObserver | src/player/bullet.rs:140-143 | a bullet stays alive exactly when no out-of-bounds signal names it |
| Explosions.CreateExplosion | src/explosion.rs:65-101 | the command's team, damage, area, modifier and history go to the explosion with fresh timers; strength and radius go to its emitter |
| Explosions.UpdateExplosion | src/explosion.rs:103-121 | a finished lifetime despawns with the emitter untouched; otherwise the strength moves by `modifier * dt`, and a result below zero becomes exactly zero |
| Explosions.StrengthStaysNonNegative | src/explosion.rs:116-119 | an emitter strength that starts non-negative stays so over any run of frames |
| Explosions.StrengthFollowsModifier | src/explosion.rs:116-119 | a non-negative modifier never weakens the emitter, and a non-positive one never strengthens it |
| Explosions.HexRange | src/explosion.rs:140-143 | the range is `n` for a hex area and `ceil(r)` for a radius, cast to `u32` with saturation: 0 for a non-positive radius, `u32::MAX` past it |
| Explosions.TowerTriggers | src/explosion.rs:146-153 | each trigger carries the history unchanged and targets a placed tower, at most one per hex |
| Explosions.TowerTriggersOnce | src/explosion.rs:146-153 | over distinct hexes with one hex per tower, each tower on them is triggered exactly once and no other tower is |
| Explosions.UnitHits | src/explosion.rs:166-187 | an id yields one damage event per occurrence, with the explosion's damage, exactly when it is an opponent other than the explosion within the radius |
| Explosions.ApplyExplosionDamage | src/explosion.rs:123-189 | nothing happens unless the damage timer just finished; then the towers in range are triggered and the struck units damaged |
| Explosions.ExplosionTriggersEachTowerOnce | src/explosion.rs:145-153 | on the damage tick every tower within the hex range gets exactly one trigger and no other tower gets any, whatever the history |
| Explosions.DamageAtMostOnce | src/explosion.rs:134-137 | the damage and trigger step opens in at most one frame of an explosion's life |
| Forces.DefaultEmitter | src/force.rs:31-38 | the default emitter has strength 10 and radius 5 |
| Forces.StrengthAt | src/force.rs:41-49 | full strength at negative distances, zero beyond the radius |
| Forces.StrengthAtRegression | src/force.rs:131-146 | for strength 10 and radius 5, distances 0, 5, 2.5 and 1 give 10, 0, 5 and 8 |
| Forces.StrengthAtBounds | src/force.rs:41-49 | with non-negative strength and positive radius the strength felt lies between 0 and the emitter's |
| Forces.StrengthAtMonotone | src/force.rs:45-48 | the falloff never grows with distance |
| Forces.StrengthAtEdge | src/force.rs:45-48 | the falloff reaches zero exactly at the radius, matching the out-of-range value |
| Forces.DefaultReceiver | src/force.rs:60-66 | the default restitution is 0.5 |
| Forces.ContributionNonNegative | src/force.rs:95-105 | emitters of non-negative strength only ever push |
| Forces.OutOfRangeAddsNothing | src/force.rs:96-97 | dropping an out-of-range emitter leaves the accumulated force unchanged |
| Forces.ApplyForce | src/force.rs:84-108 | the force grows by the sum of the in-range pushes; the marker is set exactly when it was or some emitter reaches, and inserted at most once, only when it was absent |
| Forces.ReduceForce | src/force.rs:110-125 | an unmarked receiver is untouched; an imperceptible force on a springy receiver snaps to zero and loses the marker; otherwise the force is scaled by `1 - restitution * dt` |
| Forces.ReduceForceStaysNonNegative | src/force.rs:116-123 | with `restitution * dt` in `[0, 1]` a non-negative force stays non-negative and never grows |
| Forces.ReduceForceCanGoNegative | src/force.rs:120-123 | without that bound the force overshoots below zero |
| Forces.SnappedReceiverIsIdle | src/force.rs:113-119 | after a snap the receiver is at zero, unmarked, and left alone by later steps |
| Healths.NewHealth | src/health.rs:47-51 | a new unit starts at full health |
| Healths.DefaultHealth | src/health.rs:41-45 | the default unit has one point of health |
| Healths.Damage | src/health.rs:84-97 | a dead unit is ignored; damage below current health subtracts it without death; otherwise health drops to 0 and death is reported |
| Healths.Heal | src/health.rs:107-111 | a dead unit is ignored; the heal overflows exactly when a living unit's sum passes `u16`; otherwise health becomes `min(current + heal, max)`, staying well-formed |
| Healths.ApplyDamage | src/health.rs:73-99 | damage leaves the set of units with health as it is |
| Healths.ApplyHeal | src/health.rs:101-113 | successful heals keep every health well-formed and the set of units unchanged |
| Healths.HealthFrame | src/health.rs:14-19 | a frame applies its heals before its damage, and fails only on a heal overflow |
| Healths.ApplyDamageFacts | src/health.rs:73-99 | damage keeps health well-formed and never raises it; the dead stay at 0; a unit's death is reported exactly when it was alive before and is at 0 after, and at most once |
| Healths.DeadStaysDead | src/health.rs:33-34 | a unit at 0 stays at 0 through a whole frame and is never reported dead again |
| Healths.ApplyHealKeepsDead | src/health.rs:107-109 | heals never revive a unit at 0 |
| Healths.ApplyHealNoOverflow | src/health.rs:111 | heals that cannot pass `u16` with the maximum never overflow |
| Scores.DefaultScore | src/score.rs:40-49 | the initial score is 0 with combo 1, no chain and a fresh one-second combo timer |
| Scores.ScoreEvent | src/score.rs:83-89 | a successful event keeps the score in `u128` and leaves the combo timer alone |
| Scores.IncreaseScoreMeaning | src/score.rs:76-91 | scoring a frame succeeds exactly when the final score and combo fit in `u128`; it adds the sum of `score * (1 + chain) * combo` with the combo rising by one per event, records the longest chain and resets the combo timer |
| Scores.ScoreEventsMeaning | src/score.rs:82-90 | the event loop alone does the same without touching the timer |
| Scores.IncreaseScoreMonotone | src/score.rs:84-89 | scoring never lowers the score, the combo or the longest chain |
| Scores.TickCombo | src/score.rs:64-74 | the timer is ticked; when it has finished the combo becomes 1 with a reset event, otherwise nothing else changes |
| Scores.ComboResetRepeats | src/score.rs:69-73 | once the combo timer has finished, every later quiet frame resets the combo again |
| Scores.ScoreFrameKeepsCombo | src/score.rs:15-16 | a frame with score events never resets the combo and leaves a fresh timer; the combo stays at least 1 in `u128` |

## Left out

- Rendering, meshes, materials, the placeholder graphic and highlight entities are not modelled. They have no effect on the game rules.
- Motion of bullets, enemies and the player, and all float geometry, are left out. Distances and hit tests are inputs.
- `world_pos_to_hex` and `hex_to_world_pos` are left out. The resulting hex is an input.
- Bevy scheduling is not modelled. The deferred commands, event queues, observers and the `Changed<...>` filters are flattened into sequential step functions that return the emitted events.
- Iteration order of `hexx`'s `range` is not modelled. `Hexes.DiskSeq` fixes its own column-by-column order. Only the set of hexes, each once, is relied on.
- `f32` rounding is not modelled; forces and radii are `real`.
- Forces.StrengthAt: requires that `0 / 0` does not arise (a zero radius at distance zero). In `f32` that case gives NaN, which the model does not represent.
- Forces.ApplyForce: requires, through `Forces.StrengthAt`, that no emitter of radius 0 sits at distance 0. The source accepts that input and adds NaN to the force, which the model does not represent. It models one receiver against all emitters. The pass over all receivers is the same step applied to each receiver independently. The ordering between `apply_force` and `reduce_force` within a frame is not modelled.
- Healths.Heal: a `u16` addition past 65535 is an error result. It panics in a debug build and wraps in a release build, and the wrap-around is not modelled.
- Scores.ScoreEvent: a `u128` addition or multiplication past the bound is an error result. It panics in a debug build and wraps in a release build, and the wrap-around is not modelled.
- `tower_index`, `is_occupied`, `get_many_index`, `TowerKind::actions` and the consumer of `TriggerTowerEvent` are not part of this model. Their definitions are not in the source files modelled. They appear as parameters, never with invented bodies.
- `Tower.direction` (src/tower.rs:19) is represented by the `rotation` field that src/building.rs builds the tower with.
- The `Team` type and the team marker components are not part of this model. They are represented by the two-valued `Explosions.Team` and the sets of player and enemy units.
- `cleanup_*`, `setup_building` and `cancel_building` are left out, along with the placeholder's material swap in `select_building`. They only despawn or re-skin graphics, or set a fixed state.
- Building.RedrawPlacement: assumes `TowerKind::actions` gives only unit directions to shoot actions (`Building.UnitShots`). With a zero direction the preview loop at src/building.rs:257-260 would never end, and the model does not cover that case.
- Building.AddTower: the `BuildingsUpdatedEvent` that `AddTowerCommand` sends (src/building.rs:101) is not returned, because it only refreshes the hotbar display.
- Explosions.UnitHits: models only the ids `get_many_index` returns; which entities those are is an input.

## Findings

| source | as written | input that shows it | evidently intended | confidence | as-written member | corrected member |
|---|---|---|---|---|---|---|
| src/arena_index.rs:49-52 | `ArenaHex` defaults to the origin and spawning never inserts into the index; only a later change of hex inserts | a bullet spawned whose first computed hex is the origin: `new_hex == arena_hex.hex`, so it is not indexed while it stays on the origin hex, and a despawn there logs "entity wasn't found"; its first move to another hex indexes it | a spawned entity is indexed at its initial hex, so every tracked entity is in exactly one bucket | medium, not executed | ArenaIndexing.SpawnAtOriginNotIndexed | ArenaIndexing.TrackPreservesExactlyOnce |
