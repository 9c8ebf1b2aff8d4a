/**
 The player's bullets (src/player/bullet.rs): a damage value, a lifetime
 timer and the chain of towers that led to the bullet. A bullet entering a
 tower's hex triggers that tower once per chain; touching an enemy damages
 it; expiry or leaving the arena despawns it.

 Bullet motion and the distance test against enemies are float geometry
 and are inputs here: the hit test is a predicate on enemies.
 */
module Bullets {
  import opened Base
  import opened Hexes
  import opened Timers
  import opened Towers
  import Healths
  import opened ArenaIndexing

  /** Lifetime of a bullet, in milliseconds. */
  const BULLET_LIFETIME_MILLIS: nat := 500

  datatype PlayerBullet = PlayerBullet(damage: nat, timer: Timer, history: seq<Entity>)

  /** `PlayerBullet::default()`: one point of damage, half a second to live, no history. */
  function DefaultBullet(): (b: PlayerBullet)
    ensures b.damage == 1 && b.history == []
    ensures b.timer == NewTimer(BULLET_LIFETIME_MILLIS * NANOS_PER_MILLI)
  {
    PlayerBullet(1, NewTimer(BULLET_LIFETIME_MILLIS * NANOS_PER_MILLI), [])
  }

  /** `SpawnPlayerBulletCommand::apply`: a default bullet carrying the command's chain history. */
  function SpawnBullet(history: seq<Entity>): (b: PlayerBullet)
    ensures b.history == history
    ensures b.damage == DefaultBullet().damage && b.timer == DefaultBullet().timer
  {
    DefaultBullet().(history := history)
  }

  // ---------------------------------------------------------------------
  // Lifetime (`update_bullets`)
  // ---------------------------------------------------------------------

  /** One frame of `update_bullets` for one bullet: the ticked bullet, and whether it is despawned. */
  function UpdateBullet(b: PlayerBullet, dt: nat): (r: (PlayerBullet, bool))
    requires Valid(b.timer)
    ensures r.0 == b.(timer := Tick(b.timer, dt))
    ensures r.1 <==> b.timer.finished || b.timer.elapsed + dt >= b.timer.duration
  {
    var b' := b.(timer := Tick(b.timer, dt));
    (b', b'.timer.finished)
  }

  function Sum(dts: seq<nat>): nat {
    if |dts| == 0 then 0 else dts[0] + Sum(dts[1..])
  }

  /** The bullet is still alive after every frame of `dts`. */
  function SurvivesAll(b: PlayerBullet, dts: seq<nat>): bool
    requires Valid(b.timer)
    decreases |dts|
  {
    |dts| == 0 || (var r := UpdateBullet(b, dts[0]); !r.1 && SurvivesAll(r.0, dts[1..]))
  }

  /** A live bullet outlives a run of frames exactly when their total time stays under its remaining lifetime. */
  lemma {:induction false} SurvivesAllIffTimeLeft(b: PlayerBullet, dts: seq<nat>)
    requires Valid(b.timer) && !b.timer.finished
    ensures SurvivesAll(b, dts) <==> b.timer.elapsed + Sum(dts) < b.timer.duration || |dts| == 0
    decreases |dts|
  {
    if |dts| > 0 {
      var r := UpdateBullet(b, dts[0]);
      if !r.1 {
        SurvivesAllIffTimeLeft(r.0, dts[1..]);
      }
    }
  }

  // ---------------------------------------------------------------------
  // Tower collision (`check_tower_collision`)
  // ---------------------------------------------------------------------

  /** What entering a hex does to a bullet. */
  datatype TowerHit = TowerHit(bullet: PlayerBullet, trigger: Option<TriggerTowerEvent>, despawn: bool)

  /**
   A bullet whose stored hex changed to `hex`: a tower on that hex that is
   not yet in the bullet's chain is triggered with the chain so far, joins
   the chain, and the bullet is despawned. No tower, or one already in the
   chain, leaves the bullet as it was.
   */
  function CheckTowerCollision(b: PlayerBullet, towers: map<Hex, Entity>, hex: Hex): (r: TowerHit)
    ensures hex !in towers || towers[hex] in b.history <==> r == TowerHit(b, None, false)
    ensures hex in towers && towers[hex] !in b.history ==>
      && r.trigger == Some(TriggerTowerEvent(towers[hex], b.history))
      && r.bullet == b.(history := b.history + [towers[hex]])
      && r.despawn
  {
    if hex !in towers then TowerHit(b, None, false)
    else
      var tower := towers[hex];
      if tower in b.history then TowerHit(b, None, false)
      else TowerHit(b.(history := b.history + [tower]), Some(TriggerTowerEvent(tower, b.history)), true)
  }

  /**
   A chain never revisits a tower: the history stays free of duplicates, a
   trigger never targets a tower of its own history, and the new history is
   the trigger's history followed by its target.
   */
  lemma CollisionKeepsHistoryNoDup(b: PlayerBullet, towers: map<Hex, Entity>, hex: Hex)
    requires NoDup(b.history)
    ensures var r := CheckTowerCollision(b, towers, hex);
      && NoDup(r.bullet.history)
      && (r.trigger.Some? ==>
        && r.trigger.value.target !in r.trigger.value.history
        && r.bullet.history == r.trigger.value.history + [r.trigger.value.target])
  {
    var r := CheckTowerCollision(b, towers, hex);
    if r.trigger.Some? {
      NoDupAppend(b.history, [r.trigger.value.target]);
    }
  }

  /**
   Feeding a bullet a run of hexes, as collisions would (ignoring the
   despawn), triggers each tower at most once.
   */
  function CollideAll(b: PlayerBullet, towers: map<Hex, Entity>, hexes: seq<Hex>): (r: (PlayerBullet, seq<Entity>))
    decreases |hexes|
  {
    if |hexes| == 0 then (b, [])
    else
      var hit := CheckTowerCollision(b, towers, hexes[0]);
      var rest := CollideAll(hit.bullet, towers, hexes[1..]);
      (rest.0, (if hit.trigger.Some? then [hit.trigger.value.target] else []) + rest.1)
  }

  /** The towers triggered along any run of hexes are distinct and extend the history without repeats. */
  lemma {:induction false} CollideAllTriggersOnce(b: PlayerBullet, towers: map<Hex, Entity>, hexes: seq<Hex>)
    requires NoDup(b.history)
    ensures var r := CollideAll(b, towers, hexes);
      && r.0.history == b.history + r.1
      && NoDup(r.0.history)
    decreases |hexes|
  {
    if |hexes| > 0 {
      var hit := CheckTowerCollision(b, towers, hexes[0]);
      CollisionKeepsHistoryNoDup(b, towers, hexes[0]);
      CollideAllTriggersOnce(hit.bullet, towers, hexes[1..]);
      var rest := CollideAll(hit.bullet, towers, hexes[1..]);
      if hit.trigger.Some? {
        assert b.history + ([hit.trigger.value.target] + rest.1) == (b.history + [hit.trigger.value.target]) + rest.1;
      }
    }
  }

  // ---------------------------------------------------------------------
  // Enemy collision (`check_enemy_collision`)
  // ---------------------------------------------------------------------

  /** `enemies[i]` is the first enemy the hit test accepts. */
  predicate FirstHit(enemies: seq<Entity>, hit: Entity -> bool, i: nat)
    requires i < |enemies|
  {
    hit(enemies[i]) && forall j :: 0 <= j < i ==> !hit(enemies[j])
  }

  /**
   One bullet against the enemies in query order: the first enemy the hit
   test accepts takes the bullet's damage and the bullet is despawned; at
   most one enemy is damaged.
   */
  method CheckEnemyCollision(b: PlayerBullet, enemies: seq<Entity>, hit: Entity -> bool)
    returns (damage: Option<Healths.DamageEvent>, despawn: bool)
    ensures despawn <==> damage.Some?
    ensures damage.None? <==> forall i :: 0 <= i < |enemies| ==> !hit(enemies[i])
    ensures damage.Some? ==>
      exists i :: 0 <= i < |enemies| && FirstHit(enemies, hit, i) && damage.value == Healths.DamageEvent(enemies[i], b.damage)
  {
    damage, despawn := None, false;
    var i := 0;
    while i < |enemies|
      invariant 0 <= i <= |enemies|
      invariant forall j :: 0 <= j < i ==> !hit(enemies[j])
    {
      if hit(enemies[i]) {
        damage, despawn := Some(Healths.DamageEvent(enemies[i], b.damage)), true;
        return;
      }
      i := i + 1;
    }
  }

  // ---------------------------------------------------------------------
  // Leaving the arena (`out_of_bounds_observer`)
  // ---------------------------------------------------------------------

  /** Bullets left alive once the out-of-bounds signals of a frame have been observed. */
  function OutOfBoundsObserver(live: set<Entity>, signals: seq<Signal>): (r: set<Entity>)
    ensures r <= live
    ensures forall e :: e in live ==> (e in r <==> forall i :: 0 <= i < |signals| ==> signals[i].entity != e)
  {
    live - set i | 0 <= i < |signals| :: signals[i].entity
  }
}
