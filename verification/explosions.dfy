/**
 Explosions (src/explosion.rs): a timed force emitter that, once its
 damage delay runs out, triggers every tower within its hex range and
 damages every unit of the opposing team in range.

 The hex under the explosion, the entities the arena index holds for the
 hexes in range (`get_many_index`), the team markers and the distances to
 the units are inputs.
 */
module Explosions {
  import opened Base
  import opened Hexes
  import opened Timers
  import opened Towers
  import Healths
  import Forces

  /** The side an explosion is on; it never damages its own side. */
  datatype Team = Player | Enemy

  /** `ExplosionDamageArea`: a world-space radius, or a number of hex rings. */
  datatype DamageArea = Radius(radius: real) | HexArea(range: nat)

  datatype Explosion = Explosion(
    team: Team,
    timer: Timer,
    damageTimer: Timer,
    damage: nat,
    area: DamageArea,
    strengthModifier: real,
    history: seq<Entity>)

  /** Both timers are well-formed. */
  predicate ValidExplosion(x: Explosion) {
    Valid(x.timer) && Valid(x.damageTimer)
  }

  /** `CreateExplosionCommand`, without its colour and mesh; durations in nanoseconds. */
  datatype CreateExplosionCommand = CreateExplosionCommand(
    team: Team,
    duration: nat,
    damageDelay: nat,
    damage: nat,
    area: DamageArea,
    radius: real,
    strength: real,
    strengthModifier: real,
    history: seq<Entity>)

  /** `CreateExplosionCommand::apply`: the spawned explosion and its force emitter. */
  function CreateExplosion(cmd: CreateExplosionCommand): (r: (Explosion, Forces.ForceEmitter))
    ensures ValidExplosion(r.0)
    ensures r.0.timer == NewTimer(cmd.duration) && r.0.damageTimer == NewTimer(cmd.damageDelay)
    ensures r.0.team == cmd.team && r.0.damage == cmd.damage && r.0.area == cmd.area
    ensures r.0.strengthModifier == cmd.strengthModifier && r.0.history == cmd.history
    ensures r.1.strength == cmd.strength && r.1.radius == cmd.radius
  {
    (Explosion(cmd.team, NewTimer(cmd.duration), NewTimer(cmd.damageDelay), cmd.damage, cmd.area,
      cmd.strengthModifier, cmd.history),
     Forces.ForceEmitter(cmd.radius, cmd.strength))
  }

  // ---------------------------------------------------------------------
  // Lifetime and strength (`update_explosion`)
  // ---------------------------------------------------------------------

  datatype ExplosionUpdate = ExplosionUpdate(explosion: Explosion, emitter: Forces.ForceEmitter, despawn: bool)

  /**
   One frame of `update_explosion`: tick the lifetime; a finished explosion
   is despawned with its emitter untouched, a live one has its strength
   moved by the modifier and clamped at zero.
   */
  function UpdateExplosion(x: Explosion, e: Forces.ForceEmitter, dt: nat): (r: ExplosionUpdate)
    requires Valid(x.timer)
    ensures r.explosion == x.(timer := Tick(x.timer, dt))
    ensures r.despawn <==> Tick(x.timer, dt).finished
    ensures r.despawn ==> r.emitter == e
    ensures !r.despawn ==> r.emitter.radius == e.radius && r.emitter.strength >= 0.0
    ensures !r.despawn && e.strength + x.strengthModifier * Secs(dt) >= 0.0 ==>
      r.emitter.strength == e.strength + x.strengthModifier * Secs(dt)
    ensures !r.despawn && e.strength + x.strengthModifier * Secs(dt) < 0.0 ==> r.emitter.strength == 0.0
  {
    var x' := x.(timer := Tick(x.timer, dt));
    if x'.timer.finished then ExplosionUpdate(x', e, true)
    else
      var s := e.strength + x.strengthModifier * Secs(dt);
      ExplosionUpdate(x', e.(strength := if s < 0.0 then 0.0 else s), false)
  }

  /** The explosion and emitter after a run of frames, stopping at despawn. */
  function UpdateAll(x: Explosion, e: Forces.ForceEmitter, dts: seq<nat>): (r: ExplosionUpdate)
    requires Valid(x.timer)
    ensures Valid(r.explosion.timer)
    decreases |dts|
  {
    if |dts| == 0 then ExplosionUpdate(x, e, false)
    else
      var u := UpdateExplosion(x, e, dts[0]);
      if u.despawn then u else UpdateAll(u.explosion, u.emitter, dts[1..])
  }

  /** An emitter that starts non-negative stays non-negative over any run of frames. */
  lemma {:induction false} StrengthStaysNonNegative(x: Explosion, e: Forces.ForceEmitter, dts: seq<nat>)
    requires Valid(x.timer) && e.strength >= 0.0
    ensures UpdateAll(x, e, dts).emitter.strength >= 0.0
    decreases |dts|
  {
    if |dts| > 0 {
      var u := UpdateExplosion(x, e, dts[0]);
      if !u.despawn {
        StrengthStaysNonNegative(u.explosion, u.emitter, dts[1..]);
      }
    }
  }

  /** A non-negative modifier never weakens the emitter; a non-positive one never strengthens an emitter that is not negative. */
  lemma {:induction false} StrengthFollowsModifier(x: Explosion, e: Forces.ForceEmitter, dts: seq<nat>)
    requires Valid(x.timer) && e.strength >= 0.0
    ensures x.strengthModifier >= 0.0 ==> UpdateAll(x, e, dts).emitter.strength >= e.strength
    ensures x.strengthModifier <= 0.0 ==> UpdateAll(x, e, dts).emitter.strength <= e.strength
    decreases |dts|
  {
    if |dts| > 0 {
      var u := UpdateExplosion(x, e, dts[0]);
      assert x.strengthModifier >= 0.0 ==> x.strengthModifier * Secs(dts[0]) >= 0.0;
      assert x.strengthModifier <= 0.0 ==> x.strengthModifier * Secs(dts[0]) <= 0.0;
      if !u.despawn {
        StrengthFollowsModifier(u.explosion, u.emitter, dts[1..]);
      }
    }
  }

  // ---------------------------------------------------------------------
  // Damage and tower triggers (`apply_explosion_damage`)
  // ---------------------------------------------------------------------

  /** The smallest integer not below `r`. */
  function Ceil(r: real): (c: int)
    ensures c as real >= r && (c as real) - 1.0 < r
  {
    -((-r).Floor)
  }

  /**
   The hex range searched: the ring count of a hex area, or the radius
   rounded up and cast to `u32` (Rust's float-to-int cast saturates, so a
   negative radius gives 0).
   */
  function HexRange(area: DamageArea): (n: nat)
    ensures area.HexArea? ==> n == area.range
    ensures area.Radius? && 0.0 <= area.radius <= U32_MAX as real ==>
      n as real >= area.radius && (n as real) - 1.0 < area.radius
    ensures area.Radius? && area.radius <= 0.0 ==> n == 0
    ensures area.Radius? ==> n <= U32_MAX
    ensures area.Radius? && area.radius > U32_MAX as real ==> n == U32_MAX
  {
    match area
    case HexArea(range) => range
    case Radius(radius) =>
      var c := Ceil(radius);
      if c < 0 then 0 else if c > U32_MAX then U32_MAX else c
  }

  /** One trigger for each hex of `hexes` that holds a tower, in order, each carrying `history` unchanged. */
  function TowerTriggers(hexes: seq<Hex>, towers: map<Hex, Entity>, history: seq<Entity>): (r: seq<TriggerTowerEvent>)
    ensures |r| <= |hexes|
    ensures forall i :: 0 <= i < |r| ==> r[i].history == history
    ensures forall ev :: ev in r ==> ev.target in towers.Values
  {
    if |hexes| == 0 then []
    else
      var rest := TowerTriggers(hexes[1..], towers, history);
      if hexes[0] in towers then [TriggerTowerEvent(towers[hexes[0]], history)] + rest else rest
  }

  /** Some hex of `hexes` holds tower `t`. */
  predicate HoldsTower(hexes: seq<Hex>, towers: map<Hex, Entity>, t: Entity) {
    exists i :: 0 <= i < |hexes| && hexes[i] in towers && towers[hexes[i]] == t
  }

  /** Over distinct hexes and a map with one hex per tower, each tower on those hexes is triggered exactly once. */
  lemma {:induction false} TowerTriggersOnce(hexes: seq<Hex>, towers: map<Hex, Entity>, history: seq<Entity>, t: Entity)
    requires NoDup(hexes) && Injective(towers)
    ensures Count(TowerTriggers(hexes, towers, history), TriggerTowerEvent(t, history)) ==
      if HoldsTower(hexes, towers, t) then 1 else 0
    decreases |hexes|
  {
    if |hexes| > 0 {
      var tail := hexes[1..];
      TowerTriggersOnce(tail, towers, history, t);
      HoldsTowerCons(hexes, towers, t);
      var rest := TowerTriggers(tail, towers, history);
      if hexes[0] in towers {
        CountAppend([TriggerTowerEvent(towers[hexes[0]], history)], rest, TriggerTowerEvent(t, history));
        if towers[hexes[0]] == t {
          forall i | 0 <= i < |tail| ensures !(tail[i] in towers && towers[tail[i]] == t) {
            assert tail[i] == hexes[i + 1] && hexes[0] != hexes[i + 1];
          }
        }
      }
    }
  }

  /** A tower is held by a non-empty run of hexes when it is on the first or held by the rest. */
  lemma HoldsTowerCons(hexes: seq<Hex>, towers: map<Hex, Entity>, t: Entity)
    requires |hexes| > 0
    ensures HoldsTower(hexes, towers, t) <==>
      (hexes[0] in towers && towers[hexes[0]] == t) || HoldsTower(hexes[1..], towers, t)
  {
    if HoldsTower(hexes[1..], towers, t) {
      var i :| 0 <= i < |hexes[1..]| && hexes[1..][i] in towers && towers[hexes[1..][i]] == t;
      assert hexes[i + 1] == hexes[1..][i];
    }
    if HoldsTower(hexes, towers, t) {
      var i :| 0 <= i < |hexes| && hexes[i] in towers && towers[hexes[i]] == t;
      if i > 0 {
        assert hexes[1..][i - 1] == hexes[i];
      }
    }
  }

  /** The units carrying each team's marker together with `Health`. */
  datatype Units = Units(players: set<Entity>, enemies: set<Entity>)

  /** The units a team's explosions can hurt: the other side's. */
  function Opponents(team: Team, units: Units): set<Entity> {
    match team
    case Player => units.enemies
    case Enemy => units.players
  }

  /**
   The unit test: `t` is on the opposing side, is not the explosion itself,
   and, for a radius area, is no further away than the radius.
   */
  predicate Struck(x: Explosion, self: Entity, units: Units, distance: Entity -> real, t: Entity) {
    && t in Opponents(x.team, units)
    && t != self
    && (x.area.Radius? ==> distance(t) <= x.area.radius)
  }

  /** One damage event per entity of `ids` the explosion strikes, in order, each for the explosion's damage. */
  function UnitHits(x: Explosion, self: Entity, ids: seq<Entity>, units: Units, distance: Entity -> real)
    : (r: seq<Healths.DamageEvent>)
    ensures |r| <= |ids|
    ensures forall i :: 0 <= i < |r| ==> r[i].damage == x.damage
    ensures forall t ::
      Count(r, Healths.DamageEvent(t, x.damage)) == if Struck(x, self, units, distance, t) then Count(ids, t) else 0
  {
    if |ids| == 0 then []
    else
      var rest := UnitHits(x, self, ids[1..], units, distance);
      var t := ids[0];
      if Struck(x, self, units, distance, t) then
        assert forall u ::
          Count([Healths.DamageEvent(t, x.damage)] + rest, Healths.DamageEvent(u, x.damage)) == (if u == t then 1 else 0) + Count(rest, Healths.DamageEvent(u, x.damage)) by {
          forall u ensures Count([Healths.DamageEvent(t, x.damage)] + rest, Healths.DamageEvent(u, x.damage)) ==
            (if u == t then 1 else 0) + Count(rest, Healths.DamageEvent(u, x.damage)) {
            CountAppend([Healths.DamageEvent(t, x.damage)], rest, Healths.DamageEvent(u, x.damage));
          }
        }
        [Healths.DamageEvent(t, x.damage)] + rest
      else rest
  }

  /** What one explosion does in one frame of `apply_explosion_damage`. */
  datatype DamageOutcome = DamageOutcome(
    explosion: Explosion,
    triggers: seq<TriggerTowerEvent>,
    damages: seq<Healths.DamageEvent>)

  /**
   `apply_explosion_damage` for explosion `self` standing on `center`: tick
   the damage timer; only on the frame it just finished, trigger the towers
   on the hexes in range and damage the struck units among `ids`, the
   entities the arena index holds for those hexes.
   */
  function ApplyExplosionDamage(
    x: Explosion, self: Entity, center: Hex, towers: map<Hex, Entity>,
    ids: seq<Entity>, units: Units, distance: Entity -> real, dt: nat): (r: DamageOutcome)
    requires Valid(x.damageTimer)
    ensures r.explosion == x.(damageTimer := Tick(x.damageTimer, dt))
    ensures !r.explosion.damageTimer.justFinished ==> r.triggers == [] && r.damages == []
    ensures r.explosion.damageTimer.justFinished ==>
      && r.triggers == TowerTriggers(DiskSeq(center, HexRange(x.area)), towers, x.history)
      && r.damages == UnitHits(x, self, ids, units, distance)
  {
    var x' := x.(damageTimer := Tick(x.damageTimer, dt));
    if !x'.damageTimer.justFinished then DamageOutcome(x', [], [])
    else
      var hexes := DiskSeq(center, HexRange(x.area));
      DamageOutcome(x', TowerTriggers(hexes, towers, x.history), UnitHits(x, self, ids, units, distance))
  }

  /**
   With one hex per tower, every tower within the hex range of the
   explosion's centre receives exactly one trigger and no other tower
   receives any; a tower already in the explosion's history is triggered all
   the same.
   */
  lemma ExplosionTriggersEachTowerOnce(
    x: Explosion, self: Entity, center: Hex, towers: map<Hex, Entity>,
    ids: seq<Entity>, units: Units, distance: Entity -> real, dt: nat, t: Entity)
    requires Valid(x.damageTimer) && Injective(towers)
    requires Tick(x.damageTimer, dt).justFinished
    ensures Count(ApplyExplosionDamage(x, self, center, towers, ids, units, distance, dt).triggers, TriggerTowerEvent(t, x.history)) ==
      if exists h :: h in towers && towers[h] == t && Distance(h, center) <= HexRange(x.area) then 1 else 0
  {
    var hexes := DiskSeq(center, HexRange(x.area));
    TowerTriggersOnce(hexes, towers, x.history, t);
    if exists h :: h in towers && towers[h] == t && Distance(h, center) <= HexRange(x.area) {
      var h :| h in towers && towers[h] == t && Distance(h, center) <= HexRange(x.area);
      var i :| 0 <= i < |hexes| && hexes[i] == h;
      assert HoldsTower(hexes, towers, t);
    }
    if HoldsTower(hexes, towers, t) {
      var i :| 0 <= i < |hexes| && hexes[i] in towers && towers[hexes[i]] == t;
      assert hexes[i] in hexes;
    }
  }

  /** Whether the damage gate opens in each frame of a run, counted. */
  function DamageFrames(x: Explosion, dts: seq<nat>): nat
    requires Valid(x.damageTimer)
    decreases |dts|
  {
    if |dts| == 0 then 0
    else
      var x' := x.(damageTimer := Tick(x.damageTimer, dts[0]));
      (if x'.damageTimer.justFinished then 1 else 0) + DamageFrames(x', dts[1..])
  }

  /** Damage and triggers happen in at most one frame of an explosion's life. */
  lemma {:induction false} DamageAtMostOnce(x: Explosion, dts: seq<nat>)
    requires Valid(x.damageTimer)
    ensures DamageFrames(x, dts) <= 1
  {
    DamageFramesIsJustFinished(x, dts);
    JustFinishedAtMostOnce(x.damageTimer, dts);
  }

  lemma {:induction false} DamageFramesIsJustFinished(x: Explosion, dts: seq<nat>)
    requires Valid(x.damageTimer)
    ensures DamageFrames(x, dts) == JustFinishedCount(x.damageTimer, dts)
    decreases |dts|
  {
    if |dts| > 0 {
      DamageFramesIsJustFinished(x.(damageTimer := Tick(x.damageTimer, dts[0])), dts[1..]);
    }
  }
}
