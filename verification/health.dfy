/**
 Unit health (src/health.rs): `u16` current and maximum health, damage that
 saturates at zero and reports death once, heals capped at the maximum, and
 the per-frame order in which heal events are applied before damage events.
 Entities without a `Health` component are absent from the health map.
 */
module Healths {
  import opened Base

  datatype Health = Health(current: nat, max: nat)

  datatype DamageEvent = DamageEvent(target: Entity, damage: nat)

  datatype HealEvent = HealEvent(target: Entity, heal: nat)

  /** A well-formed `u16` health: current never exceeds the maximum. */
  predicate Valid(h: Health) {
    h.current <= h.max <= U16_MAX
  }

  /** All healths in the map are well-formed. */
  predicate AllValid(hs: map<Entity, Health>) {
    forall e :: e in hs ==> Valid(hs[e])
  }

  /** `Health::new(max)`: a unit starts at full health. */
  function NewHealth(max: nat): (h: Health)
    requires max <= U16_MAX
    ensures Valid(h) && h.max == max && h.current == max
  {
    Health(max, max)
  }

  /** `Health::default()`: one point of health. */
  function DefaultHealth(): (h: Health)
    ensures Valid(h) && h.current == 1 && h.max == 1
  {
    NewHealth(1)
  }

  /** One damage event on one unit: the new health and whether the unit died. */
  function Damage(h: Health, damage: nat): (r: (Health, bool))
    ensures r.0.max == h.max && r.0.current <= h.current
    ensures h.current == 0 ==> r == (h, false)
    ensures h.current > damage ==> r.0.current == h.current - damage && !r.1
    ensures 0 < h.current <= damage ==> r.0.current == 0 && r.1
  {
    if h.current == 0 then (h, false)
    else if h.current > damage then (h.(current := h.current - damage), false)
    else (h.(current := 0), true)
  }

  /** Result of a heal: the `u16` addition overflowed (a debug-build panic), or the healed unit. */
  datatype HealResult = Overflow | Healed(health: Health)

  /** One heal event on one unit. */
  function Heal(h: Health, heal: nat): (r: HealResult)
    requires Valid(h)
    ensures h.current == 0 ==> r == Healed(h)
    ensures r == Overflow <==> h.current > 0 && h.current + heal > U16_MAX
    ensures r.Healed? ==> Valid(r.health) && r.health.max == h.max
    ensures r.Healed? && h.current > 0 ==>
      && h.current <= r.health.current
      && (r.health.current == h.current + heal || r.health.current == h.max)
      && r.health.current <= h.current + heal
  {
    if h.current == 0 then Healed(h)
    else if h.current + heal > U16_MAX then Overflow
    else Healed(h.(current := Min(h.current + heal, h.max)))
  }

  /** `apply_damage_event`: apply the frame's damage events in order, listing every unit that died. */
  function ApplyDamage(hs: map<Entity, Health>, events: seq<DamageEvent>): (r: (map<Entity, Health>, seq<Entity>))
    ensures r.0.Keys == hs.Keys
    decreases |events|
  {
    if |events| == 0 then (hs, [])
    else
      var ev := events[0];
      if ev.target !in hs then ApplyDamage(hs, events[1..])
      else
        var (h, died) := Damage(hs[ev.target], ev.damage);
        var rest := ApplyDamage(hs[ev.target := h], events[1..]);
        (rest.0, (if died then [ev.target] else []) + rest.1)
  }

  /** `apply_heal_event`: apply the frame's heal events in order; `None` when a heal overflowed. */
  function ApplyHeal(hs: map<Entity, Health>, events: seq<HealEvent>): (r: Option<map<Entity, Health>>)
    requires AllValid(hs)
    ensures r.Some? ==> r.value.Keys == hs.Keys && AllValid(r.value)
    decreases |events|
  {
    if |events| == 0 then Some(hs)
    else
      var ev := events[0];
      if ev.target !in hs then ApplyHeal(hs, events[1..])
      else match Heal(hs[ev.target], ev.heal)
        case Overflow => None
        case Healed(h) => ApplyHeal(hs[ev.target := h], events[1..])
  }

  /** One frame of the health systems: heals run before damage. */
  function HealthFrame(hs: map<Entity, Health>, heals: seq<HealEvent>, damages: seq<DamageEvent>)
    : (r: Option<(map<Entity, Health>, seq<Entity>)>)
    requires AllValid(hs)
    ensures r.None? <==> ApplyHeal(hs, heals).None?
    ensures r.Some? ==> r.value == ApplyDamage(ApplyHeal(hs, heals).value, damages)
  {
    match ApplyHeal(hs, heals)
    case None => None
    case Some(healed) => Some(ApplyDamage(healed, damages))
  }

  /**
   Damage keeps health well-formed, never raises it, keeps the dead at zero,
   and reports a unit's death exactly when it goes from alive to zero, at
   most once.
   */
  lemma {:induction false} ApplyDamageFacts(hs: map<Entity, Health>, events: seq<DamageEvent>, e: Entity)
    requires AllValid(hs)
    ensures var r := ApplyDamage(hs, events);
      && AllValid(r.0)
      && (e in hs ==> r.0[e].current <= hs[e].current && r.0[e].max == hs[e].max)
      && (e in hs && hs[e].current == 0 ==> r.0[e].current == 0)
      && Count(r.1, e) <= (if e in hs && hs[e].current > 0 then 1 else 0)
      && (e in r.1 ==> r.0[e].current == 0)
      && (e in hs && hs[e].current > 0 && r.0[e].current == 0 ==> e in r.1)
    decreases |events|
  {
    if |events| > 0 {
      var ev := events[0];
      if ev.target !in hs {
        ApplyDamageFacts(hs, events[1..], e);
      } else {
        var (h, died) := Damage(hs[ev.target], ev.damage);
        var hs' := hs[ev.target := h];
        ApplyDamageFacts(hs', events[1..], e);
        var rest := ApplyDamage(hs', events[1..]);
        var prefix := if died then [ev.target] else [];
        CountAppend(prefix, rest.1, e);
        assert ApplyDamage(hs, events) == (rest.0, prefix + rest.1);
        if died && e == ev.target {
          assert hs'[e].current == 0;
        }
      }
    }
  }

  /** A unit at zero health is left alone by a whole frame, heals included. */
  lemma {:induction false} DeadStaysDead(hs: map<Entity, Health>, heals: seq<HealEvent>, damages: seq<DamageEvent>, e: Entity)
    requires AllValid(hs) && e in hs && hs[e].current == 0
    ensures var r := HealthFrame(hs, heals, damages);
      r.Some? ==> r.value.0[e].current == 0 && e !in r.value.1
  {
    var healed := ApplyHeal(hs, heals);
    if healed.Some? {
      ApplyHealKeepsDead(hs, heals, e);
      ApplyDamageFacts(healed.value, damages, e);
    }
  }

  lemma {:induction false} ApplyHealKeepsDead(hs: map<Entity, Health>, events: seq<HealEvent>, e: Entity)
    requires AllValid(hs) && e in hs && hs[e].current == 0
    ensures var r := ApplyHeal(hs, events); r.Some? ==> r.value[e].current == 0
    decreases |events|
  {
    if |events| > 0 {
      var ev := events[0];
      if ev.target !in hs {
        ApplyHealKeepsDead(hs, events[1..], e);
      } else if Heal(hs[ev.target], ev.heal).Healed? {
        ApplyHealKeepsDead(hs[ev.target := Heal(hs[ev.target], ev.heal).health], events[1..], e);
      }
    }
  }

  /**
   Heals that cannot overflow always succeed: with every heal amount at most
   `U16_MAX - max`, no frame panics.
   */
  lemma {:induction false} ApplyHealNoOverflow(hs: map<Entity, Health>, events: seq<HealEvent>)
    requires AllValid(hs)
    requires forall i :: 0 <= i < |events| ==> events[i].target in hs ==> hs[events[i].target].max + events[i].heal <= U16_MAX
    ensures ApplyHeal(hs, events).Some?
    decreases |events|
  {
    if |events| > 0 {
      var ev := events[0];
      if ev.target !in hs {
        ApplyHealNoOverflow(hs, events[1..]);
      } else {
        var h := Heal(hs[ev.target], ev.heal);
        assert h.Healed?;
        var hs' := hs[ev.target := h.health];
        forall i | 0 <= i < |events[1..]|
          ensures events[1..][i].target in hs' ==> hs'[events[1..][i].target].max + events[1..][i].heal <= U16_MAX
        {
          assert events[1..][i] == events[i + 1];
        }
        ApplyHealNoOverflow(hs', events[1..]);
      }
    }
  }
}
