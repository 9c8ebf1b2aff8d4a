/**
 The force field (src/force.rs). Emitters push on receivers within their
 radius with a strength that falls off linearly to zero at the radius;
 each frame adds the pushes up into the receiver's `Force`, and a
 relaxation step bleeds the force off again, snapping an imperceptible
 force to zero and clearing the receiver's `IsForceApplied` flag.

 Values are `real`: `f32` rounding is not modelled. Distances between a
 receiver and the emitters are inputs (float geometry on transforms).
 */
module Forces {

  datatype ForceEmitter = ForceEmitter(radius: real, strength: real)

  /** `ForceEmitter::default()`: strength 10 over a radius of 5. */
  function DefaultEmitter(): (e: ForceEmitter)
    ensures e.strength == 10.0 && e.radius == 5.0
  {
    ForceEmitter(5.0, 10.0)
  }

  /** The falloff's division `distance / radius` has a value (excludes `0 / 0`, which is NaN in `f32`). */
  predicate Defined(e: ForceEmitter, distance: real) {
    distance == 0.0 ==> e.radius != 0.0
  }

  /**
   `ForceEmitter::strength_at`: full strength at negative distances, none
   beyond the radius, and a linear falloff in between.
   */
  function StrengthAt(e: ForceEmitter, distance: real): (s: real)
    requires Defined(e, distance)
    ensures distance < 0.0 ==> s == e.strength
    ensures distance >= 0.0 && distance > e.radius ==> s == 0.0
  {
    if distance < 0.0 then e.strength
    else if distance > e.radius then 0.0
    else (1.0 - distance / e.radius) * e.strength
  }

  /** The values the source's unit test pins down for strength 10 and radius 5. */
  lemma StrengthAtRegression()
    ensures StrengthAt(ForceEmitter(5.0, 10.0), 0.0) == 10.0
    ensures StrengthAt(ForceEmitter(5.0, 10.0), 5.0) == 0.0
    ensures StrengthAt(ForceEmitter(5.0, 10.0), 2.5) == 5.0
    ensures StrengthAt(ForceEmitter(5.0, 10.0), 1.0) == 8.0
  {
  }

  /** For a non-negative strength and a positive radius, the strength felt never exceeds the emitter's nor drops below zero. */
  lemma StrengthAtBounds(e: ForceEmitter, distance: real)
    requires e.strength >= 0.0 && e.radius > 0.0 && distance >= 0.0
    ensures 0.0 <= StrengthAt(e, distance) <= e.strength
  {
    if distance <= e.radius {
      var f := distance / e.radius;
      DivBounds(distance, e.radius);
      MulNonNegative(1.0 - f, e.strength);
      MulMonotone(1.0 - f, 1.0, e.strength);
    }
  }

  /** Further away never means stronger: the falloff is non-increasing in the distance. */
  lemma StrengthAtMonotone(e: ForceEmitter, d1: real, d2: real)
    requires e.strength >= 0.0 && e.radius > 0.0 && 0.0 <= d1 <= d2
    ensures StrengthAt(e, d2) <= StrengthAt(e, d1)
  {
    StrengthAtBounds(e, d1);
    if d2 <= e.radius {
      DivMonotone(d1, d2, e.radius);
      MulMonotone(1.0 - d2 / e.radius, 1.0 - d1 / e.radius, e.strength);
    }
  }

  /** A share `d / r` of a positive `r`, for `0 <= d <= r`, lies in `[0, 1]`. */
  lemma DivBounds(d: real, r: real)
    requires 0.0 <= d <= r && r > 0.0
    ensures 0.0 <= d / r <= 1.0
  {
  }

  /** Dividing by a positive number keeps the order. */
  lemma DivMonotone(a: real, b: real, c: real)
    requires a <= b && c > 0.0
    ensures a / c <= b / c
  {
    assert b / c - a / c == (b - a) / c;
  }

  /** Scaling by a non-negative factor keeps the order. */
  lemma MulMonotone(a: real, b: real, c: real)
    requires a <= b && c >= 0.0
    ensures a * c <= b * c
  {
    assert b * c - a * c == (b - a) * c;
    MulNonNegative(b - a, c);
  }

  lemma MulNonNegative(a: real, b: real)
    requires a >= 0.0 && b >= 0.0
    ensures a * b >= 0.0
  {
  }

  /** The falloff reaches exactly zero at the radius, meeting the out-of-range value. */
  lemma StrengthAtEdge(e: ForceEmitter)
    requires e.radius > 0.0
    ensures StrengthAt(e, e.radius) == 0.0
  {
  }

  /** How strongly a receiver springs back; `ForceReceiver::default()` has 0.5. */
  datatype ForceReceiver = ForceReceiver(restitution: real)

  function DefaultReceiver(): (r: ForceReceiver)
    ensures r.restitution == 0.5
  {
    ForceReceiver(0.5)
  }

  /** A receiver's accumulated `Force` and whether it carries the `IsForceApplied` marker. */
  datatype ReceiverState = ReceiverState(force: real, applied: bool)

  /** An emitter at `distance` from the receiver reaches it. */
  predicate InRange(e: ForceEmitter, distance: real) {
    distance <= e.radius
  }

  /** Every emitter's distance is a length, and its falloff is defined there. */
  predicate Measured(emitters: seq<ForceEmitter>, distances: seq<real>) {
    |emitters| == |distances| &&
    forall i :: 0 <= i < |emitters| ==> distances[i] >= 0.0 && Defined(emitters[i], distances[i])
  }

  /** Reference sum of the pushes from the emitters in range, over a frame of `dt` seconds. */
  function Contribution(emitters: seq<ForceEmitter>, distances: seq<real>, dt: real): real
    requires Measured(emitters, distances)
    decreases |emitters|
  {
    if |emitters| == 0 then 0.0
    else
      (if InRange(emitters[0], distances[0]) then StrengthAt(emitters[0], distances[0]) * dt else 0.0)
      + Contribution(emitters[1..], distances[1..], dt)
  }

  /** Some emitter reaches the receiver. */
  predicate AnyInRange(emitters: seq<ForceEmitter>, distances: seq<real>)
    requires |emitters| == |distances|
  {
    exists i :: 0 <= i < |emitters| && InRange(emitters[i], distances[i])
  }

  /** Emitters of non-negative strength and positive radius only ever push, over a non-negative frame time. */
  lemma {:induction false} ContributionNonNegative(emitters: seq<ForceEmitter>, distances: seq<real>, dt: real)
    requires Measured(emitters, distances) && dt >= 0.0
    requires forall i :: 0 <= i < |emitters| ==> emitters[i].strength >= 0.0 && emitters[i].radius > 0.0
    ensures Contribution(emitters, distances, dt) >= 0.0
    decreases |emitters|
  {
    if |emitters| > 0 {
      StrengthAtBounds(emitters[0], distances[0]);
      ContributionNonNegative(emitters[1..], distances[1..], dt);
    }
  }

  /** An emitter out of range adds nothing: dropping it leaves the sum unchanged. */
  lemma {:induction false} OutOfRangeAddsNothing(emitters: seq<ForceEmitter>, distances: seq<real>, dt: real, k: nat)
    requires Measured(emitters, distances) && k < |emitters| && !InRange(emitters[k], distances[k])
    ensures Measured(emitters[..k] + emitters[k + 1..], distances[..k] + distances[k + 1..])
    ensures Contribution(emitters[..k] + emitters[k + 1..], distances[..k] + distances[k + 1..], dt)
      == Contribution(emitters, distances, dt)
    decreases k
  {
    var es := emitters[..k] + emitters[k + 1..];
    var ds := distances[..k] + distances[k + 1..];
    assert |es| == |ds| == |emitters| - 1;
    forall i | 0 <= i < |es| ensures ds[i] >= 0.0 && Defined(es[i], ds[i]) {
      if i < k {
        assert es[i] == emitters[i] && ds[i] == distances[i];
      } else {
        assert es[i] == emitters[i + 1] && ds[i] == distances[i + 1];
      }
    }
    if k == 0 {
      assert es == emitters[1..] && ds == distances[1..];
    } else {
      OutOfRangeAddsNothing(emitters[1..], distances[1..], dt, k - 1);
      assert es[0] == emitters[0] && ds[0] == distances[0];
      assert es[1..] == emitters[1..][..k - 1] + emitters[1..][k..];
      assert ds[1..] == distances[1..][..k - 1] + distances[1..][k..];
    }
  }

  /**
   `apply_force` for one receiver: every emitter in range adds its strength
   at that distance times the frame time; the marker is inserted the first
   time an emitter reaches a receiver that did not carry it.
   */
  method ApplyForce(st: ReceiverState, emitters: seq<ForceEmitter>, distances: seq<real>, dt: real)
    returns (st': ReceiverState, inserts: nat)
    requires Measured(emitters, distances)
    ensures st'.force == st.force + Contribution(emitters, distances, dt)
    ensures st'.applied <==> st.applied || AnyInRange(emitters, distances)
    ensures inserts <= 1
    ensures inserts == 1 <==> !st.applied && AnyInRange(emitters, distances)
  {
    var force := st.force;
    var applied := st.applied;
    inserts := 0;
    var i := 0;
    while i < |emitters|
      invariant 0 <= i <= |emitters|
      invariant force + Contribution(emitters[i..], distances[i..], dt) == st.force + Contribution(emitters, distances, dt)
      invariant applied <==> st.applied || exists j :: 0 <= j < i && InRange(emitters[j], distances[j])
      invariant inserts <= 1
      invariant inserts == 1 <==> !st.applied && applied
    {
      assert emitters[i..][1..] == emitters[i + 1..] && distances[i..][1..] == distances[i + 1..];
      if InRange(emitters[i], distances[i]) {
        force := force + StrengthAt(emitters[i], distances[i]) * dt;
        if !applied {
          applied := true;
          inserts := inserts + 1;
        }
      }
      i := i + 1;
    }
    st' := ReceiverState(force, applied);
  }

  /** Below this, a force counts as imperceptible. */
  const EPSILON: real := 0.0001

  /**
   `reduce_force` for one receiver, which only runs while the marker is
   present: an imperceptible force on a springy receiver snaps to zero and
   loses the marker; otherwise the force loses `force * restitution * dt`.
   */
  function ReduceForce(r: ForceReceiver, st: ReceiverState, dt: real): (st': ReceiverState)
    ensures !st.applied ==> st' == st
    ensures st.applied && st.force < EPSILON && r.restitution > 0.0 ==> st' == ReceiverState(0.0, false)
    ensures st.applied && !(st.force < EPSILON && r.restitution > 0.0) ==>
      st'.applied && st'.force == st.force * (1.0 - r.restitution * dt)
  {
    if !st.applied then st
    else if st.force < EPSILON && r.restitution > 0.0 then ReceiverState(0.0, false)
    else ReceiverState(st.force - st.force * r.restitution * dt, true)
  }

  /** A non-negative force stays non-negative and never grows, provided `restitution * dt` lies in `[0, 1]`. */
  lemma ReduceForceStaysNonNegative(r: ForceReceiver, st: ReceiverState, dt: real)
    requires st.force >= 0.0 && 0.0 <= r.restitution * dt <= 1.0
    ensures 0.0 <= ReduceForce(r, st, dt).force
    ensures ReduceForce(r, st, dt).force <= st.force
  {
    if st.applied && !(st.force < EPSILON && r.restitution > 0.0) {
      var f, k := st.force, r.restitution * dt;
      var loss := f * r.restitution * dt;
      MulAssociates(f, r.restitution, dt);
      assert loss == f * k;
      MulNonNegative(f, k);
      MulMonotone(k, 1.0, f);
      assert k * f == f * k;
      assert ReduceForce(r, st, dt).force == f - loss;
    }
  }

  lemma MulAssociates(a: real, b: real, c: real)
    ensures a * b * c == a * (b * c)
  {
  }

  /** Without that bound the relaxation overshoots: nothing clamps the force at zero. */
  lemma ReduceForceCanGoNegative()
    ensures ReduceForce(ForceReceiver(0.5), ReceiverState(1.0, true), 3.0).force < 0.0
  {
  }

  /** After a snap the receiver is idle: further relaxation steps leave it untouched. */
  lemma SnappedReceiverIsIdle(r: ForceReceiver, st: ReceiverState, dt1: real, dt2: real)
    requires st.applied && st.force < EPSILON && r.restitution > 0.0
    ensures var st' := ReduceForce(r, st, dt1);
      st'.force == 0.0 && !st'.applied && ReduceForce(r, st', dt2) == st'
  {
  }
}
