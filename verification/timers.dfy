/**
 Bevy's `Timer` in `TimerMode::Once`, the only mode the game uses. Times
 are `Duration`s counted in whole nanoseconds. A timer that has finished
 stays finished; `just_finished` holds only on the tick that crossed the
 duration.
 */
module Timers {

  /** Nanoseconds per second. */
  const NANOS_PER_SEC: nat := 1_000_000_000

  /** Nanoseconds per millisecond. */
  const NANOS_PER_MILLI: nat := 1_000_000

  datatype Timer = Timer(elapsed: nat, duration: nat, finished: bool, justFinished: bool)

  /** The shape every timer keeps: elapsed time never passes the duration, a finished timer sits at its duration. */
  predicate Valid(t: Timer) {
    && t.elapsed <= t.duration
    && (t.finished ==> t.elapsed == t.duration)
    && (t.justFinished ==> t.finished)
  }

  /** `Timer::new(duration, TimerMode::Once)`. */
  function NewTimer(duration: nat): (t: Timer)
    ensures Valid(t) && t.duration == duration
    ensures t.elapsed == 0 && !t.finished && !t.justFinished
  {
    Timer(0, duration, false, false)
  }

  /** `Duration::as_secs_f32` of a tick, in exact arithmetic. */
  function Secs(dt: nat): real {
    dt as real / NANOS_PER_SEC as real
  }

  /** `Timer::tick(delta)`. */
  function Tick(t: Timer, dt: nat): (r: Timer)
    requires Valid(t)
    ensures Valid(r) && r.duration == t.duration
    ensures r.finished <==> t.finished || t.elapsed + dt >= t.duration
    ensures r.justFinished <==> !t.finished && r.finished
    ensures !r.finished ==> r.elapsed == t.elapsed + dt
  {
    if t.finished then t.(justFinished := false)
    else if t.elapsed + dt >= t.duration then Timer(t.duration, t.duration, true, true)
    else Timer(t.elapsed + dt, t.duration, false, false)
  }

  /** `Timer::reset()`. */
  function Reset(t: Timer): (r: Timer)
    ensures r == NewTimer(t.duration)
  {
    t.(elapsed := 0, finished := false, justFinished := false)
  }

  /** The timer after ticking once per element of `dts`. */
  function TickAll(t: Timer, dts: seq<nat>): (r: Timer)
    requires Valid(t)
    ensures Valid(r) && r.duration == t.duration
    decreases |dts|
  {
    if |dts| == 0 then t else TickAll(Tick(t, dts[0]), dts[1..])
  }

  /** How many of the ticks in `dts` report `just_finished`. */
  function JustFinishedCount(t: Timer, dts: seq<nat>): nat
    requires Valid(t)
    decreases |dts|
  {
    if |dts| == 0 then 0
    else
      var t' := Tick(t, dts[0]);
      (if t'.justFinished then 1 else 0) + JustFinishedCount(t', dts[1..])
  }

  /** A once-timer reports `just_finished` on at most one tick, and never after it has finished. */
  lemma {:induction false} JustFinishedAtMostOnce(t: Timer, dts: seq<nat>)
    requires Valid(t)
    ensures JustFinishedCount(t, dts) <= 1
    ensures t.finished ==> JustFinishedCount(t, dts) == 0
    decreases |dts|
  {
    if |dts| > 0 {
      JustFinishedAtMostOnce(Tick(t, dts[0]), dts[1..]);
    }
  }

  /** A once-timer that has finished stays finished under any further ticks. */
  lemma {:induction false} FinishedStaysFinished(t: Timer, dts: seq<nat>)
    requires Valid(t) && t.finished
    ensures TickAll(t, dts).finished
    decreases |dts|
  {
    if |dts| > 0 {
      FinishedStaysFinished(Tick(t, dts[0]), dts[1..]);
    }
  }
}
