/**
 The player's score (src/score.rs): each scoring event adds its base score
 times the chain length plus one, times the current combo, and raises the
 combo by one; the combo falls back to 1 once a second passes with no
 scoring. Score and combo are `u128`; an addition or multiplication that
 leaves that range panics (debug build), modelled as a missing result.
 */
module Scores {
  import opened Base
  import opened Timers

  datatype PlayerScore = PlayerScore(score: nat, combo: nat, comboTimer: Timer, largestChain: nat)

  /** `IncreaseScoreEvent`: a base score and the number of tower triggers chained before it. */
  datatype IncreaseScoreEvent = IncreaseScoreEvent(score: nat, chainLength: nat)

  /** Score and combo are `u128` values. */
  predicate FitsU128(ps: PlayerScore) {
    ps.score <= U128_MAX && ps.combo <= U128_MAX
  }

  /** `PlayerScore::default()`: no score, combo 1, a one-second combo timer, no chain yet. */
  function DefaultScore(): (ps: PlayerScore)
    ensures ps.score == 0 && ps.combo == 1 && ps.largestChain == 0 && FitsU128(ps)
    ensures ps.comboTimer == NewTimer(1 * NANOS_PER_SEC)
  {
    PlayerScore(0, 1, NewTimer(1 * NANOS_PER_SEC), 0)
  }

  /** One event of `increase_score`, every `u128` operation checked in source order. */
  function ScoreEvent(ps: PlayerScore, ev: IncreaseScoreEvent): (r: Option<PlayerScore>)
    ensures r.Some? ==> r.value.comboTimer == ps.comboTimer && FitsU128(r.value)
  {
    var chain := 1 + ev.chainLength;
    var base := ev.score * chain;
    if base > U128_MAX then None
    else
      var gained := base * ps.combo;
      if gained > U128_MAX || ps.score + gained > U128_MAX || ps.combo + 1 > U128_MAX then None
      else Some(PlayerScore(
        ps.score + gained,
        ps.combo + 1,
        ps.comboTimer,
        if ev.chainLength > ps.largestChain then ev.chainLength else ps.largestChain))
  }

  /** The events of a frame applied in order, stopping at the first overflow. */
  function ScoreEvents(ps: PlayerScore, events: seq<IncreaseScoreEvent>): (r: Option<PlayerScore>)
    decreases |events|
  {
    if |events| == 0 then Some(ps)
    else match ScoreEvent(ps, events[0])
      case None => None
      case Some(ps') => ScoreEvents(ps', events[1..])
  }

  /** `increase_score`: reset the combo timer, then score every event of the frame. */
  function IncreaseScore(ps: PlayerScore, events: seq<IncreaseScoreEvent>): (r: Option<PlayerScore>)
  {
    ScoreEvents(ps.(comboTimer := Reset(ps.comboTimer)), events)
  }

  /** Reference total gain of a run of events scored from combo `combo` on, in unbounded arithmetic. */
  function Gain(events: seq<IncreaseScoreEvent>, combo: nat): nat
    decreases |events|
  {
    if |events| == 0 then 0
    else events[0].score * (1 + events[0].chainLength) * combo + Gain(events[1..], combo + 1)
  }

  /** Reference longest chain: the largest of `m` and the events' chain lengths. */
  function MaxChain(events: seq<IncreaseScoreEvent>, m: nat): (r: nat)
    ensures r >= m
    ensures forall i :: 0 <= i < |events| ==> r >= events[i].chainLength
    ensures r == m || exists i :: 0 <= i < |events| && r == events[i].chainLength
    decreases |events|
  {
    if |events| == 0 then m
    else MaxChain(events[1..], if events[0].chainLength > m then events[0].chainLength else m)
  }

  /**
   With a combo of at least 1, a frame's scoring succeeds exactly when the
   final score and combo fit in `u128`; it then adds the reference gain,
   raises the combo by the number of events, records the longest chain and
   leaves the reset combo timer.
   */
  lemma {:induction false} IncreaseScoreMeaning(ps: PlayerScore, events: seq<IncreaseScoreEvent>)
    requires FitsU128(ps) && ps.combo >= 1
    ensures var r := IncreaseScore(ps, events);
      && (r.Some? <==> ps.score + Gain(events, ps.combo) <= U128_MAX && ps.combo + |events| <= U128_MAX)
      && (r.Some? ==>
        && r.value.score == ps.score + Gain(events, ps.combo)
        && r.value.combo == ps.combo + |events|
        && r.value.largestChain == MaxChain(events, ps.largestChain)
        && r.value.comboTimer == Reset(ps.comboTimer))
  {
    ScoreEventsMeaning(ps.(comboTimer := Reset(ps.comboTimer)), events);
  }

  lemma {:induction false} ScoreEventsMeaning(ps: PlayerScore, events: seq<IncreaseScoreEvent>)
    requires FitsU128(ps) && ps.combo >= 1
    ensures var r := ScoreEvents(ps, events);
      && (r.Some? <==> ps.score + Gain(events, ps.combo) <= U128_MAX && ps.combo + |events| <= U128_MAX)
      && (r.Some? ==>
        && r.value.score == ps.score + Gain(events, ps.combo)
        && r.value.combo == ps.combo + |events|
        && r.value.largestChain == MaxChain(events, ps.largestChain)
        && r.value.comboTimer == ps.comboTimer)
    decreases |events|
  {
    if |events| > 0 {
      var ev := events[0];
      var base := ev.score * (1 + ev.chainLength);
      var gained := base * ps.combo;
      assert ev.score * (1 + ev.chainLength) * ps.combo == gained;
      ProductBounds(ev.score, 1 + ev.chainLength, ps.combo);
      var r := ScoreEvent(ps, ev);
      assert Gain(events, ps.combo) == gained + Gain(events[1..], ps.combo + 1);
      if r.Some? {
        assert r.value.score == ps.score + gained && r.value.combo == ps.combo + 1;
        assert ScoreEvents(ps, events) == ScoreEvents(r.value, events[1..]);
        ScoreEventsMeaning(r.value, events[1..]);
      } else {
        assert ScoreEvents(ps, events) == None;
        assert base <= gained;
        assert ps.score + Gain(events, ps.combo) >= ps.score + gained;
      }
    }
  }

  /** Multiplying by factors of at least 1 never shrinks a product. */
  lemma ProductBounds(s: nat, chain: nat, combo: nat)
    requires chain >= 1 && combo >= 1
    ensures s * chain <= s * chain * combo
  {
    assert s * chain * combo == s * chain + s * chain * (combo - 1);
  }

  /** Scoring never lowers the score or the longest chain, and never lets the combo drop. */
  lemma IncreaseScoreMonotone(ps: PlayerScore, events: seq<IncreaseScoreEvent>)
    requires FitsU128(ps) && ps.combo >= 1
    ensures var r := IncreaseScore(ps, events);
      r.Some? ==> r.value.score >= ps.score && r.value.largestChain >= ps.largestChain && r.value.combo >= ps.combo
  {
    IncreaseScoreMeaning(ps, events);
  }

  /** One frame of `tick_combo`: the ticked score, and whether a `ComboResetEvent` is written. */
  function TickCombo(ps: PlayerScore, dt: nat): (r: (PlayerScore, bool))
    requires Valid(ps.comboTimer)
    ensures r.0.comboTimer == Tick(ps.comboTimer, dt)
    ensures r.1 <==> ps.comboTimer.finished || ps.comboTimer.elapsed + dt >= ps.comboTimer.duration
    ensures r.1 ==> r.0.combo == 1
    ensures !r.1 ==> r.0.combo == ps.combo
    ensures r.0.score == ps.score && r.0.largestChain == ps.largestChain
  {
    var t := Tick(ps.comboTimer, dt);
    if t.finished then (ps.(comboTimer := t, combo := 1), true) else (ps.(comboTimer := t), false)
  }

  /** A once-finished combo timer resets the combo, with an event, on every later tick until scoring resets it. */
  lemma {:induction false} ComboResetRepeats(ps: PlayerScore, dts: seq<nat>)
    requires Valid(ps.comboTimer) && ps.comboTimer.finished
    ensures ComboResets(ps, dts) == |dts|
    decreases |dts|
  {
    if |dts| > 0 {
      ComboResetRepeats(TickCombo(ps, dts[0]).0, dts[1..]);
    }
  }

  /** How many of a run of quiet frames write a `ComboResetEvent`. */
  function ComboResets(ps: PlayerScore, dts: seq<nat>): nat
    requires Valid(ps.comboTimer)
    decreases |dts|
  {
    if |dts| == 0 then 0
    else
      var r := TickCombo(ps, dts[0]);
      (if r.1 then 1 else 0) + ComboResets(r.0, dts[1..])
  }

  /** What one frame of the score systems produces: the new score, and whether the combo was reset. */
  datatype ScoreFrameResult = Overflowed | Scored(ps: PlayerScore, comboReset: bool)

  /** One frame: `increase_score` when there are score events, `tick_combo` only when there are none. */
  function ScoreFrame(ps: PlayerScore, events: seq<IncreaseScoreEvent>, dt: nat): (r: ScoreFrameResult)
    requires Valid(ps.comboTimer)
  {
    if |events| == 0 then
      var t := TickCombo(ps, dt);
      Scored(t.0, t.1)
    else match IncreaseScore(ps, events)
      case None => Overflowed
      case Some(ps') => Scored(ps', false)
  }

  /**
   A frame with score events never resets the combo and leaves a fresh
   combo timer; the combo stays at least 1 in every frame.
   */
  lemma ScoreFrameKeepsCombo(ps: PlayerScore, events: seq<IncreaseScoreEvent>, dt: nat)
    requires Valid(ps.comboTimer) && FitsU128(ps) && ps.combo >= 1
    ensures var r := ScoreFrame(ps, events, dt);
      && (r.Scored? ==> r.ps.combo >= 1 && FitsU128(r.ps) && Valid(r.ps.comboTimer))
      && (r.Scored? && |events| > 0 ==> !r.comboReset && r.ps.comboTimer == NewTimer(ps.comboTimer.duration))
  {
    if |events| > 0 {
      IncreaseScoreMeaning(ps, events);
    }
  }
}
