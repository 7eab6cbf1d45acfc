/** The thermal governor: staged caps on the bitrate, and the ramp back. */
module ThermalGovernor {
  import opened Options

  const LIMIT_MULTIPLIER: real := 0.70
  const EMERGENCY_MULTIPLIER: real := 0.50
  const EPSILON: real := 0.0000000000000002220446049250313

  /** Milliseconds. */
  type Instant = int

  datatype Config = Config(enabled: bool, pollIntervalSeconds: nat, warn: int, limit: int, emergency: int,
                           recoverySeconds: nat)

  datatype Recovery = Recovery(startedAt: Instant, start: real)

  datatype State = State(lastPoll: Option<Instant>, multiplier: real, recovery: Option<Recovery>)

  const START: State := State(None, 1.0, None)

  /** A reading, or none if the source has none at the moment. */
  datatype Tick = Tick(now: Instant, reading: Option<int>)

  function Elapsed(from: Instant, now: Instant): nat {
    if now < from then 0 else now - from
  }

  /** The share of the recovery time that has passed. */
  function Progress(cfg: Config, elapsed: nat): (p: real)
    ensures 0.0 <= p <= 1.0
    ensures elapsed >= 1000 * cfg.recoverySeconds && elapsed >= 1000 ==> p == 1.0
  {
    var total := 1000 * (if cfg.recoverySeconds == 0 then 1 else cfg.recoverySeconds);
    if elapsed >= total then 1.0
    else
      FractionBelowOne(elapsed, total);
      elapsed as real / total as real
  }

  lemma FractionBelowOne(n: nat, d: nat)
    requires n < d
    ensures 0.0 <= n as real / d as real < 1.0
  {
  }

  /** The ramp from a cap back to none, done once it is within rounding of it. */
  function Ramp(cfg: Config, start: real, elapsed: nat): real {
    var m := start + (1.0 - start) * Progress(cfg, elapsed);
    if m >= 1.0 - EPSILON then 1.0 else m
  }

  predicate Skipped(cfg: Config, s: State, now: Instant) {
    s.lastPoll.Some? && Elapsed(s.lastPoll.value, now) < 1000 * cfg.pollIntervalSeconds
  }

  /** A poll below the warning temperature. */
  function Cooled(cfg: Config, s: State, now: Instant): State {
    var recovery := if s.multiplier < 1.0 && s.recovery.None? then Some(Recovery(now, s.multiplier)) else s.recovery;
    if recovery.None? then State(Some(now), 1.0, None)
    else
      var m := Ramp(cfg, recovery.value.start, Elapsed(recovery.value.startedAt, now));
      State(Some(now), m, if m == 1.0 then None else recovery)
  }

  function Polled(cfg: Config, s: State, now: Instant, reading: Option<int>): State {
    if reading.None? then State(Some(now), 1.0, s.recovery)
    else if reading.value >= cfg.emergency then State(Some(now), EMERGENCY_MULTIPLIER, None)
    else if reading.value >= cfg.limit then State(Some(now), LIMIT_MULTIPLIER, None)
    else if reading.value >= cfg.warn then State(Some(now), s.multiplier, None)
    else Cooled(cfg, s, now)
  }

  function Step(cfg: Config, s: State, t: Tick): State {
    if !cfg.enabled then State(s.lastPoll, 1.0, None)
    else if Skipped(cfg, s, t.now) then s
    else Polled(cfg, s, t.now, t.reading)
  }

  function Run(cfg: Config, s: State, ticks: seq<Tick>): State {
    if ticks == [] then s else Step(cfg, Run(cfg, s, ticks[..|ticks| - 1]), ticks[|ticks| - 1])
  }

  class Governor {
    const config: Config
    var lastPoll: Option<Instant>
    var lastMultiplier: real
    var recovery: Option<Recovery>

    ghost function Value(): State
      reads this
    {
      State(lastPoll, lastMultiplier, recovery)
    }

    constructor (config: Config)
      ensures this.config == config && Value() == START
    {
      this.config := config;
      lastPoll, lastMultiplier, recovery := None, 1.0, None;
    }

    /** The multiplier after a poll, or none if it is too early for one. */
    method TickAt(now: Instant, reading: Option<int>) returns (multiplier: Option<real>)
      requires Sane(Value())
      modifies this
      ensures Value() == Step(config, old(Value()), Tick(now, reading))
      ensures multiplier == if config.enabled && Skipped(config, old(Value()), now) then None else Some(lastMultiplier)
    {
      if !config.enabled {
        lastMultiplier := 1.0;
        recovery := None;
        return Some(1.0);
      }
      if lastPoll.Some? {
        if Elapsed(lastPoll.value, now) < 1000 * config.pollIntervalSeconds {
          return None;
        }
      }
      lastPoll := Some(now);
      if reading.None? {
        lastMultiplier := 1.0;
        return Some(1.0);
      }
      var m;
      if reading.value >= config.emergency {
        recovery := None;
        m := EMERGENCY_MULTIPLIER;
      } else if reading.value >= config.limit {
        recovery := None;
        m := LIMIT_MULTIPLIER;
      } else if reading.value >= config.warn {
        recovery := None;
        m := lastMultiplier;
      } else {
        m := Cool(now);
      }
      lastMultiplier := m;
      return Some(m);
    }

    method Cool(now: Instant) returns (m: real)
      modifies this`recovery
      ensures State(Some(now), m, recovery) == Cooled(config, old(Value()), now)
    {
      if lastMultiplier < 1.0 && recovery.None? {
        recovery := Some(Recovery(now, lastMultiplier));
      }
      if recovery.None? {
        return 1.0;
      }
      var progress := Progress(config, Elapsed(recovery.value.startedAt, now));
      m := recovery.value.start + (1.0 - recovery.value.start) * progress;
      if m >= 1.0 - EPSILON {
        recovery := None;
        m := 1.0;
      }
    }
  }

  // ---- bounds over every run ----

  /** The cap lies between a half and none, and a recovery starts from a cap. */
  predicate Sane(s: State) {
    0.5 <= s.multiplier <= 1.0 && (s.recovery.Some? ==> 0.5 <= s.recovery.value.start < 1.0)
  }

  lemma Blend(start: real, p: real)
    requires start <= 1.0 && 0.0 <= p <= 1.0
    ensures start <= start + (1.0 - start) * p <= 1.0
  {
    var room, rest := 1.0 - start, 1.0 - p;
    NonNegative(room, p);
    NonNegative(room, rest);
    assert room * p + room * rest == room;
  }

  lemma NonNegative(a: real, b: real)
    requires a >= 0.0 && b >= 0.0
    ensures a * b >= 0.0
  {
  }

  lemma RampBounds(cfg: Config, start: real, elapsed: nat)
    requires start <= 1.0
    ensures start <= Ramp(cfg, start, elapsed) <= 1.0
  {
    var p := Progress(cfg, elapsed);
    Blend(start, p);
    var m := start + (1.0 - start) * p;
    assert Ramp(cfg, start, elapsed) == if m >= 1.0 - EPSILON then 1.0 else m;
  }

  lemma StepIsSane(cfg: Config, s: State, t: Tick)
    requires Sane(s)
    ensures Sane(Step(cfg, s, t))
  {
    if s.recovery.Some? {
      RampBounds(cfg, s.recovery.value.start, Elapsed(s.recovery.value.startedAt, t.now));
    }
    RampBounds(cfg, s.multiplier, Elapsed(t.now, t.now));
  }

  /** Over every run, whatever the readings and the clock. */
  lemma {:induction false} AlwaysSane(cfg: Config, ticks: seq<Tick>)
    ensures Sane(Run(cfg, START, ticks))
  {
    if ticks != [] {
      AlwaysSane(cfg, ticks[..|ticks| - 1]);
      StepIsSane(cfg, Run(cfg, START, ticks[..|ticks| - 1]), ticks[|ticks| - 1]);
    }
  }

  // ---- the ramp in time ----

  lemma ProgressOrder(cfg: Config, a: nat, b: nat)
    requires a <= b
    ensures Progress(cfg, a) <= Progress(cfg, b)
  {
    var total := 1000 * (if cfg.recoverySeconds == 0 then 1 else cfg.recoverySeconds);
    if b < total {
      FractionOrder(a, b, total);
    }
  }

  lemma FractionOrder(a: nat, b: nat, d: nat)
    requires a <= b && d > 0
    ensures a as real / d as real <= b as real / d as real
  {
  }

  lemma BlendOrder(start: real, p: real, q: real)
    requires start <= 1.0 && p <= q
    ensures start + (1.0 - start) * p <= start + (1.0 - start) * q
  {
    var room, more := 1.0 - start, q - p;
    NonNegative(room, more);
    assert room * q == room * p + room * more;
  }

  lemma RampOrder(cfg: Config, start: real, a: nat, b: nat)
    requires start <= 1.0 && a <= b
    ensures Ramp(cfg, start, a) <= Ramp(cfg, start, b)
  {
    ProgressOrder(cfg, a, b);
    BlendOrder(start, Progress(cfg, a), Progress(cfg, b));
    RampBounds(cfg, start, a);
    RampBounds(cfg, start, b);
  }

  lemma RampStart(cfg: Config, start: real)
    ensures Ramp(cfg, start, 0) == if start >= 1.0 - EPSILON then 1.0 else start
  {
    var total := 1000 * (if cfg.recoverySeconds == 0 then 1 else cfg.recoverySeconds);
    assert 0.0 / total as real == 0.0;
    assert (1.0 - start) * 0.0 == 0.0;
  }

  lemma RampDone(cfg: Config, start: real, elapsed: nat)
    requires elapsed >= 1000 * Max(cfg.recoverySeconds, 1)
    ensures Ramp(cfg, start, elapsed) == 1.0
  {
    assert start + (1.0 - start) * 1.0 == 1.0;
  }

  function Max(a: nat, b: nat): nat {
    if a < b then b else a
  }

  /** Below every threshold. */
  predicate IsCool(cfg: Config, reading: Option<int>) {
    reading.Some? && reading.value < cfg.warn && reading.value < cfg.limit && reading.value < cfg.emergency
  }

  /** The ramp a cool poll is on: the one in flight, or one that starts now. */
  function RampOf(s: State, now: Instant): Recovery {
    if s.recovery.Some? then s.recovery.value else Recovery(now, s.multiplier)
  }

  function RampAt(cfg: Config, r: Recovery, now: Instant): real {
    Ramp(cfg, r.start, Elapsed(r.startedAt, now))
  }

  lemma CooledOnRamp(cfg: Config, s: State, now: Instant)
    requires Sane(s)
    ensures Cooled(cfg, s, now).multiplier == RampAt(cfg, RampOf(s, now), now)
    ensures Cooled(cfg, s, now).recovery
         == if RampAt(cfg, RampOf(s, now), now) == 1.0 then None else Some(RampOf(s, now))
  {
    RampStart(cfg, s.multiplier);
  }

  /** Before its time is up a ramp has gone the share of the way to 1 that has passed of it, up to rounding at its end. */
  lemma RampIsLinear(cfg: Config, start: real, elapsed: nat) returns (x: real)
    requires elapsed < 1000 * Max(cfg.recoverySeconds, 1)
    ensures (x - start) * (1000 * Max(cfg.recoverySeconds, 1)) as real == (1.0 - start) * elapsed as real
    ensures Ramp(cfg, start, elapsed) == if x >= 1.0 - EPSILON then 1.0 else x
  {
    var total := 1000 * Max(cfg.recoverySeconds, 1);
    var p := Progress(cfg, elapsed);
    assert p * total as real == elapsed as real;
    x := start + (1.0 - start) * p;
    assert (x - start) * total as real == (1.0 - start) * (p * total as real);
  }

  /**
   * Switched off there is no cap and no ramp. Otherwise a poll earlier than the interval after the latest one
   * changes nothing; any other is the latest one from then on, and without a reading it lifts the cap and
   * leaves the ramp.
   */
  lemma WhenPolled(cfg: Config, s: State, t: Tick)
    ensures
      var s' := Step(cfg, s, t);
      var early := s.lastPoll.Some? && t.now - s.lastPoll.value < 1000 * cfg.pollIntervalSeconds && cfg.pollIntervalSeconds > 0;
      && (!cfg.enabled ==> s'.multiplier == 1.0 && s'.recovery == None)
      && (cfg.enabled && early ==> s' == s)
      && (cfg.enabled && !early ==> s'.lastPoll == Some(t.now))
      && (cfg.enabled && !early && t.reading.None? ==> s'.multiplier == 1.0 && s'.recovery == s.recovery)
  {
  }

  // ---- the stages ----

  /**
   * A poll by its temperature: capped hard, capped, or held. Below them the cap goes down exactly if a
   * ramp is in flight and lower, and a poll that starts a ramp holds the cap (up to rounding).
   */
  lemma Stages(cfg: Config, s: State, t: Tick)
    requires Sane(s) && cfg.enabled && !Skipped(cfg, s, t.now) && t.reading.Some?
    ensures
      var m := Step(cfg, s, t).multiplier;
      if t.reading.value >= cfg.emergency then m == 0.5
      else if t.reading.value >= cfg.limit then m == 0.7
      else if t.reading.value >= cfg.warn then m == s.multiplier
      else && (m < s.multiplier <==> s.recovery.Some? && RampAt(cfg, s.recovery.value, t.now) < s.multiplier)
           && (s.recovery.None? ==> m == if s.multiplier >= 1.0 - EPSILON then 1.0 else s.multiplier)
  {
    RampStart(cfg, s.multiplier);
  }

  // ---- when a cool poll caps again ----

  /** The clock of a run never goes back. */
  predicate Ordered(from: Instant, ticks: seq<Tick>) {
    ticks == [] || (Ordered(from, ticks[..|ticks| - 1])
                    && LastTime(from, ticks[..|ticks| - 1]) <= ticks[|ticks| - 1].now)
  }

  function LastTime(from: Instant, ticks: seq<Tick>): Instant {
    if ticks == [] then from else ticks[|ticks| - 1].now
  }

  /** The latest poll that was not skipped found no reading. */
  predicate Blind(cfg: Config, ticks: seq<Tick>) {
    ticks != [] && (
      var init, last := ticks[..|ticks| - 1], ticks[|ticks| - 1];
      if Skipped(cfg, Run(cfg, START, init), last.now) then Blind(cfg, init) else last.reading.None?)
  }

  /** A ramp in flight gives the cap as of the latest poll, unless that found no reading. */
  predicate InFlight(cfg: Config, s: State, blind: bool, now: Instant) {
    && Sane(s)
    && (blind ==> s.multiplier == 1.0)
    && (s.lastPoll.Some? ==> s.lastPoll.value <= now)
    && (s.recovery.Some? ==>
          && s.lastPoll.Some? && s.recovery.value.startedAt <= s.lastPoll.value
          && (blind || s.multiplier == RampAt(cfg, s.recovery.value, s.lastPoll.value) < 1.0))
  }

  lemma StepInFlight(cfg: Config, s: State, blind: bool, before: Instant, t: Tick)
    requires cfg.enabled && InFlight(cfg, s, blind, before) && before <= t.now
    ensures InFlight(cfg, Step(cfg, s, t), if Skipped(cfg, s, t.now) then blind else t.reading.None?, t.now)
  {
    StepIsSane(cfg, s, t);
    if !Skipped(cfg, s, t.now) && t.reading.Some? && t.reading.value < cfg.emergency
       && t.reading.value < cfg.limit && t.reading.value < cfg.warn {
      CooledOnRamp(cfg, s, t.now);
      var r := RampOf(s, t.now);
      RampBounds(cfg, r.start, Elapsed(r.startedAt, t.now));
    }
  }

  lemma {:induction false} RunInFlight(cfg: Config, from: Instant, ticks: seq<Tick>)
    requires cfg.enabled && Ordered(from, ticks)
    ensures InFlight(cfg, Run(cfg, START, ticks), Blind(cfg, ticks), LastTime(from, ticks))
  {
    if ticks != [] {
      var init := ticks[..|ticks| - 1];
      RunInFlight(cfg, from, init);
      StepInFlight(cfg, Run(cfg, START, init), Blind(cfg, init), LastTime(from, init), ticks[|ticks| - 1]);
    }
  }

  /**
   * After every run whose clock never goes back, a cool poll takes the cap down exactly if the poll
   * before it found no reading while a ramp was in flight, and that ramp is not over yet.
   */
  lemma OnlyBlindPollsCapAgain(cfg: Config, from: Instant, ticks: seq<Tick>, t: Tick)
    requires cfg.enabled && Ordered(from, ticks + [t]) && IsCool(cfg, t.reading)
    requires !Skipped(cfg, Run(cfg, START, ticks), t.now)
    ensures
      var s := Run(cfg, START, ticks);
      Step(cfg, s, t).multiplier < s.multiplier <==>
      Blind(cfg, ticks) && s.recovery.Some? && RampAt(cfg, s.recovery.value, t.now) < 1.0
  {
    assert (ticks + [t])[..|ticks|] == ticks;
    RunInFlight(cfg, from, ticks);
    var s := Run(cfg, START, ticks);
    Stages(cfg, s, t);
    if s.recovery.Some? {
      var r := s.recovery.value;
      RampOrder(cfg, r.start, Elapsed(r.startedAt, s.lastPoll.value), Elapsed(r.startedAt, t.now));
      RampBounds(cfg, r.start, Elapsed(r.startedAt, t.now));
    }
  }

  /** The thresholds and times the settings start with, enabled. */
  const INITIAL: Config := Config(true, 5, 75, 85, 90, 30)

  const BLIND_SPOT: seq<Tick> := [Tick(0, Some(95)), Tick(5000, Some(50)), Tick(10000, None), Tick(15000, Some(50))]

  lemma OneMore(cfg: Config, from: Instant, ticks: seq<Tick>, t: Tick)
    ensures Run(cfg, START, ticks + [t]) == Step(cfg, Run(cfg, START, ticks), t)
    ensures Ordered(from, ticks) && LastTime(from, ticks) <= t.now ==> Ordered(from, ticks + [t])
  {
    assert (ticks + [t])[..|ticks + [t]| - 1] == ticks;
  }

  /** It does happen: a missing reading five seconds into a recovery lifts the cap, and the next one restores it. */
  lemma CapsAgain()
    ensures Ordered(0, BLIND_SPOT)
    ensures Run(INITIAL, START, BLIND_SPOT[..3]).multiplier == 1.0
    ensures Run(INITIAL, START, BLIND_SPOT).multiplier == 2.0 / 3.0
  {
    var a, b, c, d := BLIND_SPOT[0], BLIND_SPOT[1], BLIND_SPOT[2], BLIND_SPOT[3];
    OneMore(INITIAL, 0, [], a);
    OneMore(INITIAL, 0, [a], b);
    OneMore(INITIAL, 0, [a, b], c);
    OneMore(INITIAL, 0, [a, b, c], d);
    assert [] + [a] == [a] && [a] + [b] == [a, b] && [a, b] + [c] == [a, b, c] && [a, b, c] + [d] == BLIND_SPOT;
    assert BLIND_SPOT[..3] == [a, b, c];
    RampStart(INITIAL, 0.5);
    assert Run(INITIAL, START, [a, b]) == State(Some(5000), 0.5, Some(Recovery(5000, 0.5)));
    assert Run(INITIAL, START, [a, b, c]) == State(Some(10000), 1.0, Some(Recovery(5000, 0.5)));
    assert Ramp(INITIAL, 0.5, 10000) == 2.0 / 3.0;
  }

  // ---- the ramp over a streak of cool polls ----

  /** Polls below every threshold, each no earlier than the one before. */
  predicate CoolStreak(cfg: Config, from: Instant, ticks: seq<Tick>) {
    ticks == [] || (
      var last := ticks[|ticks| - 1];
      && CoolStreak(cfg, from, ticks[..|ticks| - 1])
      && IsCool(cfg, last.reading) && last.now >= LastTime(from, ticks[..|ticks| - 1]))
  }

  /** The ramp is under way, or done. */
  predicate OnRamp(cfg: Config, s: State, r: Recovery) {
    && s.lastPoll.Some?
    && s.multiplier == RampAt(cfg, r, s.lastPoll.value)
    && s.recovery == if s.multiplier == 1.0 then None else Some(r)
  }

  lemma RampGoesOn(cfg: Config, s: State, r: Recovery, now: Instant)
    requires OnRamp(cfg, s, r) && r.start <= 1.0 && now >= s.lastPoll.value
    ensures OnRamp(cfg, Cooled(cfg, s, now), r) && Cooled(cfg, s, now).multiplier >= s.multiplier
  {
    var a, b := Elapsed(r.startedAt, s.lastPoll.value), Elapsed(r.startedAt, now);
    RampOrder(cfg, r.start, a, b);
    RampBounds(cfg, r.start, a);
    RampBounds(cfg, r.start, b);
  }

  /**
   * From every state, with a ramp in flight or not, over every streak of cool polls: the multiplier is
   * at the latest poll what the ramp then gives, and after the first poll it never goes down.
   */
  lemma {:induction false} StreakFollowsRamp(cfg: Config, s: State, first: Tick, ticks: seq<Tick>)
    requires cfg.enabled && Sane(s) && !Skipped(cfg, s, first.now)
    requires IsCool(cfg, first.reading) && CoolStreak(cfg, first.now, ticks)
    ensures
      var state := Run(cfg, Step(cfg, s, first), ticks);
      && OnRamp(cfg, state, RampOf(s, first.now))
      && state.lastPoll.value <= LastTime(first.now, ticks)
      && (ticks != [] ==> state.multiplier >= Run(cfg, Step(cfg, s, first), ticks[..|ticks| - 1]).multiplier)
    decreases |ticks|
  {
    var begun := Step(cfg, s, first);
    if ticks == [] {
      CooledOnRamp(cfg, s, first.now);
    } else {
      var init, last := ticks[..|ticks| - 1], ticks[|ticks| - 1];
      StreakFollowsRamp(cfg, s, first, init);
      var before := Run(cfg, begun, init);
      if !Skipped(cfg, before, last.now) {
        RampGoesOn(cfg, before, RampOf(s, first.now), last.now);
      }
    }
  }

  /** The first poll at or after the recovery time, and every later one of the streak, is without a cap. */
  lemma RecoveryEnds(cfg: Config, s: State, first: Tick, ticks: seq<Tick>)
    requires cfg.enabled && Sane(s) && !Skipped(cfg, s, first.now)
    requires IsCool(cfg, first.reading) && CoolStreak(cfg, first.now, ticks)
    ensures
      var state := Run(cfg, Step(cfg, s, first), ticks);
      state.lastPoll.Some?
      && (state.lastPoll.value - RampOf(s, first.now).startedAt >= 1000 * Max(cfg.recoverySeconds, 1) ==>
            state.multiplier == 1.0 && state.recovery == None)
  {
    StreakFollowsRamp(cfg, s, first, ticks);
    var r, state := RampOf(s, first.now), Run(cfg, Step(cfg, s, first), ticks);
    if state.lastPoll.value - r.startedAt >= 1000 * Max(cfg.recoverySeconds, 1) {
      RampDone(cfg, r.start, Elapsed(r.startedAt, state.lastPoll.value));
    }
  }
}
