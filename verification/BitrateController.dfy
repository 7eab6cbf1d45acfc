/** The adaptive bitrate: arbitration between signals, bounds, and recovery. */
module BitrateController {
  import opened Options

  const MIN_BITRATE_MBPS: nat := 10
  const MAX_BITRATE_MBPS: nat := 200
  const MEGA: nat := 1_000_000
  const FLOOR: nat := MIN_BITRATE_MBPS * MEGA
  const HYSTERESIS: int := 10_000
  const TARGET_LOSS: real := 0.02

  datatype LossPattern = Quiet | Burst | Sustained

  datatype Dominant = NoChange | SustainedLoss | Loss | Delay | Thermal | Increase | Floor

  /** The network as one adjustment sees it. */
  datatype Signals = Signals(loss: real, delayGradient: real, burst: LossPattern)

  datatype Inputs = Inputs(current: nat, signals: Signals, hysteresisElapsed: bool, targetLoss: real,
                           min: nat, hardMax: nat, thermal: Option<nat>)

  datatype Outcome = Outcome(target: nat, dominant: Dominant)

  /** The multiplier in percent, and the signal behind it. */
  function Multiplier(i: Inputs): (int, Dominant) {
    var s := i.signals;
    var reduced :=
      if s.burst.Sustained? then (80, SustainedLoss)
      else
        var delayed := if s.delayGradient > 2.0 then (90, Delay) else (100, NoChange);
        if s.loss > 0.05 then (80, Loss)
        else if s.loss > i.targetLoss && 95 < delayed.0 then (95, Loss)
        else delayed;
    if reduced.0 >= 100 && i.hysteresisElapsed && s.loss < 0.01 then (105, Increase) else reduced
  }

  function Min(a: nat, b: nat): nat {
    if a < b then a else b
  }

  function Max(a: nat, b: nat): nat {
    if a < b then b else a
  }

  /** Floor, maximum and thermal ceiling on a candidate; the floor wins. */
  function Clamp(candidate: nat, min: nat, hardMax: nat, thermal: Option<nat>): nat {
    var top := if thermal.Some? then Min(hardMax, thermal.value) else hardMax;
    Max(Min(candidate, top), min)
  }

  function ClampDominant(candidate: nat, target: nat, thermal: Option<nat>, network: Dominant): Dominant {
    if target > candidate then Floor
    else if thermal.Some? && target == thermal.value && thermal.value < candidate then Thermal
    else network
  }

  function Candidate(i: Inputs): nat {
    if i.signals.burst.Burst? then i.current else i.current * Multiplier(i).0 / 100
  }

  function Arbitrate(i: Inputs): Outcome {
    var network := if i.signals.burst.Burst? then NoChange else Multiplier(i).1;
    var target := Clamp(Candidate(i), i.min, i.hardMax, i.thermal);
    Outcome(target, ClampDominant(Candidate(i), target, i.thermal, network))
  }

  // ---- the order of targets ----

  /** More loss and more delay never raise the multiplier. */
  lemma WorseSignalsLowerMultiplier(i: Inputs, worse: Signals)
    requires worse.burst == i.signals.burst
    requires worse.loss >= i.signals.loss && worse.delayGradient >= i.signals.delayGradient
    ensures Multiplier(i.(signals := worse)).0 <= Multiplier(i).0
    ensures 80 <= Multiplier(i).0 <= 105
  {
  }

  lemma PercentOrder(a: nat, b: nat, p: int, q: int)
    requires a <= b && 0 <= p <= q
    ensures a * p / 100 <= b * q / 100
  {
    assert a * p <= b * p by {
      assert (b - a) * p >= 0;
    }
    assert b * p <= b * q by {
      assert b * (q - p) >= 0;
    }
  }

  lemma ClampOrder(a: nat, b: nat, min: nat, hardMax: nat, t: Option<nat>, u: Option<nat>)
    requires a <= b && (u.Some? ==> t.Some? && t.value <= u.value)
    ensures Clamp(a, min, hardMax, t) <= Clamp(b, min, hardMax, u)
  {
  }

  /** With the loss pattern fixed, the target never rises with more loss or delay. */
  lemma TargetFallsWithWorseSignals(i: Inputs, worse: Signals)
    requires worse.burst == i.signals.burst
    requires worse.loss >= i.signals.loss && worse.delayGradient >= i.signals.delayGradient
    ensures Arbitrate(i.(signals := worse)).target <= Arbitrate(i).target
  {
    WorseSignalsLowerMultiplier(i, worse);
    WorseSignalsLowerMultiplier(i.(signals := worse), worse);
    PercentOrder(i.current, i.current, Multiplier(i.(signals := worse)).0, Multiplier(i).0);
    ClampOrder(Candidate(i.(signals := worse)), Candidate(i), i.min, i.hardMax, i.thermal, i.thermal);
  }

  /** The target never falls with a higher current rate or thermal ceiling, none being the highest. */
  lemma TargetRisesWithRateAndCeiling(i: Inputs, current: nat, thermal: Option<nat>)
    requires current >= i.current
    requires thermal.Some? ==> i.thermal.Some? && i.thermal.value <= thermal.value
    ensures Arbitrate(i).target <= Arbitrate(i.(current := current, thermal := thermal)).target
  {
    var j := i.(current := current, thermal := thermal);
    assert Multiplier(j) == Multiplier(i);
    WorseSignalsLowerMultiplier(i, i.signals);
    PercentOrder(i.current, current, Multiplier(i).0, Multiplier(i).0);
    ClampOrder(Candidate(i), Candidate(j), i.min, i.hardMax, i.thermal, thermal);
  }

  // ---- the controller ----

  /** Milliseconds. */
  type Instant = int

  datatype Control = Control(current: nat, max: nat, thermal: Option<nat>, lastAdjustment: Instant, decision: Dominant)

  function SettingBps(mbps: nat): nat {
    Max(MIN_BITRATE_MBPS, Min(mbps, MAX_BITRATE_MBPS)) * MEGA
  }

  function Start(mbps: nat, now: Instant): Control {
    Control(SettingBps(mbps), SettingBps(mbps), None, now, NoChange)
  }

  function InputsOf(c: Control, signals: Signals, now: Instant): Inputs {
    Inputs(c.current, signals, now - c.lastAdjustment > HYSTERESIS, TARGET_LOSS, FLOOR, c.max, c.thermal)
  }

  datatype Op =
    | SetSetting(mbps: nat, now: Instant)
    | Adjust(signals: Option<Signals>, now: Instant)
    | SetCeiling(bps: nat)
    | ClearCeiling

  function Step(c: Control, op: Op): Control {
    match op
    case SetSetting(mbps, now) =>
      c.(max := SettingBps(mbps), current := Clamp(SettingBps(mbps), FLOOR, SettingBps(mbps), c.thermal), lastAdjustment := now)
    case Adjust(None, _) => c
    case Adjust(Some(signals), now) =>
      var outcome := Arbitrate(InputsOf(c, signals, now));
      if outcome.target == c.current then c.(decision := outcome.dominant)
      else c.(decision := outcome.dominant, current := outcome.target, lastAdjustment := now)
    case SetCeiling(bps) => c.(thermal := Some(bps), current := Clamp(c.current, FLOOR, c.max, Some(bps)))
    case ClearCeiling => c.(thermal := None)
  }

  function RunOps(mbps: nat, start: Instant, ops: seq<Op>): Control {
    if ops == [] then Start(mbps, start) else Step(RunOps(mbps, start, ops[..|ops| - 1]), ops[|ops| - 1])
  }

  /** The rate is between 10 Mbps and the setting, which is at most 200, and above neither 10 Mbps nor the ceiling. */
  predicate Safe(c: Control) {
    && FLOOR <= c.current <= c.max <= MAX_BITRATE_MBPS * MEGA
    && (c.thermal.Some? ==> c.current <= Max(FLOOR, c.thermal.value))
  }

  lemma StepIsSafe(c: Control, op: Op)
    requires Safe(c)
    ensures Safe(Step(c, op))
  {
  }

  /** Over every sequence of calls. */
  lemma {:induction false} AlwaysSafe(mbps: nat, start: Instant, ops: seq<Op>)
    ensures Safe(RunOps(mbps, start, ops))
  {
    if ops != [] {
      AlwaysSafe(mbps, start, ops[..|ops| - 1]);
      StepIsSafe(RunOps(mbps, start, ops[..|ops| - 1]), ops[|ops| - 1]);
    }
  }

  class Controller {
    var currentBitrateBps: nat
    var maxBitrateBps: nat
    var thermalCeilingBps: Option<nat>
    var lastAdjustment: Instant
    var lastDecision: Dominant

    ghost function Value(): Control
      reads this
    {
      Control(currentBitrateBps, maxBitrateBps, thermalCeilingBps, lastAdjustment, lastDecision)
    }

    constructor (mbps: nat, now: Instant)
      ensures Value() == Start(mbps, now) && Safe(Value())
    {
      currentBitrateBps, maxBitrateBps := SettingBps(mbps), SettingBps(mbps);
      thermalCeilingBps, lastAdjustment, lastDecision := None, now, NoChange;
    }

    method ClampToBounds(candidate: nat) returns (bps: nat)
      ensures bps == Clamp(candidate, FLOOR, maxBitrateBps, thermalCeilingBps)
    {
      var top := if thermalCeilingBps.Some? then Min(maxBitrateBps, thermalCeilingBps.value) else maxBitrateBps;
      bps := Max(Min(candidate, top), FLOOR);
    }

    method SetSettingMbps(mbps: nat, now: Instant)
      requires Safe(Value())
      modifies this
      ensures Value() == Step(old(Value()), SetSetting(mbps, now)) && Safe(Value())
    {
      maxBitrateBps := SettingBps(mbps);
      currentBitrateBps := ClampToBounds(maxBitrateBps);
      lastAdjustment := now;
    }

    method AdjustTo(signals: Option<Signals>, now: Instant) returns (changed: bool)
      requires Safe(Value())
      modifies this
      ensures Value() == Step(old(Value()), Adjust(signals, now)) && Safe(Value())
      ensures changed == (currentBitrateBps != old(currentBitrateBps))
    {
      if signals.None? {
        return false;
      }
      var inputs := Inputs(currentBitrateBps, signals.value, now - lastAdjustment > HYSTERESIS, TARGET_LOSS, FLOOR,
                           maxBitrateBps, thermalCeilingBps);
      var outcome := Arbitrate(inputs);
      StepIsSafe(Value(), Adjust(signals, now));
      lastDecision := outcome.dominant;
      if outcome.target == currentBitrateBps {
        return false;
      }
      currentBitrateBps := outcome.target;
      lastAdjustment := now;
      return true;
    }

    method SetThermalCeilingBps(ceiling: nat)
      requires Safe(Value())
      modifies this
      ensures Value() == Step(old(Value()), SetCeiling(ceiling)) && Safe(Value())
    {
      thermalCeilingBps := Some(ceiling);
      var clamped := ClampToBounds(currentBitrateBps);
      if clamped != currentBitrateBps {
        currentBitrateBps := clamped;
      }
    }

    method ClearThermalCeiling()
      requires Safe(Value())
      modifies this
      ensures Value() == Step(old(Value()), ClearCeiling) && Safe(Value())
    {
      thermalCeilingBps := None;
    }
  }

  // ---- every step in numbers ----

  /** The share of the rate an adjustment aims at, in percent, by the first of these rules that applies. */
  function Share(s: Signals, quietFor: int): int {
    match s.burst
    case Burst => 100
    case Sustained => 80
    case Quiet =>
      if s.loss > 0.05 then 80
      else if s.delayGradient > 2.0 then 90
      else if s.loss > 0.02 then 95
      else if s.loss < 0.01 && quietFor > 10_000 then 105
      else 100
  }

  /** The signal that is reported for it. */
  function Reason(s: Signals, quietFor: int): Dominant {
    match s.burst
    case Burst => NoChange
    case Sustained => SustainedLoss
    case Quiet =>
      if s.loss > 0.05 then Loss
      else if s.delayGradient > 2.0 then Delay
      else if s.loss > 0.02 then Loss
      else if s.loss < 0.01 && quietFor > 10_000 then Increase
      else NoChange
  }

  /** A rate brought under the setting and the ceiling, if there is one, and then up to 10 Mbps. */
  function Bounded(rate: nat, setting: nat, ceiling: Option<nat>): nat {
    var capped := if setting < rate then setting else rate;
    var cooled := if ceiling.Some? && ceiling.value < capped then ceiling.value else capped;
    if cooled < 10_000_000 then 10_000_000 else cooled
  }

  /** An adjustment takes exactly that share, in bounds, and remembers its time exactly if the rate changed. */
  lemma AdjustsByShare(c: Control, s: Signals, now: Instant)
    requires Safe(c)
    ensures
      var quietFor := now - c.lastAdjustment;
      var aim := c.current * Share(s, quietFor) / 100;
      var c' := Step(c, Adjust(Some(s), now));
      && c'.current == Bounded(aim, c.max, c.thermal)
      && c'.lastAdjustment == (if c'.current == c.current then c.lastAdjustment else now)
      && c'.max == c.max && c'.thermal == c.thermal
      && c'.decision == (if c'.current > aim then Floor
                         else if c.thermal == Some(c'.current) && c'.current < aim then Thermal
                         else Reason(s, quietFor))
  {
  }

  /** Before any loss report nothing changes; a new setting applies at once; a ceiling only ever lowers the rate. */
  lemma SettingsApply(c: Control, mbps: nat, bps: nat, now: Instant)
    requires Safe(c)
    ensures Step(c, Adjust(None, now)) == c
    ensures
      var wanted := if mbps < 10 then 10_000_000 else if mbps > 200 then 200_000_000 else mbps * 1_000_000;
      var c' := Step(c, SetSetting(mbps, now));
      && c'.max == wanted && c'.current == Bounded(wanted, wanted, c.thermal)
      && c'.thermal == c.thermal && c'.lastAdjustment == now && c'.decision == c.decision
    ensures
      var c' := Step(c, SetCeiling(bps));
      && c'.thermal == Some(bps) && c'.current == Bounded(c.current, c.max, Some(bps)) <= c.current
      && c'.max == c.max && c'.lastAdjustment == c.lastAdjustment
    ensures Step(c, ClearCeiling) == Control(c.current, c.max, None, c.lastAdjustment, c.decision)
  {
  }

  /** Loss that takes a fifth off the rate. */
  predicate Heavy(s: Signals) {
    s.burst.Sustained? || (s.burst.Quiet? && s.loss > 0.05)
  }

  function Shrunk(start: nat, n: nat): nat {
    if n == 0 then start else Shrunk(start, n - 1) * 80 / 100
  }

  function AfterAll(c: Control, ops: seq<(Signals, Instant)>): Control {
    if ops == [] then c
    else
      var last := ops[|ops| - 1];
      Step(AfterAll(c, ops[..|ops| - 1]), Adjust(Some(last.0), last.1))
  }

  /** Under heavy loss the rate shrinks by a fifth each time, down to 10 Mbps. */
  lemma {:induction false} HeavyLossShrinks(c: Control, ops: seq<(Signals, Instant)>)
    requires Safe(c) && forall k :: 0 <= k < |ops| ==> Heavy(ops[k].0)
    ensures Safe(AfterAll(c, ops)) && AfterAll(c, ops).max == c.max && AfterAll(c, ops).thermal == c.thermal
    ensures AfterAll(c, ops).current == Max(10_000_000, Shrunk(c.current, |ops|))
  {
    if ops != [] {
      var init, last := ops[..|ops| - 1], ops[|ops| - 1];
      HeavyLossShrinks(c, init);
      var before := AfterAll(c, init);
      StepIsSafe(before, Adjust(Some(last.0), last.1));
      AdjustsByShare(before, last.0, last.1);
      assert Heavy(last.0) && Share(last.0, last.1 - before.lastAdjustment) == 80;
    }
  }

  lemma {:induction false} ShrunkOrder(a: nat, b: nat, n: nat)
    requires a <= b
    ensures Shrunk(a, n) <= Shrunk(b, n)
  {
    if n > 0 {
      ShrunkOrder(a, b, n - 1);
    }
  }

  lemma {:induction false} ShrunkOn(a: nat, n: nat, m: nat)
    ensures Shrunk(a, n + m) == Shrunk(Shrunk(a, n), m)
  {
    if m > 0 {
      ShrunkOn(a, n, m - 1);
    }
  }

  lemma FourCuts(a: nat, b: nat)
    requires 10_000 * b == 4096 * a
    ensures Shrunk(a, 4) <= b
  {
    assert Shrunk(a, 1) == a * 80 / 100;
    assert Shrunk(a, 2) == a * 80 / 100 * 80 / 100;
    assert Shrunk(a, 3) == a * 80 / 100 * 80 / 100 * 80 / 100;
  }

  lemma {:induction false} Shrinks(a: nat, n: nat)
    ensures Shrunk(a, n) <= a
  {
    if n > 0 {
      Shrinks(a, n - 1);
    }
  }

  lemma FourteenCuts()
    ensures Shrunk(200_000_000, 14) <= 10_000_000
  {
    FourCuts(200_000_000, 81_920_000);
    FourCuts(82_000_000, 33_587_200);
    FourCuts(33_600_000, 13_762_560);
    ShrunkOn(200_000_000, 4, 4);
    ShrunkOrder(Shrunk(200_000_000, 4), 82_000_000, 4);
    ShrunkOn(200_000_000, 8, 4);
    ShrunkOrder(Shrunk(200_000_000, 8), 33_600_000, 4);
    ShrunkOn(200_000_000, 12, 2);
    ShrunkOrder(Shrunk(200_000_000, 12), 13_770_000, 2);
    assert Shrunk(13_770_000, 1) == 11_016_000;
  }

  lemma ManyCuts(a: nat, more: nat)
    requires a <= 200_000_000
    ensures Shrunk(a, 14 + more) <= 10_000_000
  {
    ShrunkOrder(a, 200_000_000, 14 + more);
    ShrunkOn(200_000_000, 14, more);
    FourteenCuts();
    Shrinks(Shrunk(200_000_000, 14), more);
  }

  /** From any rate, fourteen adjustments under heavy loss bring it to 10 Mbps, and more keep it there. */
  lemma FallsIn14(c: Control, ops: seq<(Signals, Instant)>)
    requires Safe(c) && |ops| >= 14 && forall k :: 0 <= k < |ops| ==> Heavy(ops[k].0)
    ensures AfterAll(c, ops).current == 10_000_000
  {
    HeavyLossShrinks(c, ops);
    ManyCuts(c.current, |ops| - 14);
    assert 14 + (|ops| - 14) == |ops|;
  }

  // ---- recovery ----

  /** No sign of trouble. */
  predicate Clean(s: Signals) {
    s.loss < 0.01 && s.delayGradient <= 2.0 && s.burst.Quiet?
  }

  /** The most the rate may be: the setting under the thermal ceiling, but never under the floor. */
  function Ceiling(c: Control): nat {
    Clamp(c.max, FLOOR, c.max, c.thermal)
  }

  /** An adjustment raises the rate exactly if the signals are clean, ten seconds have passed, and there is room. */
  lemma RaisesExactlyWhenClean(c: Control, s: Signals, now: Instant)
    requires Safe(c)
    ensures Step(c, Adjust(Some(s), now)).current > c.current
       <==> Clean(s) && now - c.lastAdjustment > HYSTERESIS && c.current < Ceiling(c)
  {
  }

  /** Each clean adjustment adds at least 500 kbps or lands on the ceiling. */
  lemma CleanStep(c: Control, s: Signals, now: Instant)
    requires Safe(c) && Clean(s) && now - c.lastAdjustment > HYSTERESIS
    ensures
      var c' := Step(c, Adjust(Some(s), now));
      && c'.current == Min(c.current * 105 / 100, Ceiling(c)) && c'.max == c.max && c'.thermal == c.thermal
      && (c'.current >= c.current + 500_000 || c'.current == Ceiling(c))
  {
  }

  /** The rate after n steps of five percent each. */
  function Grown(start: nat, n: nat): nat {
    if n == 0 then start else Grown(start, n - 1) * 105 / 100
  }

  lemma {:induction false} GrownOrder(a: nat, b: nat, n: nat)
    requires a <= b
    ensures Grown(a, n) <= Grown(b, n)
  {
    if n > 0 {
      GrownOrder(a, b, n - 1);
    }
  }

  lemma {:induction false} GrownOn(a: nat, n: nat, m: nat)
    ensures Grown(a, n + m) == Grown(Grown(a, n), m)
  {
    if m > 0 {
      GrownOn(a, n, m - 1);
    }
  }

  lemma OneStep(a: nat)
    ensures Grown(a, 1) == a * 105 / 100
  {
  }

  /** Rounding down costs a step less than one: past the first 20 bps, five steps grow by 27.6 percent. */
  lemma FiveSteps(a: nat)
    requires a >= 20
    ensures 1000 * (Grown(a, 5) - 20) >= 1276 * (a - 20)
  {
    var b := a * 105 / 100;
    var c := b * 105 / 100;
    var d := c * 105 / 100;
    var e := d * 105 / 100;
    assert Grown(a, 1) == b && Grown(a, 2) == c;
    assert Grown(a, 3) == d && Grown(a, 4) == e;
    assert Grown(a, 5) == e * 105 / 100;
  }

  lemma Leap(n: nat, a: nat, b: nat)
    requires Grown(FLOOR, n) >= a >= 20 && 1000 * (b - 20) <= 1276 * (a - 20)
    ensures Grown(FLOOR, n + 5) >= b
  {
    GrownOn(FLOOR, n, 5);
    GrownOrder(a, Grown(FLOOR, n), 5);
    FiveSteps(a);
  }

  lemma SixtyTwoSteps()
    ensures Grown(FLOOR, 62) >= MAX_BITRATE_MBPS * MEGA
  {
    Leap(0, 10_000_000, 12_759_000);
    Leap(5, 12_759_000, 16_280_000);
    Leap(10, 16_280_000, 20_773_000);
    Leap(15, 20_773_000, 26_506_000);
    Leap(20, 26_506_000, 33_821_000);
    Leap(25, 33_821_000, 43_155_000);
    Leap(30, 43_155_000, 55_065_000);
    Leap(35, 55_065_000, 70_262_000);
    Leap(40, 70_262_000, 89_654_000);
    Leap(45, 89_654_000, 114_398_000);
    Leap(50, 114_398_000, 145_971_000);
    Leap(55, 145_971_000, 186_258_000);
    GrownOn(FLOOR, 60, 1);
    OneStep(Grown(FLOOR, 60));
    GrownOn(FLOOR, 61, 1);
    OneStep(Grown(FLOOR, 61));
  }

  /** Only clean adjustments, each after the hysteresis. */
  predicate CleanRun(c: Control, ops: seq<(Signals, Instant)>)
    decreases |ops|
  {
    ops == [] || (Clean(ops[0].0) && ops[0].1 - c.lastAdjustment > HYSTERESIS
                  && CleanRun(Step(c, Adjust(Some(ops[0].0), ops[0].1)), ops[1..]))
  }

  function After(c: Control, ops: seq<(Signals, Instant)>): Control
    decreases |ops|
  {
    if ops == [] then c else After(Step(c, Adjust(Some(ops[0].0), ops[0].1)), ops[1..])
  }

  lemma CeilingKept(c: Control, c': Control)
    requires c'.max == c.max && c'.thermal == c.thermal
    ensures Ceiling(c') == Ceiling(c)
  {
  }

  /** A step that grows to b or reaches the ceiling, and n steps after it, are n + 1 steps. */
  lemma StepsAdd(a: nat, b: nat, n: nat, ceiling: nat)
    requires b == Min(a * 105 / 100, ceiling)
    ensures Min(Grown(b, n), ceiling) >= Min(Grown(a, n + 1), ceiling)
  {
    GrownOn(a, 1, n);
    OneStep(a);
    NeverShrinks(b, n);
  }

  lemma {:induction false} CleanRunGrows(c: Control, ops: seq<(Signals, Instant)>)
    requires Safe(c) && CleanRun(c, ops)
    ensures After(c, ops).current >= Min(Grown(c.current, |ops|), Ceiling(c))
    ensures After(c, ops).current <= Ceiling(c)
    decreases |ops|
  {
    if ops != [] {
      var c' := Step(c, Adjust(Some(ops[0].0), ops[0].1));
      StepIsSafe(c, Adjust(Some(ops[0].0), ops[0].1));
      CleanStep(c, ops[0].0, ops[0].1);
      CleanRunGrows(c', ops[1..]);
      CeilingKept(c, c');
      StepsAdd(c.current, c'.current, |ops| - 1, Ceiling(c));
    }
  }

  lemma {:induction false} NeverShrinks(a: nat, n: nat)
    ensures Grown(a, n) >= a
  {
    if n > 0 {
      NeverShrinks(a, n - 1);
    }
  }

  /** From any rate, 62 clean adjustments reach the ceiling, and more of them stay there. */
  lemma RecoversIn62(c: Control, ops: seq<(Signals, Instant)>)
    requires Safe(c) && CleanRun(c, ops) && |ops| >= 62
    ensures After(c, ops).current == Ceiling(c)
  {
    CleanRunGrows(c, ops);
    SixtyTwoSteps();
    GrownOrder(FLOOR, c.current, |ops|);
    GrownOn(FLOOR, 62, |ops| - 62);
    NeverShrinks(Grown(FLOOR, 62), |ops| - 62);
  }
}
