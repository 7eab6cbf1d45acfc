/** Heartbeat counts on their way to the loss estimate. */
module LossFeedback {
  import opened Options
  import opened Bytes

  const U32_MAX: nat := 0xFFFF_FFFF

  datatype Stats = Stats(received: u32, lost: u32)

  /** The estimator's state: the smoothed loss, and whether it holds any data. */
  datatype Estimate = Estimate(loss: real, hasData: bool)

  const NO_ESTIMATE: Estimate := Estimate(0.0, false)

  const ALPHA: real := 0.3

  function SaturatingAdd(a: u32, b: u32): u32 {
    if a + b > U32_MAX then U32_MAX else a + b
  }

  function Ratio(part: nat, total: nat): real
    requires total > 0
  {
    part as real / total as real
  }

  /** The loss of one interval, from a total that wraps at 32 bits. */
  function IntervalLoss(s: Stats): real {
    var total := (s.received + s.lost) % 0x1_0000_0000;
    if total > 0 then Ratio(s.lost, total) else 0.0
  }

  function Smoothed(e: Estimate, loss: real): Estimate {
    Estimate(if e.hasData then ALPHA * loss + (1.0 - ALPHA) * e.loss else loss, true)
  }

  function Updated(e: Estimate, s: Stats): Estimate {
    Smoothed(e, IntervalLoss(s))
  }

  class BandwidthEstimator {
    var lossRateEwma: real
    var rttMsEwma: real
    var hasData: bool

    ghost function Value(): Estimate
      reads this
    {
      Estimate(lossRateEwma, hasData)
    }

    constructor ()
      ensures Value() == NO_ESTIMATE && rttMsEwma == 10.0
    {
      lossRateEwma, rttMsEwma, hasData := 0.0, 10.0, false;
    }

    method Update(packetsReceived: u32, packetsLost: u32, rttMs: real)
      modifies this
      ensures Value() == Updated(old(Value()), Stats(packetsReceived, packetsLost))
      ensures rttMsEwma == if old(hasData) then ALPHA * rttMs + (1.0 - ALPHA) * old(rttMsEwma) else rttMs
    {
      var total := (packetsReceived + packetsLost) % 0x1_0000_0000;
      var loss := if total > 0 then Ratio(packetsLost, total) else 0.0;
      if hasData {
        lossRateEwma := ALPHA * loss + (1.0 - ALPHA) * lossRateEwma;
        rttMsEwma := ALPHA * rttMs + (1.0 - ALPHA) * rttMsEwma;
      } else {
        lossRateEwma := loss;
        rttMsEwma := rttMs;
        hasData := true;
      }
    }
  }

  // ---- the session's side ----

  datatype Event = Heartbeat(stats: Stats) | TickEvent

  /** The pending counts, and what the estimator was given, in order. */
  datatype Feedback = Feedback(pending: Option<Stats>, given: seq<Stats>, estimate: Estimate)

  const START: Feedback := Feedback(None, [], NO_ESTIMATE)

  function Joined(pending: Option<Stats>, s: Stats): Stats {
    if pending.None? then s
    else Stats(SaturatingAdd(pending.value.received, s.received), SaturatingAdd(pending.value.lost, s.lost))
  }

  function Step(f: Feedback, e: Event): Feedback {
    match e
    case Heartbeat(s) => f.(pending := Some(Joined(f.pending, s)))
    case TickEvent =>
      if f.pending.None? then f
      else Feedback(None, f.given + [f.pending.value], Updated(f.estimate, f.pending.value))
  }

  function Run(events: seq<Event>): Feedback {
    if events == [] then START else Step(Run(events[..|events| - 1]), events[|events| - 1])
  }

  class AdaptiveState {
    const estimator: BandwidthEstimator
    var pendingStats: Option<Stats>
    ghost var given: seq<Stats>

    ghost function Value(): Feedback
      reads this, estimator
    {
      Feedback(pendingStats, given, estimator.Value())
    }

    constructor ()
      ensures Value() == START && fresh(estimator)
    {
      estimator := new BandwidthEstimator();
      pendingStats, given := None, [];
    }

    method OnHeartbeat(stats: Stats)
      modifies this
      ensures Value() == Step(old(Value()), Heartbeat(stats))
    {
      pendingStats := Some(match pendingStats
        case Some(p) => Stats(SaturatingAdd(p.received, stats.received), SaturatingAdd(p.lost, stats.lost))
        case None => stats);
    }

    /** The interval's stats, if any heartbeat came since the last tick. */
    method Tick() returns (stats: Option<Stats>)
      modifies this, estimator
      ensures Value() == Step(old(Value()), TickEvent) && stats == old(pendingStats)
    {
      stats := pendingStats;
      pendingStats := None;
      if stats.Some? {
        estimator.Update(stats.value.received, stats.value.lost, 0.0);
        given := given + [stats.value];
      }
    }
  }

  // ---- conservation ----

  function Received(stats: seq<Stats>): nat {
    if stats == [] then 0 else Received(stats[..|stats| - 1]) + stats[|stats| - 1].received
  }

  function Lost(stats: seq<Stats>): nat {
    if stats == [] then 0 else Lost(stats[..|stats| - 1]) + stats[|stats| - 1].lost
  }

  /** The stats of all heartbeats, in order. */
  function Heard(events: seq<Event>): seq<Stats> {
    if events == [] then []
    else
      var before, last := Heard(events[..|events| - 1]), events[|events| - 1];
      if last.Heartbeat? then before + [last.stats] else before
  }

  /** No pending sum reaches past 32 bits. */
  predicate NeverSaturates(events: seq<Event>) {
    events == [] || (
      var before, last := Run(events[..|events| - 1]), events[|events| - 1];
      && NeverSaturates(events[..|events| - 1])
      && (last.Heartbeat? ==> Fits(before, last.stats)))
  }

  function PendingReceived(f: Feedback): nat {
    if f.pending.Some? then f.pending.value.received else 0
  }

  function PendingLost(f: Feedback): nat {
    if f.pending.Some? then f.pending.value.lost else 0
  }

  lemma SumsSnoc(stats: seq<Stats>, s: Stats)
    ensures Received(stats + [s]) == Received(stats) + s.received
    ensures Lost(stats + [s]) == Lost(stats) + s.lost
  {
    assert (stats + [s])[..|stats|] == stats;
  }

  /** How many of the counts heard so far are accounted for. */
  datatype Account = Account(received: nat, lost: nat)

  function Held(f: Feedback): Account {
    Account(Received(f.given) + PendingReceived(f), Lost(f.given) + PendingLost(f))
  }

  predicate Fits(f: Feedback, s: Stats) {
    f.pending.Some? ==> f.pending.value.received + s.received <= U32_MAX && f.pending.value.lost + s.lost <= U32_MAX
  }

  /** A tick moves counts; a heartbeat adds its own, in full exactly if the pending sums do not saturate. */
  lemma StepAccounts(f: Feedback, e: Event)
    ensures e.TickEvent? ==> Held(Step(f, e)) == Held(f)
    ensures e.Heartbeat? ==>
      var held := Held(Step(f, e));
      && held.received <= Held(f).received + e.stats.received && held.lost <= Held(f).lost + e.stats.lost
      && (Fits(f, e.stats) <==> held.received == Held(f).received + e.stats.received && held.lost == Held(f).lost + e.stats.lost)
  {
    if e.TickEvent? && f.pending.Some? {
      SumsSnoc(f.given, f.pending.value);
    }
  }

  /** What the estimator was given and what is pending never exceed what was heard, and fall short exactly by saturation. */
  lemma {:induction false} CountsConserved(events: seq<Event>)
    ensures
      var held, heard := Held(Run(events)), Heard(events);
      && held.received <= Received(heard) && held.lost <= Lost(heard)
      && (NeverSaturates(events) <==> held == Account(Received(heard), Lost(heard)))
  {
    if events != [] {
      var init, last := events[..|events| - 1], events[|events| - 1];
      CountsConserved(init);
      StepAccounts(Run(init), last);
      if last.Heartbeat? {
        SumsSnoc(Heard(init), last.stats);
      }
    }
  }

  // ---- the smoothed loss ----

  lemma RatioBounds(part: nat, total: nat)
    requires total > 0
    ensures Ratio(part, total) >= 0.0
    ensures Ratio(part, total) <= 1.0 <==> part <= total
  {
    var r, t := Ratio(part, total), total as real;
    assert r * t == part as real;
    assert (r - 1.0) * t == r * t - t;
    Sign(r, t);
    Sign(r - 1.0, t);
  }

  lemma Sign(x: real, t: real)
    requires t > 0.0
    ensures x * t > 0.0 <==> x > 0.0
    ensures x * t < 0.0 <==> x < 0.0
  {
  }

  /** An interval's loss is a share exactly if the counts do not reach past 32 bits together. */
  lemma IntervalLossIsShare(s: Stats)
    ensures IntervalLoss(s) >= 0.0
    ensures IntervalLoss(s) <= 1.0 <==> s.received + s.lost <= 0x1_0000_0000
  {
    var sum := s.received + s.lost;
    var total := sum % 0x1_0000_0000;
    assert total == if sum < 0x1_0000_0000 then sum else sum - 0x1_0000_0000;
    if total > 0 {
      RatioBounds(s.lost, total);
    }
  }

  /** A tick can compute a loss above one: the two counts, each within 32 bits, wrap when added up. */
  lemma LossAboveOne()
    ensures
      var f := Run([Heartbeat(Stats(0xFFFF_FFFF, 2)), TickEvent]);
      f.estimate.loss == 2.0
  {
    var e := [Heartbeat(Stats(0xFFFF_FFFF, 2)), TickEvent];
    assert e[..1] == [e[0]] && e[..1][..0] == [];
    assert Run(e[..1]) == Step(START, e[0]);
    assert IntervalLoss(Stats(0xFFFF_FFFF, 2)) == Ratio(2, 1) == 2.0;
  }

  lemma Between(loss: real, before: real, lo: real, hi: real)
    requires lo <= loss <= hi && lo <= before <= hi
    ensures lo <= ALPHA * loss + (1.0 - ALPHA) * before <= hi
  {
  }

  /** The smoothed loss lies between the smallest and the largest interval loss given so far. */
  lemma {:induction false} SmoothedLossBetween(events: seq<Event>, lo: real, hi: real)
    requires forall s :: s in Run(events).given ==> lo <= IntervalLoss(s) <= hi
    ensures Run(events).estimate.hasData <==> Run(events).given != []
    ensures Run(events).given != [] ==> lo <= Run(events).estimate.loss <= hi
  {
    if events != [] {
      var init := events[..|events| - 1];
      var before := Run(init);
      SmoothedLossBetween(init, lo, hi);
      if events[|events| - 1].TickEvent? && before.pending.Some? {
        var s := before.pending.value;
        assert s in before.given + [s];
        if before.given != [] {
          Between(IntervalLoss(s), before.estimate.loss, lo, hi);
        }
      }
    }
  }

  lemma RatioTimes(part: nat, total: nat)
    requires total > 0
    ensures Ratio(part, total) * total as real == part as real
  {
  }

  /**
   * A report takes the estimate three tenths of the way to the interval's loss x, or all the way if it is the
   * first. That is lost / (received + lost), where the sum wraps at 2^32; none for an empty interval.
   */
  lemma ReportCounts(e: Estimate, s: Stats) returns (x: real)
    ensures
      var sum := s.received + s.lost;
      var total := if sum < 0x1_0000_0000 then sum else sum - 0x1_0000_0000;
      if total > 0 then x * total as real == s.lost as real else x == 0.0
    ensures Updated(e, s) == Estimate(if e.hasData then 0.3 * x + 0.7 * e.loss else x, true)
  {
    x := IntervalLoss(s);
    var sum := s.received + s.lost;
    assert sum % 0x1_0000_0000 == if sum < 0x1_0000_0000 then sum else sum - 0x1_0000_0000;
    if sum % 0x1_0000_0000 > 0 {
      RatioTimes(s.lost, sum % 0x1_0000_0000);
    }
  }

  /** A tick gives the estimator the pending counts, once; without any it does nothing. */
  lemma TickCounts(f: Feedback) returns (x: real)
    ensures f.pending.None? ==> Step(f, TickEvent) == f
    ensures f.pending.Some? ==>
      var s, f' := f.pending.value, Step(f, TickEvent);
      && f'.pending == None && f'.given == f.given + [s]
      && f'.estimate == Estimate(if f.estimate.hasData then 0.3 * x + 0.7 * f.estimate.loss else x, true)
      && (0 < s.received + s.lost < 0x1_0000_0000 ==> x * (s.received + s.lost) as real == s.lost as real)
  {
    if f.pending.Some? {
      x := ReportCounts(f.estimate, f.pending.value);
    } else {
      x := 0.0;
    }
  }

  /** Heartbeats between two ticks add up, each count at most 2^32 - 1. */
  lemma HeartbeatsAdd(f: Feedback, s: Stats)
    ensures
      var f' := Step(f, Heartbeat(s));
      var received, lost := PendingReceived(f) + s.received, PendingLost(f) + s.lost;
      && f'.pending == Some(Stats(if received < 0xFFFF_FFFF then received else 0xFFFF_FFFF,
                                  if lost < 0xFFFF_FFFF then lost else 0xFFFF_FFFF))
      && f'.given == f.given && f'.estimate == f.estimate
  {
  }

  lemma SameShare(s: Stats, p: real)
    requires 0 < s.received + s.lost < 0x1_0000_0000 && s.lost as real == p * (s.received + s.lost) as real
    ensures IntervalLoss(s) == p
  {
    var total := s.received + s.lost;
    assert total % 0x1_0000_0000 == total;
    RatioTimes(s.lost, total);
    assert (IntervalLoss(s) - p) * total as real == 0.0;
  }

  /** If all intervals lose the same share, the smoothed loss is that share. */
  lemma SteadyLoss(events: seq<Event>, p: real)
    requires Run(events).given != []
    requires forall s :: s in Run(events).given ==>
      0 < s.received + s.lost < 0x1_0000_0000 && s.lost as real == p * (s.received + s.lost) as real
    ensures Run(events).estimate == Estimate(p, true)
  {
    forall s | s in Run(events).given
      ensures IntervalLoss(s) == p
    {
      SameShare(s, p);
    }
    SmoothedLossBetween(events, p, p);
  }

  /** Hence it is a share if no interval's counts reach past 32 bits together. */
  lemma SmoothedLossIsShare(events: seq<Event>)
    requires forall s :: s in Run(events).given ==> s.received + s.lost <= 0x1_0000_0000
    ensures 0.0 <= Run(events).estimate.loss <= 1.0
  {
    forall s | s in Run(events).given
      ensures 0.0 <= IntervalLoss(s) <= 1.0
    {
      IntervalLossIsShare(s);
    }
    SmoothedLossBetween(events, 0.0, 1.0);
    NoDataNoLoss(events);
  }

  lemma {:induction false} NoDataNoLoss(events: seq<Event>)
    ensures Run(events).given == [] ==> Run(events).estimate == NO_ESTIMATE
  {
    if events != [] {
      NoDataNoLoss(events[..|events| - 1]);
    }
  }
}
