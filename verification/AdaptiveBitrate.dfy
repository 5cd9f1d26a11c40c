/** The bitrate controller with its default tuning (adapt/AdaptiveBitrate.cpp). */
module AdaptiveBitrates {
  import opened Bytes

  datatype LinkSample = LinkSample(
    rttMs: real, lossPercent: real, jitterMs: real, decodeQueueFrames: real, fpsRatio: real)

  const DOWN_STREAK := 3
  const UP_STREAK := 10
  const COOLDOWN := 2
  const MIN_STEP := 250

  /** The truncated products `current * 0.15` and `current * 0.10`, whatever the rounding. */
  datatype Fractions = Fractions(down: int -> int, up: int -> int)

  datatype Controller = Controller(
    current: int, minKbps: int, maxKbps: int, downStreak: nat, upStreak: nat, cooldown: nat)

  predicate IsBad(s: LinkSample) {
    || s.lossPercent >= 2.0
    || s.rttMs >= 150.0
    || s.jitterMs >= 15.0
    || s.decodeQueueFrames >= 4.0
    || (s.fpsRatio > 0.0 && s.fpsRatio <= 0.80)
  }

  predicate IsGood(s: LinkSample) {
    && s.lossPercent <= 0.3
    && s.rttMs <= 150.0
    && s.jitterMs <= 5.0
    && s.decodeQueueFrames < 2.0
    && !(s.fpsRatio > 0.0 && s.fpsRatio < 0.95)
  }

  /** A good sample as `update` sees it: the bad check comes first. */
  predicate Healthy(s: LinkSample) {
    !IsBad(s) && IsGood(s)
  }

  function Clamped(x: int, lo: int, hi: int): (r: int) {
    if x < lo then lo else if x > hi then hi else x
  }

  function Created(initial: int, minKbps: int, maxKbps: int): (c: Controller) {
    Controller(Clamped(initial, minKbps, maxKbps), minKbps, maxKbps, 0, 0, 0)
  }

  /** One call of `update`: the new state and the new target, if it changed. */
  function Updated(c: Controller, s: LinkSample, f: Fractions): (r: (Controller, Option<int>)) {
    var c := c.(cooldown := if c.cooldown > 0 then c.cooldown - 1 else 0);
    if IsBad(s) then
      var c := c.(downStreak := c.downStreak + 1, upStreak := 0);
      if c.downStreak >= DOWN_STREAK && c.cooldown == 0 then
        var next := Max(c.minKbps, c.current - Max(MIN_STEP, f.down(c.current)));
        Moved(c.(downStreak := 0), next)
      else (c, None)
    else if IsGood(s) then
      var c := c.(upStreak := c.upStreak + 1, downStreak := 0);
      if c.upStreak >= UP_STREAK && c.cooldown == 0 && c.current < c.maxKbps then
        var next := Min(c.maxKbps, c.current + Max(MIN_STEP, f.up(c.current)));
        Moved(c.(upStreak := 0), next)
      else (c, None)
    else (c.(downStreak := 0, upStreak := 0), None)
  }

  function Moved(c: Controller, next: int): (r: (Controller, Option<int>)) {
    if next != c.current then (c.(current := next, cooldown := COOLDOWN), Some(next)) else (c, None)
  }

  function Forced(c: Controller, kbps: int): (c': Controller) {
    c.(current := Clamped(kbps, c.minKbps, c.maxKbps), downStreak := 0, upStreak := 0, cooldown := COOLDOWN)
  }

  // ---------- every run ----------

  datatype Op = Sample(s: LinkSample) | Manual(kbps: int)

  function Next(c: Controller, op: Op, f: Fractions): (c': Controller) {
    match op
    case Sample(s) => Updated(c, s, f).0
    case Manual(kbps) => Forced(c, kbps)
  }

  function Run(c: Controller, ops: seq<Op>, f: Fractions): (c': Controller) {
    if ops == [] then c else Next(Run(c, ops[..|ops| - 1], f), ops[|ops| - 1], f)
  }

  /**
   * The rate is in range, and a streak never gets far enough while a cooldown is running:
   * with the default tuning the cooldown guard alone never holds a change back.
   */
  ghost predicate Reachable(c: Controller) {
    && c.minKbps <= c.current <= c.maxKbps
    && c.cooldown + c.downStreak < DOWN_STREAK
    && (c.current < c.maxKbps ==> c.cooldown + c.upStreak < UP_STREAK)
  }

  lemma NextReachable(c: Controller, op: Op, f: Fractions)
    requires Reachable(c)
    ensures Reachable(Next(c, op, f))
    ensures Next(c, op, f).minKbps == c.minKbps && Next(c, op, f).maxKbps == c.maxKbps
  {
  }

  lemma {:induction false} RunReachable(c: Controller, ops: seq<Op>, f: Fractions)
    requires Reachable(c)
    ensures Reachable(Run(c, ops, f))
    ensures Run(c, ops, f).minKbps == c.minKbps && Run(c, ops, f).maxKbps == c.maxKbps
  {
    if ops != [] {
      RunReachable(c, ops[..|ops| - 1], f);
      NextReachable(Run(c, ops[..|ops| - 1], f), ops[|ops| - 1], f);
    }
  }

  const PERFECT := LinkSample(0.0, 0.0, 0.0, 0.0, 1.0)

  /** Each measure on its own makes an otherwise perfect sample bad, or no longer good, from exactly its threshold on. */
  lemma ThresholdsExactly(x: real)
    ensures IsBad(PERFECT.(rttMs := x)) <==> x >= 150.0
    ensures IsBad(PERFECT.(lossPercent := x)) <==> x >= 2.0
    ensures IsBad(PERFECT.(jitterMs := x)) <==> x >= 15.0
    ensures IsBad(PERFECT.(decodeQueueFrames := x)) <==> x >= 4.0
    ensures IsBad(PERFECT.(fpsRatio := x)) <==> 0.0 < x <= 0.8
    ensures IsGood(PERFECT.(rttMs := x)) <==> x <= 150.0
    ensures IsGood(PERFECT.(lossPercent := x)) <==> x <= 0.3
    ensures IsGood(PERFECT.(jitterMs := x)) <==> x <= 5.0
    ensures IsGood(PERFECT.(decodeQueueFrames := x)) <==> x < 2.0
    ensures IsGood(PERFECT.(fpsRatio := x)) <==> x <= 0.0 || x >= 0.95
  {
  }

  /** A sample is bad exactly if one of its measures is, and good exactly if all of them are. */
  lemma MeasuresDecide(s: LinkSample)
    ensures IsBad(s) <==>
      || IsBad(PERFECT.(rttMs := s.rttMs)) || IsBad(PERFECT.(lossPercent := s.lossPercent))
      || IsBad(PERFECT.(jitterMs := s.jitterMs)) || IsBad(PERFECT.(decodeQueueFrames := s.decodeQueueFrames))
      || IsBad(PERFECT.(fpsRatio := s.fpsRatio))
    ensures IsGood(s) <==>
      && IsGood(PERFECT.(rttMs := s.rttMs)) && IsGood(PERFECT.(lossPercent := s.lossPercent))
      && IsGood(PERFECT.(jitterMs := s.jitterMs)) && IsGood(PERFECT.(decodeQueueFrames := s.decodeQueueFrames))
      && IsGood(PERFECT.(fpsRatio := s.fpsRatio))
  {
  }

  /** A manual rate is taken if it is in range and is otherwise the nearer bound; streaks begin anew, under a cooldown of two. */
  lemma ManualExactly(c: Controller, kbps: int)
    requires c.minKbps <= c.maxKbps
    ensures var c' := Forced(c, kbps);
      && (c.minKbps <= kbps <= c.maxKbps ==> c'.current == kbps)
      && (kbps < c.minKbps ==> c'.current == c.minKbps)
      && (kbps > c.maxKbps ==> c'.current == c.maxKbps)
      && c' == Controller(c'.current, c.minKbps, c.maxKbps, 0, 0, 2)
  {
  }

  /** An update reports the rate exactly when it changed it, and a change starts a cooldown of two updates. */
  lemma ReportedExactly(c: Controller, s: LinkSample, f: Fractions)
    ensures var (c', out) := Updated(c, s, f);
      && out == (if c'.current != c.current then Some(c'.current) else None)
      && c'.cooldown == (if c'.current != c.current then 2 else if c.cooldown > 0 then c.cooldown - 1 else 0)
      && c'.minKbps == c.minKbps && c'.maxKbps == c.maxKbps
  {
  }

  /** How far a change goes: by the fraction of the rate, but at least 250, and no further than the bound. */
  lemma StepSizeExactly(c: Controller, s: LinkSample, f: Fractions)
    requires c.minKbps <= c.current <= c.maxKbps
    ensures var next := Updated(c, s, f).0.current;
      && (next < c.current ==>
          var far := if f.down(c.current) > 250 then f.down(c.current) else 250;
          next == if c.current - far < c.minKbps then c.minKbps else c.current - far)
      && (next > c.current ==>
          var far := if f.up(c.current) > 250 then f.up(c.current) else 250;
          next == if c.current + far > c.maxKbps then c.maxKbps else c.current + far)
  {
  }

  /** The cooldown never holds a change back on its own: without it the update does the same. */
  lemma CooldownIsIdle(c: Controller, s: LinkSample, f: Fractions)
    requires Reachable(c)
    ensures var (c1, out1) := Updated(c, s, f);
      var (c2, out2) := Updated(c.(cooldown := 0), s, f);
      out1 == out2 && c1.(cooldown := 0) == c2.(cooldown := 0)
  {
  }

  // ---------- history: what a change of rate presupposes ----------

  /** The last `k` operations are samples with property `bad` or healthy, and the rate did not move in them. */
  ghost predicate Quiet(c: Controller, ops: seq<Op>, f: Fractions, k: nat, bad: bool) {
    && k <= |ops|
    && (forall i :: |ops| - k <= i < |ops| ==> ops[i].Sample? && if bad then IsBad(ops[i].s) else Healthy(ops[i].s))
    && (forall i :: |ops| - k <= i <= |ops| ==> Run(c, ops[..i], f).current == Run(c, ops, f).current)
  }

  lemma QuietLonger(c: Controller, ops: seq<Op>, f: Fractions, k: nat, bad: bool, s: LinkSample)
    requires Quiet(c, ops, f, k, bad)
    requires if bad then IsBad(s) else Healthy(s)
    requires Run(c, ops + [Sample(s)], f).current == Run(c, ops, f).current
    ensures Quiet(c, ops + [Sample(s)], f, k + 1, bad)
  {
    var all := ops + [Sample(s)];
    forall i | |all| - (k + 1) <= i <= |all| ensures Run(c, all[..i], f).current == Run(c, all, f).current {
      if i <= |ops| {
        assert all[..i] == ops[..i];
      } else {
        assert all[..i] == all;
      }
    }
  }

  lemma QuietNone(c: Controller, ops: seq<Op>, f: Fractions, bad: bool)
    ensures Quiet(c, ops, f, 0, bad)
  {
    assert ops[..|ops|] == ops;
  }

  /** The streak counters count: that many samples of the kind came last, with the rate unmoved. */
  lemma {:induction false} StreaksMatchHistory(c: Controller, ops: seq<Op>, f: Fractions)
    requires c.downStreak == c.upStreak == 0
    ensures Quiet(c, ops, f, Run(c, ops, f).downStreak, true)
    ensures Quiet(c, ops, f, Run(c, ops, f).upStreak, false)
  {
    QuietNone(c, ops, f, true);
    QuietNone(c, ops, f, false);
    if ops != [] {
      var before, op := ops[..|ops| - 1], ops[|ops| - 1];
      StreaksMatchHistory(c, before, f);
      assert ops == before + [op];
      var was, now := Run(c, before, f), Run(c, ops, f);
      if now.downStreak > 0 {
        assert op.Sample? && IsBad(op.s) && now.downStreak == was.downStreak + 1 && now.current == was.current;
        QuietLonger(c, before, f, was.downStreak, true, op.s);
      }
      if now.upStreak > 0 {
        assert op.Sample? && Healthy(op.s) && now.upStreak == was.upStreak + 1 && now.current == was.current;
        QuietLonger(c, before, f, was.upStreak, false, op.s);
      }
    }
  }

  /**
   * From any start, a sample lowers the rate only as the third of three bad ones with no change before it among them,
   * and raises it only as the tenth of ten healthy ones; in every other run of samples the rate stands still.
   */
  lemma ChangesNeedStreaks(c: Controller, ops: seq<Op>, s: LinkSample, f: Fractions)
    requires Reachable(c) && c.downStreak == c.upStreak == 0
    ensures var was, now := Run(c, ops, f), Run(c, ops + [Sample(s)], f);
      && c.minKbps <= now.current <= c.maxKbps
      && (now.current < was.current ==> IsBad(s) && Quiet(c, ops, f, 2, true))
      && (now.current > was.current ==> Healthy(s) && Quiet(c, ops, f, 9, false))
      && (now.current != was.current <==> Updated(was, s, f).1 == Some(now.current))
      && was.current - Max(250, f.down(was.current)) <= now.current <= was.current + Max(250, f.up(was.current))
  {
    assert (ops + [Sample(s)])[..|ops|] == ops;
    RunReachable(c, ops, f);
    NextReachable(Run(c, ops, f), Sample(s), f);
    StreaksMatchHistory(c, ops, f);
    var was := Run(c, ops, f);
    var now := Run(c, ops + [Sample(s)], f);
    if now.current > was.current {
      assert was.upStreak >= UP_STREAK - 1;
    } else if now.current < was.current {
      assert was.downStreak >= DOWN_STREAK - 1;
    }
  }

  // ---------- convergence ----------

  /** Steps of at least 250 that cover a distance. */
  function StepsFor(distance: nat): (n: nat) {
    (distance + 249) / 250
  }

  ghost predicate AllBad(ops: seq<Op>) {
    forall op <- ops :: op.Sample? && IsBad(op.s)
  }

  ghost predicate AllHealthy(ops: seq<Op>) {
    forall op <- ops :: op.Sample? && Healthy(op.s)
  }

  /** What is left to do on the way down: three samples a step, less the streak already built up. */
  ghost function DownMeasure(c: Controller): (m: int)
    requires c.minKbps <= c.current
  {
    if c.current == c.minKbps then 0 else DOWN_STREAK * StepsFor(c.current - c.minKbps) - c.downStreak
  }

  ghost function UpMeasure(c: Controller): (m: int)
    requires c.current <= c.maxKbps
  {
    if c.current == c.maxKbps then 0 else UP_STREAK * StepsFor(c.maxKbps - c.current) - c.upStreak
  }

  lemma StepsShrink(d: nat, d': nat)
    requires d > 0 && (d' == 0 || d' + MIN_STEP <= d)
    ensures d' == 0 ==> StepsFor(d') == 0
    ensures StepsFor(d') + 1 <= StepsFor(d)
  {
  }

  lemma BadSampleDescends(c: Controller, s: LinkSample, f: Fractions)
    requires Reachable(c) && IsBad(s)
    ensures var c' := Updated(c, s, f).0;
      && c'.current <= c.current
      && (c.current == c.minKbps ==> c'.current == c.minKbps)
      && (c.current > c.minKbps ==> DownMeasure(c') < DownMeasure(c))
  {
    NextReachable(c, Sample(s), f);
    var c' := Updated(c, s, f).0;
    if c.current > c.minKbps && c'.current != c.current {
      StepsShrink(c.current - c.minKbps, c'.current - c.minKbps);
    }
  }

  lemma HealthySampleAscends(c: Controller, s: LinkSample, f: Fractions)
    requires Reachable(c) && Healthy(s)
    ensures var c' := Updated(c, s, f).0;
      && c'.current >= c.current
      && (c.current == c.maxKbps ==> c'.current == c.maxKbps)
      && (c.current < c.maxKbps ==> UpMeasure(c') < UpMeasure(c))
  {
    NextReachable(c, Sample(s), f);
    var c' := Updated(c, s, f).0;
    if c.current < c.maxKbps && c'.current != c.current {
      StepsShrink(c.maxKbps - c.current, c.maxKbps - c'.current);
    }
  }

  lemma {:induction false} DownMeasureFalls(c: Controller, ops: seq<Op>, f: Fractions)
    requires Reachable(c) && AllBad(ops)
    ensures var e := Run(c, ops, f); Reachable(e) && e.minKbps == c.minKbps
    ensures var e := Run(c, ops, f); e.current > e.minKbps ==> DownMeasure(e) + |ops| <= DownMeasure(c)
  {
    RunReachable(c, ops, f);
    if ops != [] {
      var before, op := ops[..|ops| - 1], ops[|ops| - 1];
      DownMeasureFalls(c, before, f);
      BadSampleDescends(Run(c, before, f), op.s, f);
    }
  }

  lemma {:induction false} UpMeasureFalls(c: Controller, ops: seq<Op>, f: Fractions)
    requires Reachable(c) && AllHealthy(ops)
    ensures var e := Run(c, ops, f); Reachable(e) && e.maxKbps == c.maxKbps
    ensures var e := Run(c, ops, f); e.current < e.maxKbps ==> UpMeasure(e) + |ops| <= UpMeasure(c)
  {
    RunReachable(c, ops, f);
    if ops != [] {
      var before, op := ops[..|ops| - 1], ops[|ops| - 1];
      UpMeasureFalls(c, before, f);
      HealthySampleAscends(Run(c, before, f), op.s, f);
    }
  }

  lemma MeasuresPositive(c: Controller)
    requires Reachable(c)
    ensures c.current > c.minKbps ==> DownMeasure(c) > 0
    ensures c.current < c.maxKbps ==> UpMeasure(c) > 0
  {
  }

  /** After enough bad samples the rate is at its minimum, and further bad samples leave it there. */
  lemma BadConverges(c: Controller, ops: seq<Op>, f: Fractions)
    requires Reachable(c) && AllBad(ops)
    requires |ops| >= 3 * StepsFor(c.current - c.minKbps)
    ensures Run(c, ops, f).current == c.minKbps
  {
    DownMeasureFalls(c, ops, f);
    MeasuresPositive(Run(c, ops, f));
  }

  /** After enough healthy samples the rate is at its maximum, and further ones leave it there. */
  lemma HealthyConverges(c: Controller, ops: seq<Op>, f: Fractions)
    requires Reachable(c) && AllHealthy(ops)
    requires |ops| >= 10 * StepsFor(c.maxKbps - c.current)
    ensures Run(c, ops, f).current == c.maxKbps
  {
    UpMeasureFalls(c, ops, f);
    MeasuresPositive(Run(c, ops, f));
  }

  // ---------- the object ----------

  class AdaptiveBitrate {
    var currentKbps: int
    var minKbps: int
    var maxKbps: int
    var downStreak: nat
    var upStreak: nat
    var cooldown: nat

    ghost function State(): (c: Controller)
      reads this
    {
      Controller(currentKbps, minKbps, maxKbps, downStreak, upStreak, cooldown)
    }

    constructor (initialKbps: int, minKbps: int, maxKbps: int)
      requires minKbps <= maxKbps
      ensures State() == Created(initialKbps, minKbps, maxKbps) && Reachable(State())
    {
      this.currentKbps := Clamped(initialKbps, minKbps, maxKbps);
      this.minKbps, this.maxKbps := minKbps, maxKbps;
      downStreak, upStreak, cooldown := 0, 0, 0;
    }

    method Update(s: LinkSample, f: Fractions) returns (target: Option<int>)
      requires Reachable(State())
      modifies this
      ensures (State(), target) == Updated(old(State()), s, f) && Reachable(State())
    {
      NextReachable(State(), Sample(s), f);
      if cooldown > 0 {
        cooldown := cooldown - 1;
      }
      if IsBad(s) {
        downStreak := downStreak + 1;
        upStreak := 0;
        if downStreak >= DOWN_STREAK && cooldown == 0 {
          var step := Max(MIN_STEP, f.down(currentKbps));
          var next := Max(minKbps, currentKbps - step);
          downStreak := 0;
          if next != currentKbps {
            currentKbps := next;
            cooldown := COOLDOWN;
            return Some(next);
          }
        }
        return None;
      }
      if IsGood(s) {
        upStreak := upStreak + 1;
        downStreak := 0;
        if upStreak >= UP_STREAK && cooldown == 0 && currentKbps < maxKbps {
          var step := Max(MIN_STEP, f.up(currentKbps));
          var next := Min(maxKbps, currentKbps + step);
          upStreak := 0;
          if next != currentKbps {
            currentKbps := next;
            cooldown := COOLDOWN;
            return Some(next);
          }
        }
        return None;
      }
      downStreak, upStreak := 0, 0;
      return None;
    }

    method SetManual(kbps: int)
      requires Reachable(State())
      modifies this
      ensures State() == Forced(old(State()), kbps) && Reachable(State())
    {
      currentKbps := Clamped(kbps, minKbps, maxKbps);
      downStreak, upStreak := 0, 0;
      cooldown := COOLDOWN;
    }
  }
}
