/**
 DELTA congestion control (DeltaCC, crates/rift-core/src/cc.rs): windowed minimum and smoothed
 round-trip time, a state machine with persistence, and additive-increase,
 multiplicative-decrease of the bitrate. Floating point is modelled by reals, the clock by
 microseconds. Everything the controller keeps is related to the full list of samples.
 */
module Delta {
  import opened Common

  const SECOND: nat := 1_000_000
  const WINDOW: nat := 10 * SECOND
  const U64_MAX: nat := U64 - 1

  datatype Config = Config(
    targetDelayUs: nat, alpha: real, beta: real, increaseKbps: nat,
    minBitrateKbps: nat, maxBitrateKbps: nat, kPersistence: nat, epsilonUs: real)

  datatype DeltaState = Stable | Rising | Congested

  datatype Sample = Sample(at: nat, rtt: nat)

  /** How one sample looks to the state machine. */
  datatype Signal = Over | Rise | Fall | Flat

  /** `x as u32`: truncation, saturating at both ends. */
  function ToU32(x: real): nat {
    if x < 0.0 then 0 else Min(x.Floor, U32 - 1)
  }

  // ---------------------------------------------------------------------------
  // The windowed minimum
  // ---------------------------------------------------------------------------

  const SAMPLE_TIME: Sample -> nat := (s: Sample) => s.at

  /** `retain`: the samples younger than the window. */
  function Kept(h: seq<Sample>, now: nat): seq<Sample> { Recent(h, SAMPLE_TIME, WINDOW, now) }

  predicate InWindow(s: Sample, now: nat) { now < s.at + WINDOW }

  function MinRtt(h: seq<Sample>): nat {
    if h == [] then U64_MAX else Min(MinRtt(h[..|h| - 1]), h[|h| - 1].rtt)
  }

  function MaxRtt(h: seq<Sample>): nat {
    if h == [] then 0 else Max(MaxRtt(h[..|h| - 1]), h[|h| - 1].rtt)
  }

  lemma {:induction false} MinRttIsMin(h: seq<Sample>)
    requires forall i | 0 <= i < |h| :: h[i].rtt <= U64_MAX
    ensures forall s <- h :: MinRtt(h) <= s.rtt
    ensures h != [] ==> exists s :: s in h && s.rtt == MinRtt(h)
  {
    if h != [] {
      var n := |h| - 1;
      MinRttIsMin(h[..n]);
      assert h == h[..n] + [h[n]];
      if MinRtt(h[..n]) <= h[n].rtt && n > 0 {
        var s :| s in h[..n] && s.rtt == MinRtt(h[..n]);
        assert s in h;
      } else {
        assert h[n] in h;
      }
    }
  }

  /** The tracked minimum is the minimum over every sample ever fed that is younger than 10 s. */
  ghost predicate IsWindowMin(m: nat, h: seq<Sample>, now: nat) {
    && (exists s :: s in h && InWindow(s, now) && s.rtt == m)
    && (forall s <- h | InWindow(s, now) :: m <= s.rtt)
  }

  lemma WindowMin(h: seq<Sample>, now: nat)
    requires forall i | 0 <= i < |h| :: h[i].rtt <= U64_MAX
    requires exists s :: s in h && InWindow(s, now)
    ensures IsWindowMin(MinRtt(Kept(h, now)), h, now)
  {
    var r := Kept(h, now);
    forall s: Sample
      ensures s in r <==> s in h && InWindow(s, now)
    {
      RecentMember(h, SAMPLE_TIME, WINDOW, now, s);
    }
    assert forall i | 0 <= i < |r| :: r[i] in h;
    MinRttIsMin(r);
    var s :| s in r && s.rtt == MinRtt(r);
  }

  // ---------------------------------------------------------------------------
  // The smoothed round-trip time
  // ---------------------------------------------------------------------------

  function Smooth(alpha: real, smooth: real, rtt: nat): real {
    if smooth == 0.0 then rtt as real else (1.0 - alpha) * smooth + alpha * rtt as real
  }

  /** Smoothing never leaves the range of what it has seen. */
  lemma SmoothBetween(alpha: real, smooth: real, rtt: nat, lo: nat, hi: nat)
    requires 0.0 <= alpha <= 1.0 && lo as real <= smooth <= hi as real && lo <= rtt <= hi
    ensures lo as real <= Smooth(alpha, smooth, rtt) <= hi as real
  {
    if smooth != 0.0 {
      Convex(alpha, smooth, rtt as real, lo as real);
      Convex(alpha, -smooth, -(rtt as real), -(hi as real));
      NegateMix(alpha, smooth, rtt as real);
    }
  }

  /** A weighted mean of two numbers at or above `l` is at or above `l`. */
  lemma Convex(a: real, x: real, y: real, l: real)
    requires 0.0 <= a <= 1.0 && x >= l && y >= l
    ensures (1.0 - a) * x + a * y >= l
  {
    assert (1.0 - a) * (x - l) >= 0.0 && a * (y - l) >= 0.0;
    assert (1.0 - a) * x + a * y == l + (1.0 - a) * (x - l) + a * (y - l);
  }

  lemma NegateMix(a: real, x: real, y: real)
    ensures (1.0 - a) * (-x) + a * (-y) == -((1.0 - a) * x + a * y)
  {
  }

  lemma SmoothTracks(alpha: real, smooth: real, h: seq<Sample>, s: Sample)
    requires 0.0 <= alpha <= 1.0 && s.rtt <= U64_MAX
    requires h == [] ==> smooth == 0.0
    requires h != [] ==> MinRtt(h) as real <= smooth <= MaxRtt(h) as real
    ensures MinRtt(h + [s]) as real <= Smooth(alpha, smooth, s.rtt) <= MaxRtt(h + [s]) as real
  {
    assert (h + [s])[..|h|] == h;
    if h != [] {
      SmoothBetween(alpha, smooth, s.rtt, Min(MinRtt(h), s.rtt), Max(MaxRtt(h), s.rtt));
    }
  }

  // ---------------------------------------------------------------------------
  // The state machine
  // ---------------------------------------------------------------------------

  function Classify(c: Config, dq: real, delta: real, epsilon: real): Signal {
    if dq > c.targetDelayUs as real then Over
    else if delta > epsilon then Rise
    else if delta <= 0.0 then Fall
    else Flat
  }

  /** The queueing delay before sample `i`. */
  ghost function Before(delays: seq<real>, i: nat): real
    requires i <= |delays|
  {
    if i == 0 then 0.0 else delays[i - 1]
  }

  /** The delay is more than the noise floor above the one before it. */
  predicate Rose(before: real, dq: real, floor: real) { dq > before + floor }

  /** What a signal says about the delay, the delay before it and the noise floor. */
  ghost predicate Reads(c: Config, before: real, dq: real, floor: real, g: Signal) {
    var target := c.targetDelayUs as real;
    && (g.Over? <==> dq > target)
    && (g.Rise? <==> dq <= target && Rose(before, dq, floor))
    && (g.Fall? <==> dq <= target && !Rose(before, dq, floor) && dq <= before)
    && (g.Flat? <==> dq <= target && !Rose(before, dq, floor) && dq > before)
  }

  lemma ClassifyReads(c: Config, before: real, dq: real, floor: real)
    ensures Reads(c, before, dq, floor, Classify(c, dq, dq - before, floor))
  {
  }

  /** The signals of a run are those of its delays and noise floors. */
  ghost predicate SignalsRead(c: Config, delays: seq<real>, floors: seq<real>, signals: seq<Signal>) {
    && |delays| == |floors| == |signals|
    && forall i | 0 <= i < |signals| :: Reads(c, Before(delays, i), delays[i], floors[i], signals[i])
  }

  lemma SignalsAppend(c: Config, delays: seq<real>, floors: seq<real>, signals: seq<Signal>,
                      dq: real, floor: real, g: Signal)
    requires SignalsRead(c, delays, floors, signals) && Reads(c, Before(delays, |delays|), dq, floor, g)
    ensures SignalsRead(c, delays + [dq], floors + [floor], signals + [g])
  {
    var delays', floors', signals' := delays + [dq], floors + [floor], signals + [g];
    forall i | 0 <= i < |signals'|
      ensures Reads(c, Before(delays', i), delays'[i], floors'[i], signals'[i])
    {
      if i < |signals| {
        assert Reads(c, Before(delays, i), delays[i], floors[i], signals[i]);
      }
    }
  }

  /** Rising samples since the last over-target or non-increasing one. */
  ghost function RisingRun(hs: seq<Signal>): nat {
    if hs == [] then 0
    else match hs[|hs| - 1]
         case Over => 0
         case Rise => RisingRun(hs[..|hs| - 1]) + 1
         case Fall => 0
         case Flat => RisingRun(hs[..|hs| - 1])
  }

  /** Non-increasing samples since the last over-target or rising one. */
  ghost function CalmRun(hs: seq<Signal>): nat {
    if hs == [] then 0
    else match hs[|hs| - 1]
         case Over => 0
         case Rise => 0
         case Fall => CalmRun(hs[..|hs| - 1]) + 1
         case Flat => CalmRun(hs[..|hs| - 1])
  }

  ghost function CountRise(hs: seq<Signal>): nat {
    if hs == [] then 0 else CountRise(hs[..|hs| - 1]) + if hs[|hs| - 1].Rise? then 1 else 0
  }

  ghost function CountFall(hs: seq<Signal>): nat {
    if hs == [] then 0 else CountFall(hs[..|hs| - 1]) + if hs[|hs| - 1].Fall? then 1 else 0
  }

  /** The run is the number of rising samples in a final stretch free of over-target and non-increasing ones. */
  lemma {:induction false} RisingRunMeaning(hs: seq<Signal>) returns (p: nat)
    ensures p <= |hs| && (forall i | p <= i < |hs| :: hs[i].Rise? || hs[i].Flat?)
    ensures p > 0 ==> hs[p - 1].Over? || hs[p - 1].Fall?
    ensures CountRise(hs[p..]) == RisingRun(hs)
  {
    if hs == [] {
      p := 0;
    } else {
      var n := |hs| - 1;
      if hs[n].Over? || hs[n].Fall? {
        p := |hs|;
      } else {
        p := RisingRunMeaning(hs[..n]);
        assert hs[p..][..n - p] == hs[..n][p..];
      }
    }
  }

  lemma {:induction false} CalmRunMeaning(hs: seq<Signal>) returns (p: nat)
    ensures p <= |hs| && (forall i | p <= i < |hs| :: hs[i].Fall? || hs[i].Flat?)
    ensures p > 0 ==> hs[p - 1].Over? || hs[p - 1].Rise?
    ensures CountFall(hs[p..]) == CalmRun(hs)
  {
    if hs == [] {
      p := 0;
    } else {
      var n := |hs| - 1;
      if hs[n].Over? || hs[n].Rise? {
        p := |hs|;
      } else {
        p := CalmRunMeaning(hs[..n]);
        assert hs[p..][..n - p] == hs[..n][p..];
      }
    }
  }

  /** Sample j ends a calm run of at least k. */
  ghost predicate Releases(hs: seq<Signal>, k: nat, j: nat) {
    j < |hs| && hs[j].Fall? && CalmRun(hs[..j + 1]) >= k
  }

  ghost predicate NoReleaseAfter(hs: seq<Signal>, k: nat, i: nat) {
    forall j: nat | i < j < |hs| :: !Releases(hs, k, j)
  }

  /** Sample i went over target, and no calm run of k has happened since. */
  ghost predicate OverSince(hs: seq<Signal>, k: nat, i: nat) {
    i < |hs| && hs[i].Over? && NoReleaseAfter(hs, k, i)
  }

  /** Sample i completed a rising run of k, and no calm run of k has happened since. */
  ghost predicate RiseSince(hs: seq<Signal>, k: nat, i: nat) {
    i < |hs| && hs[i].Rise? && RisingRun(hs[..i + 1]) >= k && NoReleaseAfter(hs, k, i)
  }

  /** The state as a function of the whole history of signals. */
  ghost function StateOf(hs: seq<Signal>, k: nat): DeltaState {
    if exists i: nat :: OverSince(hs, k, i) then Congested
    else if exists i: nat :: RiseSince(hs, k, i) then Rising
    else Stable
  }

  function NextState(s: DeltaState, g: Signal, rising: nat, calm: nat, k: nat): DeltaState {
    match g
    case Over => Congested
    case Rise => if rising >= k && s.Stable? then Rising else s
    case Fall => if calm >= k then Stable else s
    case Flat => s
  }

  lemma ReleasesPrefix(hs: seq<Signal>, g: Signal, k: nat, j: nat)
    requires j < |hs|
    ensures Releases(hs + [g], k, j) <==> Releases(hs, k, j)
  {
    assert (hs + [g])[..j + 1] == hs[..j + 1];
  }

  /** What was pending stays pending unless this sample releases it. */
  lemma SinceExtends(hs: seq<Signal>, g: Signal, k: nat, i: nat)
    requires i < |hs|
    ensures NoReleaseAfter(hs + [g], k, i) <==> NoReleaseAfter(hs, k, i) && !Releases(hs + [g], k, |hs|)
    ensures OverSince(hs + [g], k, i) <==> OverSince(hs, k, i) && !Releases(hs + [g], k, |hs|)
    ensures RiseSince(hs + [g], k, i) <==> RiseSince(hs, k, i) && !Releases(hs + [g], k, |hs|)
  {
    forall j: nat | j < |hs|
      ensures Releases(hs + [g], k, j) <==> Releases(hs, k, j)
    {
      ReleasesPrefix(hs, g, k, j);
    }
    assert (hs + [g])[..i + 1] == hs[..i + 1];
  }

  /** The incremental state machine computes the state of the whole history. */
  lemma StateStep(hs: seq<Signal>, g: Signal, k: nat)
    ensures StateOf(hs + [g], k)
         == NextState(StateOf(hs, k), g, RisingRun(hs + [g]), CalmRun(hs + [g]), k)
  {
    var all, n := hs + [g], |hs|;
    assert all[..n + 1] == all;
    forall i: nat | i < n
      ensures OverSince(all, k, i) <==> OverSince(hs, k, i) && !Releases(all, k, n)
      ensures RiseSince(all, k, i) <==> RiseSince(hs, k, i) && !Releases(all, k, n)
    {
      SinceExtends(hs, g, k, i);
    }
    assert OverSince(all, k, n) <==> g.Over?;
    assert RiseSince(all, k, n) <==> g.Rise? && RisingRun(all) >= k;
    assert Releases(all, k, n) <==> g.Fall? && CalmRun(all) >= k;
    if i: nat :| OverSince(hs, k, i) {
      assert OverSince(all, k, i) <==> !Releases(all, k, n);
    }
    if i: nat :| RiseSince(hs, k, i) {
      assert RiseSince(all, k, i) <==> !Releases(all, k, n);
    }
    assert (exists i: nat :: OverSince(all, k, i)) <==>
           g.Over? || ((exists i: nat :: OverSince(hs, k, i)) && !Releases(all, k, n));
    assert (exists i: nat :: RiseSince(all, k, i)) <==>
           (g.Rise? && RisingRun(all) >= k) || ((exists i: nat :: RiseSince(hs, k, i)) && !Releases(all, k, n));
  }

  /**
   Every move of the state machine has its evidence. Becoming Rising takes k rising samples
   with no over-target or non-increasing one among them. Leaving Congested, or Rising
   downwards, leads only to Stable and takes k non-increasing samples with no over-target or
   rising one among them. Congested is entered only by a sample over target.
   */
  lemma Hysteresis(hs: seq<Signal>, g: Signal, k: nat) returns (p: nat)
    ensures p <= |hs| + 1
    ensures var all, from, to := hs + [g], StateOf(hs, k), StateOf(hs + [g], k);
            && (to.Rising? && !from.Rising? ==>
                  from.Stable? && CountRise(all[p..]) >= k && forall i | p <= i < |all| :: all[i].Rise? || all[i].Flat?)
            && (to.Stable? && !from.Stable? ==>
                  CountFall(all[p..]) >= k && forall i | p <= i < |all| :: all[i].Fall? || all[i].Flat?)
            && (to.Congested? && !from.Congested? ==> g.Over?)
            && (from.Congested? ==> !to.Rising?)
  {
    hide StateOf;
    StateStep(hs, g, k);
    if g.Rise? {
      p := RisingRunMeaning(hs + [g]);
    } else {
      p := CalmRunMeaning(hs + [g]);
    }
  }

  // ---------------------------------------------------------------------------
  // The control law
  // ---------------------------------------------------------------------------

  /** What the controller tells the encoder. */
  datatype Output = Output(state: DeltaState, bitrateKbps: nat, fps: nat, fecRatio: real)

  /** A rate scaled by a factor and truncated. */
  function Scaled(n: nat, f: real): nat { ToU32(n as real * f) }

  /** How much of the increase step is taken; division by a zero target gives none of it. */
  function Gain(c: Config, dq: real): real {
    if c.targetDelayUs == 0 then 0.0 else MaxReal(1.0 - dq / c.targetDelayUs as real, 0.0)
  }

  /** `a + b` on `u32` with overflow checks off. */
  function WrappingAdd(a: nat, b: nat): nat { (a + b) % U32 }

  function NextBitrate(c: Config, s: DeltaState, bitrate: nat, dq: real): nat {
    match s
    case Stable => Min(WrappingAdd(bitrate, Scaled(c.increaseKbps, Gain(c, dq))), c.maxBitrateKbps)
    case Rising => bitrate
    case Congested => Max(Scaled(bitrate, c.beta), c.minBitrateKbps)
  }

  /** Jitter moves the ratio first; the two caps may lower it as well as raise it. */
  function JitterFec(fec: real, jitterUs: nat): real {
    if jitterUs > 10_000 then MinReal(fec + 0.02, 0.25)
    else if jitterUs > 5_000 then MinReal(fec + 0.01, 0.20)
    else fec
  }

  function NextFec(s: DeltaState, fec: real, loss: real, jitterUs: nat): real {
    var f := JitterFec(fec, jitterUs);
    match s
    case Stable => if jitterUs < 5_000 then MaxReal(f - 0.001, 0.05) else f
    case Rising => f
    case Congested => if loss > 0.01 then MinReal(f * 1.5, 0.5) else f
  }

  function StepDownFps(fps: nat): nat {
    if fps == 144 || fps == 120 then 90
    else if fps == 90 then 60
    else if fps == 60 then 45
    else if fps == 45 then 30
    else if fps > 60 then 60
    else fps
  }

  ghost predicate ConfigOk(c: Config) {
    && 0.0 <= c.beta <= 1.0
    && c.minBitrateKbps <= c.maxBitrateKbps
    && c.maxBitrateKbps + c.increaseKbps < U32
  }

  ghost predicate InBounds(c: Config, o: Output) {
    && c.minBitrateKbps <= o.bitrateKbps <= c.maxBitrateKbps
    && 0.05 <= o.fecRatio <= 0.5
  }

  /** One sample's effect on what the encoder sees. */
  ghost predicate ControlStep(c: Config, a: Output, b: Output) {
    && (b.fps == a.fps || (b.state.Congested? && b.fps == StepDownFps(a.fps)))
    && (b.state.Stable? ==> a.bitrateKbps <= b.bitrateKbps <= a.bitrateKbps + c.increaseKbps)
    && (b.state.Rising? ==> b.bitrateKbps == a.bitrateKbps)
    && (b.state.Congested? ==> b.bitrateKbps == Max(Scaled(a.bitrateKbps, c.beta), c.minBitrateKbps))
  }

  ghost predicate ControlRun(c: Config, log: seq<Output>) {
    && (forall i | 0 <= i < |log| :: InBounds(c, log[i]))
    && (forall i | 0 < i < |log| :: ControlStep(c, log[i - 1], log[i]))
  }

  lemma GainRange(c: Config, dq: real)
    requires dq >= 0.0
    ensures 0.0 <= Gain(c, dq) <= 1.0
  {
    if c.targetDelayUs != 0 {
      assert dq / c.targetDelayUs as real >= 0.0;
    }
  }

  lemma Shrink(x: real, f: real)
    requires x >= 0.0 && 0.0 <= f <= 1.0
    ensures 0.0 <= x * f <= x
  {
    assert x * (1.0 - f) >= 0.0;
    assert x - x * f == x * (1.0 - f);
  }

  lemma ToU32Below(x: real, n: nat)
    requires 0.0 <= x <= n as real
    ensures ToU32(x) <= n && ToU32(x) as real <= x
  {
    assert x.Floor as real <= x;
  }

  lemma ScaleDown(n: nat, f: real)
    requires 0.0 <= f <= 1.0
    ensures Scaled(n, f) <= n
    ensures Scaled(n, f) as real <= n as real * f
  {
    hide ToU32;
    var x := n as real * f;
    assert 0.0 <= x <= n as real by { Shrink(n as real, f); }
    ToU32Below(x, n);
  }

  lemma WrappingAddFits(a: nat, b: nat)
    requires a + b < U32
    ensures WrappingAdd(a, b) == a + b
  {
  }

  lemma BitrateKeepsBounds(c: Config, s: DeltaState, bitrate: nat, dq: real)
    requires ConfigOk(c) && c.minBitrateKbps <= bitrate <= c.maxBitrateKbps && dq >= 0.0
    ensures c.minBitrateKbps <= NextBitrate(c, s, bitrate, dq) <= c.maxBitrateKbps
    ensures s.Stable? ==> bitrate <= NextBitrate(c, s, bitrate, dq) <= bitrate + c.increaseKbps
  {
    GainRange(c, dq);
    hide Gain;
    hide Scaled;
    hide WrappingAdd;
    ScaleDown(c.increaseKbps, Gain(c, dq));
    ScaleDown(bitrate, c.beta);
    WrappingAddFits(bitrate, Scaled(c.increaseKbps, Gain(c, dq)));
  }

  /** An additive increase never lowers the bitrate exactly when the sum fits 32 bits. */
  lemma IncreaseRaisesExactly(c: Config, bitrate: nat, dq: real)
    requires bitrate <= c.maxBitrateKbps < U32
    ensures bitrate <= NextBitrate(c, Stable, bitrate, dq)
       <==> bitrate + Scaled(c.increaseKbps, Gain(c, dq)) < U32
  {
    hide Gain;
    var sum := bitrate + Scaled(c.increaseKbps, Gain(c, dq));
    assert sum >= U32 ==> sum % U32 == sum - U32;
  }

  predicate InRange(c: Config, bitrate: nat) { c.minBitrateKbps <= bitrate <= c.maxBitrateKbps }

  /** The increased bitrate fits 32 bits, or what is left of it is not below the minimum. */
  predicate IncreaseFits(c: Config, bitrate: nat, dq: real) {
    var sum := bitrate + Scaled(c.increaseKbps, Gain(c, dq));
    sum < U32 || c.minBitrateKbps <= sum - U32
  }

  /** An additive increase keeps the bitrate in its range exactly when it fits. */
  lemma IncreaseInRangeExactly(c: Config, bitrate: nat, dq: real)
    requires InRange(c, bitrate) && c.maxBitrateKbps < U32
    ensures InRange(c, NextBitrate(c, Stable, bitrate, dq)) <==> IncreaseFits(c, bitrate, dq)
  {
    hide Gain;
    var sum := bitrate + Scaled(c.increaseKbps, Gain(c, dq));
    assert sum >= U32 ==> sum % U32 == sum - U32;
  }

  lemma StepInRangeExactly(c: Config, s: DeltaState, bitrate: nat, dq: real)
    requires InRange(c, bitrate) && c.maxBitrateKbps < U32 && 0.0 <= c.beta <= 1.0
    ensures InRange(c, NextBitrate(c, s, bitrate, dq)) <==> (s.Stable? ==> IncreaseFits(c, bitrate, dq))
  {
    hide IncreaseFits;
    hide Scaled;
    if s.Stable? {
      IncreaseInRangeExactly(c, bitrate, dq);
    } else {
      ScaleDown(bitrate, c.beta);
    }
  }

  /** The bitrates of a run follow the control law under the queueing delays of its samples. */
  ghost predicate LawRun(c: Config, log: seq<Output>, delays: seq<real>) {
    && |log| == |delays| + 1
    && forall i | 0 <= i < |delays| :: LawStep(c, log[i], log[i + 1], delays[i])
  }

  ghost predicate LawStep(c: Config, a: Output, b: Output, dq: real) {
    b.bitrateKbps == NextBitrate(c, b.state, a.bitrateKbps, dq)
  }

  ghost predicate StaysInRange(c: Config, log: seq<Output>) {
    forall i | 0 <= i < |log| :: InRange(c, log[i].bitrateKbps)
  }

  ghost predicate IncreasesFit(c: Config, log: seq<Output>, delays: seq<real>)
    requires |log| == |delays| + 1
  {
    forall i | 0 <= i < |delays| :: log[i + 1].state.Stable? ==> IncreaseFits(c, log[i].bitrateKbps, delays[i])
  }

  /** Over a whole run the bitrate stays in its range exactly when every additive increase of the run fits. */
  lemma {:induction false} RangeOverRun(c: Config, log: seq<Output>, delays: seq<real>)
    requires LawRun(c, log, delays) && InRange(c, log[0].bitrateKbps)
    requires c.maxBitrateKbps < U32 && 0.0 <= c.beta <= 1.0
    ensures StaysInRange(c, log) <==> IncreasesFit(c, log, delays)
  {
    hide IncreaseFits;
    hide NextBitrate;
    if delays != [] {
      var n := |delays| - 1;
      assert forall i | 0 <= i < n :: LawStep(c, log[i], log[i + 1], delays[i]);
      RangeOverRun(c, log[..n + 1], delays[..n]);
      assert LawStep(c, log[n], log[n + 1], delays[n]);
      assert StaysInRange(c, log) <==> StaysInRange(c, log[..n + 1]) && InRange(c, log[n + 1].bitrateKbps);
      assert IncreasesFit(c, log, delays) <==>
             && IncreasesFit(c, log[..n + 1], delays[..n])
             && (log[n + 1].state.Stable? ==> IncreaseFits(c, log[n].bitrateKbps, delays[n]));
      if StaysInRange(c, log[..n + 1]) {
        assert InRange(c, log[..n + 1][n].bitrateKbps);
        StepInRangeExactly(c, log[n + 1].state, log[n].bitrateKbps, delays[n]);
      }
    }
  }

  lemma LawAppend(c: Config, log: seq<Output>, delays: seq<real>, o: Output, dq: real)
    requires LawRun(c, log, delays) && LawStep(c, log[|log| - 1], o, dq)
    ensures LawRun(c, log + [o], delays + [dq])
  {
  }

  /** At the largest bitrate a `u32` holds, an increase of 500 drops it below the minimum. */
  lemma IncreaseOverflows(c: Config)
    requires c.minBitrateKbps == 2000 && c.maxBitrateKbps == U32 - 1 && c.increaseKbps == 500 && c.targetDelayUs == 15_000
    ensures NextBitrate(c, Stable, U32 - 1, 0.0) == 499
  {
    assert Gain(c, 0.0) == 1.0;
    assert 500 as real * 1.0 == 500.0 && 500.0.Floor == 500;
    assert Scaled(500, 1.0) == 500;
  }

  lemma FecKeepsBounds(s: DeltaState, fec: real, loss: real, jitterUs: nat)
    requires 0.05 <= fec <= 0.5
    ensures 0.05 <= NextFec(s, fec, loss, jitterUs) <= 0.5
  {
  }

  /** The control law keeps its bounds and is a control step. */
  lemma ControlKeepsBounds(c: Config, a: Output, s: DeltaState, dq: real, loss: real, jitterUs: nat, fps: nat)
    requires ConfigOk(c) && InBounds(c, a) && dq >= 0.0
    requires fps == a.fps || (s.Congested? && fps == StepDownFps(a.fps))
    ensures var b := Output(s, NextBitrate(c, s, a.bitrateKbps, dq), fps, NextFec(s, a.fecRatio, loss, jitterUs));
            InBounds(c, b) && ControlStep(c, a, b)
  {
    hide Scaled;
    hide NextFec;
    BitrateKeepsBounds(c, s, a.bitrateKbps, dq);
    FecKeepsBounds(s, a.fecRatio, loss, jitterUs);
  }

  ghost function Pow(b: real, n: nat): real { if n == 0 then 1.0 else b * Pow(b, n - 1) }

  lemma Weighted(w: real, x: real, y: real)
    requires w >= 0.0 && x >= y
    ensures x * w >= y * w
  {
    assert (x - y) * w >= 0.0;
    assert (x - y) * w == x * w - y * w;
  }

  lemma ScaledBound(beta: real, x: real, m: real, p: real)
    requires 0.0 <= beta <= 1.0 && m >= 0.0 && x <= MaxReal(m, p)
    ensures x * beta <= MaxReal(m, p * beta)
  {
    var top := MaxReal(m, p * beta);
    assert top >= m && top >= p * beta;
    if p <= m {
      assert x * beta <= m * beta by { Weighted(beta, m, x); }
      assert m * beta <= m by { Shrink(m, beta); }
    } else {
      assert x * beta <= p * beta by { Weighted(beta, p, x); }
    }
  }

  /** What the geometric bound says after n samples. */
  ghost function Decayed(c: Config, n: nat, bitrate: nat): real { Pow(c.beta, n) * bitrate as real }

  lemma DecayedStep(c: Config, n: nat, bitrate: nat)
    ensures Decayed(c, 0, bitrate) == bitrate as real
    ensures Decayed(c, n + 1, bitrate) == Decayed(c, n, bitrate) * c.beta
  {
    assert Pow(c.beta, 0) == 1.0;
    Associates(c.beta, Pow(c.beta, n), bitrate as real);
  }

  lemma Associates(a: real, b: real, c: real)
    ensures a * b * c == (b * c) * a
  {
  }

  /** n congested samples in a row bring the bitrate down geometrically, to its floor. */
  lemma {:induction false} CongestionConverges(c: Config, log: seq<Output>, i: nat, n: nat)
    requires ConfigOk(c) && ControlRun(c, log) && i + n < |log|
    requires forall j | i < j <= i + n :: log[j].state.Congested?
    ensures log[i + n].bitrateKbps as real <= MaxReal(c.minBitrateKbps as real, Decayed(c, n, log[i].bitrateKbps))
  {
    hide Decayed;
    hide Scaled;
    var b0 := log[i].bitrateKbps;
    if n == 0 {
      DecayedStep(c, 0, b0);
    } else {
      DecayedStep(c, n - 1, b0);
      CongestionConverges(c, log, i, n - 1);
      var prev, next := log[i + n - 1], log[i + n];
      assert ControlStep(c, prev, next) && InBounds(c, prev);
      assert next.state.Congested?;
      ScaleDown(prev.bitrateKbps, c.beta);
      ScaledBound(c.beta, prev.bitrateKbps as real, c.minBitrateKbps as real, Decayed(c, n - 1, b0));
    }
  }

  /** Over a whole run the frame rate never goes up, and never below 30 once it was there. */
  lemma {:induction false} FpsOnlyFalls(c: Config, log: seq<Output>, i: nat, j: nat)
    requires ControlRun(c, log) && i <= j < |log|
    ensures log[j].fps <= log[i].fps
    ensures log[i].fps >= 30 ==> log[j].fps >= 30
    decreases j
  {
    if i < j {
      FpsOnlyFalls(c, log, i, j - 1);
      assert ControlStep(c, log[j - 1], log[j]);
    }
  }

  lemma RunAppend(c: Config, log: seq<Output>, o: Output)
    requires ControlRun(c, log) && InBounds(c, o)
    requires log != [] ==> ControlStep(c, log[|log| - 1], o)
    ensures ControlRun(c, log + [o])
  {
  }

  // ---------------------------------------------------------------------------
  // The congestion timer
  // ---------------------------------------------------------------------------

  /** Sample `j` found the controller not congested and left it congested. */
  ghost predicate Enters(log: seq<Output>, j: nat) {
    j + 1 < |log| && !log[j].state.Congested? && log[j + 1].state.Congested?
  }

  ghost predicate CongestedFrom(log: seq<Output>, i: nat, n: nat) {
    n < |log| && forall m | i < m <= n :: log[m].state.Congested?
  }

  /** Sample `j` came more than a second after sample `i`, congested all the while. */
  ghost predicate SecondAfter(history: seq<Sample>, log: seq<Output>, i: nat, j: nat) {
    i < j < |history| && CongestedFrom(log, i, j + 1) && history[i].at + SECOND < history[j].at
  }

  /**
   The timer stands at sample `j`: congested ever since, no sample since more than a second
   later, and `j` either entered the congestion or came more than a second into it.
   */
  ghost predicate TimerAt(history: seq<Sample>, log: seq<Output>, t: nat, j: nat) {
    && j < |history| && |log| == |history| + 1 && history[j].at == t
    && CongestedFrom(log, j, |history|)
    && (forall i | j <= i < |history| :: history[i].at <= t + SECOND)
    && (Enters(log, j) || exists i: nat :: SecondAfter(history, log, i, j))
  }

  ghost predicate TimerRight(history: seq<Sample>, log: seq<Output>, timer: Option<nat>) {
    timer.Some? ==> exists j: nat :: TimerAt(history, log, timer.value, j)
  }

  /** One sample: the timer starts on entering, restarts after more than a second, else stays. */
  lemma TimerStep(history: seq<Sample>, log: seq<Output>, timer: Option<nat>, s: Sample, o: Output)
    requires |log| == |history| + 1 && TimerRight(history, log, timer)
    requires timer.Some? <==> log[|history|].state.Congested?
    requires forall i | 0 <= i < |history| :: history[i].at <= s.at
    ensures var timer' := if !o.state.Congested? then None
                          else if timer.None? || timer.value + SECOND < s.at then Some(s.at)
                          else timer;
            TimerRight(history + [s], log + [o], timer')
  {
    var history', log', n := history + [s], log + [o], |history|;
    if o.state.Congested? {
      if timer.None? {
        assert Enters(log', n);
        assert TimerAt(history', log', s.at, n);
      } else {
        var j: nat :| TimerAt(history, log, timer.value, j);
        if timer.value + SECOND < s.at {
          assert SecondAfter(history', log', j, n);
          assert TimerAt(history', log', s.at, n);
        } else {
          assert Enters(log, j) ==> Enters(log', j);
          if i: nat :| SecondAfter(history, log, i, j) {
            assert SecondAfter(history', log', i, j);
          }
          assert TimerAt(history', log', timer.value, j);
        }
      }
    }
  }

  // ---------------------------------------------------------------------------
  // The controller
  // ---------------------------------------------------------------------------

  class DeltaCC {
    const config: Config
    var rttSmoothUs: real
    var rttMinUs: nat
    var lastDqUs: real
    var state: DeltaState
    var risingCount: nat
    var stableCount: nat
    var congestedStart: Option<nat>
    var windowSamples: seq<Sample>
    var bitrateKbps: nat
    var fps: nat
    var fecRatio: real
    /** Every sample, every signal and every output so far. */
    ghost var history: seq<Sample>
    ghost var signals: seq<Signal>
    ghost var log: seq<Output>
    /** The queueing delay and the noise floor of each sample. */
    ghost var delays: seq<real>
    ghost var floors: seq<real>

    /** The configuration makes sense and the run began inside its bitrate range. */
    ghost predicate Sound()
      reads this
      requires log != []
    {
      ConfigOk(config) && InBounds(config, log[0])
    }

    /** The measurements agree with the whole history. */
    ghost predicate Measured()
      reads this
    {
      && (forall i | 0 <= i < |history| :: history[i].rtt <= U64_MAX)
      && (forall i | 0 <= i < |history| :: history[i].at <= Clock())
      && windowSamples == Kept(history, Clock())
      && rttMinUs == MinRtt(windowSamples)
      && (history == [] ==> rttSmoothUs == 0.0)
      && (history != [] && 0.0 <= config.alpha <= 1.0 ==>
            MinRtt(history) as real <= rttSmoothUs <= MaxRtt(history) as real)
    }

    /** When the last sample came. */
    ghost function Clock(): nat
      reads this
    {
      if history == [] then 0 else history[|history| - 1].at
    }

    /** The counters and the state agree with the whole history of signals. */
    ghost predicate InState()
      reads this
    {
      && risingCount == RisingRun(signals)
      && stableCount == CalmRun(signals)
      && state == StateOf(signals, config.kPersistence)
      && (congestedStart.Some? <==> state.Congested?)
    }

    /** Every output, signal and the timer follow from the delays, the noise floors and the samples. */
    ghost predicate Explained()
      reads this
    {
      && |history| == |signals| == |delays|
      && LawRun(config, log, delays)
      && SignalsRead(config, delays, floors, signals)
      && lastDqUs == Before(delays, |delays|)
      && TimerRight(history, log, congestedStart)
    }

    ghost predicate Valid()
      reads this
    {
      && Measured()
      && InState()
      && |log| == |signals| + 1
      && (Sound() ==> ControlRun(config, log))
      && Explained()
      && log[|log| - 1] == Output(state, bitrateKbps, fps, fecRatio)
    }

    constructor (config: Config, initialBitrate: nat, initialFps: nat)
      ensures Valid() && this.config == config && history == [] && state == Stable
      ensures log == [Output(Stable, initialBitrate, initialFps, 0.05)] && delays == [] && floors == []
    {
      this.config := config;
      rttSmoothUs, rttMinUs, lastDqUs := 0.0, U64_MAX, 0.0;
      state, risingCount, stableCount, congestedStart := Stable, 0, 0, None;
      windowSamples := [];
      bitrateKbps, fps, fecRatio := initialBitrate, initialFps, 0.05;
      history, signals, log := [], [], [Output(Stable, initialBitrate, initialFps, 0.05)];
      delays, floors := [], [];
    }

    /** Whatever the configuration, the bitrates of a run stay in their range exactly when its increases fit. */
    lemma RangeSoFar()
      requires Valid() && InRange(config, log[0].bitrateKbps)
      requires config.maxBitrateKbps < U32 && 0.0 <= config.beta <= 1.0
      ensures StaysInRange(config, log) <==> IncreasesFit(config, log, delays)
    {
      RangeOverRun(config, log, delays);
    }

    method UpdateRttMin(now: nat, rttUs: nat)
      requires Measured() && rttUs <= U64_MAX && now >= Clock()
      modifies this`windowSamples, this`rttMinUs, this`history
      ensures history == old(history) + [Sample(now, rttUs)]
      ensures windowSamples == Kept(history, now) && rttMinUs == MinRtt(windowSamples)
      ensures IsWindowMin(rttMinUs, history, now)
    {
      RecentTwice(history, SAMPLE_TIME, WINDOW, Clock(), now);
      RecentAppend(history, Sample(now, rttUs), SAMPLE_TIME, WINDOW, now);
      history := history + [Sample(now, rttUs)];
      windowSamples := Kept(windowSamples, now);
      windowSamples := windowSamples + [Sample(now, rttUs)];
      rttMinUs := MinRtt(windowSamples);
      assert history[|history| - 1] == Sample(now, rttUs) && InWindow(Sample(now, rttUs), now);
      WindowMin(history, now);
    }

    method UpdateState(now: nat, dq: real, delta: real, epsilon: real)
      requires InState()
      modifies this`state, this`risingCount, this`stableCount, this`congestedStart, this`signals
      ensures InState()
      ensures signals == old(signals) + [Classify(config, dq, delta, epsilon)]
      ensures state.Congested? ==> congestedStart == if old(state).Congested? then old(congestedStart) else Some(now)
    {
      ghost var g := Classify(config, dq, delta, epsilon);
      StateStep(signals, g, config.kPersistence);
      assert (signals + [g])[..|signals|] == signals;
      hide StateOf;
      signals := signals + [g];
      if dq > config.targetDelayUs as real {
        if state != Congested {
          state := Congested;
          congestedStart := Some(now);
        }
        risingCount := 0;
        stableCount := 0;
      } else if delta > epsilon {
        risingCount := risingCount + 1;
        if risingCount >= config.kPersistence && state == Stable {
          state := Rising;
        }
        stableCount := 0;
      } else if delta <= 0.0 {
        stableCount := stableCount + 1;
        if stableCount >= config.kPersistence && state != Stable {
          state := Stable;
          congestedStart := None;
        }
        risingCount := 0;
      }
    }

    method UpdateParams(now: nat, dq: real, packetLoss: real, jitterUs: nat)
      requires log != [] && dq >= 0.0
      requires Sound() ==> ControlRun(config, log)
      requires log[|log| - 1] == Output(log[|log| - 1].state, bitrateKbps, fps, fecRatio)
      requires congestedStart.Some? <==> state.Congested?
      requires LawRun(config, log, delays)
      modifies this`bitrateKbps, this`fps, this`fecRatio, this`congestedStart, this`log, this`delays
      ensures LawRun(config, log, delays) && delays == old(delays) + [dq]
      ensures log != [] && (Sound() ==> ControlRun(config, log))
      ensures bitrateKbps == NextBitrate(config, state, old(bitrateKbps), dq)
      ensures fecRatio == NextFec(state, old(fecRatio), packetLoss, jitterUs)
      ensures log == old(log) + [Output(state, bitrateKbps, fps, fecRatio)]
      ensures congestedStart.Some? <==> state.Congested?
      ensures if state.Congested? && SatSub(now, old(congestedStart).value) > SECOND
              then fps == StepDownFps(old(fps)) && congestedStart == Some(now)
              else fps == old(fps) && congestedStart == old(congestedStart)
    {
      ghost var before := log[|log| - 1];
      ghost var sound := Sound();
      assert sound ==> InBounds(config, before);
      hide Scaled;
      hide Gain;
      hide WrappingAdd;
      hide ControlRun;
      hide LawRun;
      fecRatio := UpdateFec(packetLoss, jitterUs);
      match state {
        case Stable =>
          var increase := Scaled(config.increaseKbps, Gain(config, dq));
          bitrateKbps := Min(WrappingAdd(bitrateKbps, increase), config.maxBitrateKbps);
        case Rising =>
        case Congested =>
          bitrateKbps := Scaled(bitrateKbps, config.beta);
          bitrateKbps := Max(bitrateKbps, config.minBitrateKbps);
          if SatSub(now, congestedStart.value) > SECOND {
            fps := StepDownFps(fps);
            congestedStart := Some(now);
          }
      }
      hide NextFec;
      hide InBounds;
      hide ControlStep;
      if sound {
        ControlKeepsBounds(config, before, state, dq, packetLoss, jitterUs, fps);
        RunAppend(config, log, Output(state, bitrateKbps, fps, fecRatio));
      }
      LawAppend(config, log, delays, Output(state, bitrateKbps, fps, fecRatio), dq);
      log := log + [Output(state, bitrateKbps, fps, fecRatio)];
      delays := delays + [dq];
    }

    /** The redundancy part of `update_params`. */
    method UpdateFec(packetLoss: real, jitterUs: nat) returns (ratio: real)
      ensures ratio == NextFec(state, fecRatio, packetLoss, jitterUs)
    {
      ratio := fecRatio;
      if jitterUs > 10_000 {
        ratio := MinReal(ratio + 0.02, 0.25);
      } else if jitterUs > 5_000 {
        ratio := MinReal(ratio + 0.01, 0.20);
      }
      if state.Stable? && jitterUs < 5_000 {
        ratio := MaxReal(ratio - 0.001, 0.05);
      }
      if state.Congested? && packetLoss > 0.01 {
        ratio := MinReal(ratio * 1.5, 0.5);
      }
    }

    method OnRttSample(rttUs: nat, packetLoss: real, jitterUs: nat, now: nat)
      requires Valid() && rttUs <= U64_MAX && now >= Clock()
      modifies this
      ensures Valid()
      ensures history == old(history) + [Sample(now, rttUs)]
      ensures IsWindowMin(rttMinUs, history, now)
      ensures rttSmoothUs == Smooth(config.alpha, old(rttSmoothUs), rttUs)
      ensures lastDqUs == MaxReal(rttSmoothUs - rttMinUs as real, 0.0)
      ensures signals == old(signals)
                         + [Classify(config, lastDqUs, lastDqUs - old(lastDqUs), Epsilon(config, rttSmoothUs, jitterUs))]
      ensures log == old(log) + [Output(state, NextBitrate(config, state, old(bitrateKbps), lastDqUs), fps,
                                        NextFec(state, old(fecRatio), packetLoss, jitterUs))]
      ensures delays == old(delays) + [lastDqUs] && floors == old(floors) + [Epsilon(config, rttSmoothUs, jitterUs)]
      ensures state == StateOf(signals, config.kPersistence)
      ensures fps == if state.Congested? && old(congestedStart).Some? && SatSub(now, old(congestedStart).value) > SECOND
                     then StepDownFps(old(fps)) else old(fps)
    {
      hide StateOf;
      hide RisingRun;
      hide CalmRun;
      hide ControlRun;
      hide LawRun;
      hide SignalsRead;
      hide Reads;
      hide TimerRight;
      hide Classify;
      hide Epsilon;
      hide Smooth;
      hide IsWindowMin;
      hide NextBitrate;
      hide NextFec;
      hide StepDownFps;
      hide Kept;
      hide MinRtt;
      hide MaxRtt;
      ghost var timer := congestedStart;
      NoneLater(now);
      var dq := Measure(rttUs, now);
      var delta := dq - lastDqUs;
      lastDqUs := dq;
      var epsilon := Epsilon(config, rttSmoothUs, jitterUs);
      ClassifyReads(config, Before(delays, |delays|), dq, epsilon);
      SignalsAppend(config, delays, floors, signals, dq, epsilon, Classify(config, dq, delta, epsilon));
      UpdateState(now, dq, delta, epsilon);
      UpdateParams(now, dq, packetLoss, jitterUs);
      floors := floors + [epsilon];
      TimerStep(old(history), old(log), timer, Sample(now, rttUs), log[|log| - 1]);
    }

    lemma NoneLater(now: nat)
      requires Measured() && now >= Clock()
      ensures forall i | 0 <= i < |history| :: history[i].at <= now
    {
    }

    /** Windowed minimum, smoothed time, and the queueing delay between them. */
    method Measure(rttUs: nat, now: nat) returns (dq: real)
      requires Measured() && rttUs <= U64_MAX && now >= Clock()
      modifies this`windowSamples, this`rttMinUs, this`history, this`rttSmoothUs
      ensures Measured() && history == old(history) + [Sample(now, rttUs)]
      ensures IsWindowMin(rttMinUs, history, now)
      ensures rttSmoothUs == Smooth(config.alpha, old(rttSmoothUs), rttUs)
      ensures dq == MaxReal(rttSmoothUs - rttMinUs as real, 0.0) >= 0.0
    {
      hide Recent;
      hide MinRtt;
      hide MaxRtt;
      hide Smooth;
      hide IsWindowMin;
      if 0.0 <= config.alpha <= 1.0 {
        SmoothTracks(config.alpha, rttSmoothUs, history, Sample(now, rttUs));
      }
      UpdateRttMin(now, rttUs);
      rttSmoothUs := Smooth(config.alpha, rttSmoothUs, rttUs);
      dq := MaxReal(rttSmoothUs - rttMinUs as real, 0.0);
    }
  }

  /** The slope noise floor. */
  function Epsilon(c: Config, smooth: real, jitterUs: nat): real {
    if smooth > 0.0 && c.alpha != 1.0 then smooth * 0.05
    else if jitterUs > 0 then jitterUs as real * 0.5
    else c.epsilonUs
  }
}
