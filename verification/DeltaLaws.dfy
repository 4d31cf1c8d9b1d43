/**
 What DELTA does, in terms of the delays it measures: which delays move its state, how fast it
 follows a round-trip time, and how its outputs move over runs of like samples.
 */
module DeltaLaws {
  import opened Common
  import opened Delta

  // ---------------------------------------------------------------------------
  // The state, from the delays
  // ---------------------------------------------------------------------------

  ghost predicate WithinTarget(c: Config, dq: real) { dq <= c.targetDelayUs as real }

  /** Sample `i` is more than the noise floor above the one before it. */
  ghost predicate RoseAt(delays: seq<real>, floors: seq<real>, i: nat)
    requires i < |delays| == |floors|
  {
    delays[i] > Before(delays, i) + floors[i]
  }

  ghost function Rises(delays: seq<real>, floors: seq<real>, p: nat): set<nat>
    requires |delays| == |floors|
  {
    set i: nat | p <= i < |delays| && RoseAt(delays, floors, i)
  }

  /** The samples from `p` on whose delay is at or below the one before. */
  ghost function Falls(delays: seq<real>, p: nat): set<nat> {
    set i: nat | p <= i < |delays| && delays[i] <= Before(delays, i)
  }

  lemma {:induction false} CountRiseIsSet(signals: seq<Signal>, p: nat)
    requires p <= |signals|
    ensures CountRise(signals[p..]) == |set i: nat | p <= i < |signals| && signals[i].Rise?|
  {
    var all := set i: nat | p <= i < |signals| && signals[i].Rise?;
    if p == |signals| {
      assert all == {};
    } else {
      var n := |signals| - 1;
      var before := signals[..n];
      CountRiseIsSet(before, p);
      assert signals[p..][..n - p] == before[p..];
      assert all == (set i: nat | p <= i < |before| && before[i].Rise?) + if signals[n].Rise? then {n} else {};
    }
  }

  lemma {:induction false} CountFallIsSet(signals: seq<Signal>, p: nat)
    requires p <= |signals|
    ensures CountFall(signals[p..]) == |set i: nat | p <= i < |signals| && signals[i].Fall?|
  {
    var all := set i: nat | p <= i < |signals| && signals[i].Fall?;
    if p == |signals| {
      assert all == {};
    } else {
      var n := |signals| - 1;
      var before := signals[..n];
      CountFallIsSet(before, p);
      assert signals[p..][..n - p] == before[p..];
      assert all == (set i: nat | p <= i < |before| && before[i].Fall?) + if signals[n].Fall? then {n} else {};
    }
  }

  /**
   Becoming Rising takes k samples, each more than the noise floor above the one before, in a
   stretch in which the delay never falls and never passes the target.
   */
  lemma RisingTakesRises(c: Config, delays: seq<real>, floors: seq<real>, signals: seq<Signal>, k: nat) returns (p: nat)
    requires SignalsRead(c, delays, floors, signals) && signals != []
    requires StateOf(signals, k).Rising? && !StateOf(signals[..|signals| - 1], k).Rising?
    ensures p <= |signals| && StateOf(signals[..|signals| - 1], k).Stable?
    ensures forall i: nat | p <= i < |signals| ::
              WithinTarget(c, delays[i]) && (RoseAt(delays, floors, i) || delays[i] > Before(delays, i))
    ensures |Rises(delays, floors, p)| >= k
  {
    hide StateOf;
    var n := |signals| - 1;
    assert signals[..n] + [signals[n]] == signals;
    p := Hysteresis(signals[..n], signals[n], k);
    CountRiseIsSet(signals, p);
    assert (set i: nat | p <= i < |signals| && signals[i].Rise?) == Rises(delays, floors, p);
  }

  /**
   Returning to Stable takes k samples at or below the one before, in a stretch in which the
   delay never rises by more than the noise floor and never passes the target.
   */
  lemma StableTakesFalls(c: Config, delays: seq<real>, floors: seq<real>, signals: seq<Signal>, k: nat) returns (p: nat)
    requires SignalsRead(c, delays, floors, signals) && signals != []
    requires StateOf(signals, k).Stable? && !StateOf(signals[..|signals| - 1], k).Stable?
    ensures p <= |signals|
    ensures forall i: nat | p <= i < |signals| :: WithinTarget(c, delays[i]) && !RoseAt(delays, floors, i)
    ensures |Falls(delays, p)| >= k
  {
    hide StateOf;
    var n := |signals| - 1;
    assert signals[..n] + [signals[n]] == signals;
    p := Hysteresis(signals[..n], signals[n], k);
    CountFallIsSet(signals, p);
    assert (set i: nat | p <= i < |signals| && signals[i].Fall?) == Falls(delays, p);
  }

  /** A delay past the target makes the controller congested, and nothing else does. */
  lemma CongestedByDelay(c: Config, delays: seq<real>, floors: seq<real>, signals: seq<Signal>, k: nat)
    requires SignalsRead(c, delays, floors, signals) && signals != []
    ensures var n := |signals| - 1;
            && (!WithinTarget(c, delays[n]) ==> StateOf(signals, k).Congested?)
            && (StateOf(signals, k).Congested? && !StateOf(signals[..n], k).Congested? ==> !WithinTarget(c, delays[n]))
            && (StateOf(signals[..n], k).Congested? ==> !StateOf(signals, k).Rising?)
  {
    hide StateOf;
    var n := |signals| - 1;
    assert signals[..n] + [signals[n]] == signals;
    StateStep(signals[..n], signals[n], k);
  }

  /** Delays that stay within the target and never rise by more than the noise floor never leave Stable. */
  lemma CalmStaysStable(c: Config, delays: seq<real>, floors: seq<real>, signals: seq<Signal>, k: nat)
    requires SignalsRead(c, delays, floors, signals)
    requires forall i: nat | i < |delays| :: WithinTarget(c, delays[i]) && !RoseAt(delays, floors, i)
    ensures StateOf(signals, k).Stable?
  {
    forall i: nat | i < |signals|
      ensures !signals[i].Over? && !signals[i].Rise?
    {
      assert Reads(c, Before(delays, i), delays[i], floors[i], signals[i]);
      assert WithinTarget(c, delays[i]);
    }
  }

  /** k samples in a row above the noise floor, within the target, take a stable controller to Rising. */
  lemma RisesMakeRising(c: Config, delays: seq<real>, floors: seq<real>, signals: seq<Signal>, k: nat)
    requires SignalsRead(c, delays, floors, signals) && 0 < k <= |signals|
    requires StateOf(signals[..|signals| - k], k).Stable?
    requires forall i: nat | |signals| - k <= i < |signals| :: WithinTarget(c, delays[i]) && RoseAt(delays, floors, i)
    ensures StateOf(signals, k).Rising?
  {
    forall i: nat | |signals| - k <= i < |signals|
      ensures signals[i].Rise?
    {
      assert Reads(c, Before(delays, i), delays[i], floors[i], signals[i]);
    }
    RiseAfterRise(signals, |signals| - k, k, k);
    assert signals[..|signals|] == signals;
  }

  lemma {:induction false} RiseAfterRise(signals: seq<Signal>, s: nat, m: nat, k: nat)
    requires s + m <= |signals| && StateOf(signals[..s], k).Stable?
    requires forall i: nat | s <= i < s + m :: signals[i].Rise?
    ensures var now := signals[..s + m];
            && !StateOf(now, k).Congested? && RisingRun(now) >= m
            && (0 < m && k <= m ==> StateOf(now, k).Rising?)
  {
    hide StateOf;
    if m > 0 {
      RiseAfterRise(signals, s, m - 1, k);
      var before := signals[..s + m - 1];
      assert before + [signals[s + m - 1]] == signals[..s + m];
      assert signals[..s + m][..s + m - 1] == before;
      assert RisingRun(signals[..s + m]) == RisingRun(before) + 1;
      hide RisingRun;
      hide CalmRun;
      StateStep(before, signals[s + m - 1], k);
    }
  }

  /** k samples in a row that do not rise, within the target, bring the controller back to Stable from anywhere. */
  lemma FallsMakeStable(c: Config, delays: seq<real>, floors: seq<real>, signals: seq<Signal>, k: nat)
    requires SignalsRead(c, delays, floors, signals) && 0 < k <= |signals|
    requires forall i: nat | |signals| - k <= i < |signals| ::
               WithinTarget(c, delays[i]) && delays[i] <= Before(delays, i) && !RoseAt(delays, floors, i)
    ensures StateOf(signals, k).Stable?
  {
    forall i: nat | |signals| - k <= i < |signals|
      ensures signals[i].Fall?
    {
      assert Reads(c, Before(delays, i), delays[i], floors[i], signals[i]);
    }
    FallAfterFall(signals, |signals| - k, k, k);
    assert signals[..|signals|] == signals;
  }

  lemma {:induction false} FallAfterFall(signals: seq<Signal>, s: nat, m: nat, k: nat)
    requires s + m <= |signals|
    requires forall i: nat | s <= i < s + m :: signals[i].Fall?
    ensures var now := signals[..s + m];
            CalmRun(now) >= m && (0 < m && k <= m ==> StateOf(now, k).Stable?)
  {
    hide StateOf;
    if m > 0 {
      FallAfterFall(signals, s, m - 1, k);
      var before := signals[..s + m - 1];
      assert before + [signals[s + m - 1]] == signals[..s + m];
      assert signals[..s + m][..s + m - 1] == before;
      assert CalmRun(signals[..s + m]) == CalmRun(before) + 1;
      hide RisingRun;
      hide CalmRun;
      StateStep(before, signals[s + m - 1], k);
    }
  }

  // ---------------------------------------------------------------------------
  // Measurements
  // ---------------------------------------------------------------------------

  /** The first sample is taken as it is; after that each moves the smoothed time alpha of the way to it. */
  lemma SmoothMoves(alpha: real, smooth: real, rtt: nat)
    ensures smooth == 0.0 ==> Smooth(alpha, smooth, rtt) == rtt as real
    ensures smooth != 0.0 ==> Smooth(alpha, smooth, rtt) - smooth == alpha * (rtt as real - smooth)
  {
  }

  lemma SmoothShrinks(alpha: real, smooth: real, rtt: nat)
    requires 0.0 <= alpha <= 1.0 && smooth > 0.0 && rtt > 0
    ensures Smooth(alpha, smooth, rtt) > 0.0
    ensures Smooth(alpha, smooth, rtt) - rtt as real == (smooth - rtt as real) * (1.0 - alpha)
  {
    Convex(alpha, smooth, rtt as real, MinReal(smooth, rtt as real));
  }

  /** n samples of the same round-trip time. */
  ghost function SmoothRun(alpha: real, smooth: real, rtt: nat, n: nat): real {
    if n == 0 then smooth else Smooth(alpha, SmoothRun(alpha, smooth, rtt, n - 1), rtt)
  }

  /** The distance to a steady round-trip time shrinks by the factor 1 - alpha with every sample. */
  lemma {:induction false} SmoothConverges(alpha: real, smooth: real, rtt: nat, n: nat)
    requires 0.0 <= alpha <= 1.0 && smooth > 0.0 && rtt > 0
    ensures SmoothRun(alpha, smooth, rtt, n) > 0.0
    ensures SmoothRun(alpha, smooth, rtt, n) - rtt as real == Pow(1.0 - alpha, n) * (smooth - rtt as real)
  {
    if n > 0 {
      SmoothConverges(alpha, smooth, rtt, n - 1);
      var s, r, q := SmoothRun(alpha, smooth, rtt, n - 1), rtt as real, Pow(1.0 - alpha, n - 1);
      SmoothShrinks(alpha, s, rtt);
      hide Smooth;
      Associates(1.0 - alpha, q, smooth - r);
    }
  }

  /** The noise floor: a twentieth of the smoothed time, else half the jitter, else the configured one. */
  lemma EpsilonMeans(c: Config, smooth: real, jitterUs: nat)
    ensures smooth > 0.0 && c.alpha != 1.0 ==> 20.0 * Epsilon(c, smooth, jitterUs) == smooth
    ensures (smooth <= 0.0 || c.alpha == 1.0) && jitterUs > 0 ==> 2.0 * Epsilon(c, smooth, jitterUs) == jitterUs as real
    ensures (smooth <= 0.0 || c.alpha == 1.0) && jitterUs == 0 ==> Epsilon(c, smooth, jitterUs) == c.epsilonUs
  {
  }

  // ---------------------------------------------------------------------------
  // Outputs
  // ---------------------------------------------------------------------------

  lemma ShareLeft(x: real, t: real)
    requires t > 0.0
    ensures (1.0 - x) * t == t - x * t
    ensures x <= 1.0 <==> x * t <= t
  {
    assert (1.0 - x) * t == t - x * t;
    if x <= 1.0 {
      assert (1.0 - x) * t >= 0.0;
    } else {
      assert (x - 1.0) * t > 0.0;
      assert (x - 1.0) * t == x * t - t;
    }
  }

  /** The share of the increase taken is the share of the target delay that is left. */
  lemma GainMeans(c: Config, dq: real)
    requires c.targetDelayUs > 0
    ensures Gain(c, dq) * c.targetDelayUs as real == MaxReal(c.targetDelayUs as real - dq, 0.0)
  {
    var t := c.targetDelayUs as real;
    var x := dq / t;
    assert x * t == dq;
    ShareLeft(x, t);
    assert Gain(c, dq) == MaxReal(1.0 - x, 0.0);
    if x > 1.0 {
      assert Gain(c, dq) == 0.0;
    }
  }

  /** `x` is `y` rounded down. */
  ghost predicate RoundsDown(x: nat, y: real) { x as real <= y < x as real + 1.0 }

  lemma RoundsDownWhole(x: nat, y: real, n: nat)
    requires RoundsDown(x, y) && y == n as real
    ensures x == n
  {
  }

  lemma TruncationRoundsDown(x: real, n: nat)
    requires 0.0 <= x <= n as real && n < U32
    ensures RoundsDown(ToU32(x), x)
  {
    assert x.Floor as real <= x < x.Floor as real + 1.0;
  }

  function Share(n: nat, f: real): real { n as real * f }

  lemma ShareBounds(n: nat, f: real)
    requires 0.0 <= f <= 1.0
    ensures 0.0 <= Share(n, f) <= n as real
    ensures f == 1.0 ==> Share(n, f) == n as real
    ensures f == 0.0 ==> Share(n, f) == 0.0
    ensures Scaled(n, f) == ToU32(Share(n, f))
  {
    var x := n as real;
    Shrink(x, f);
  }

  /** Scaling by a factor of at most one rounds down. */
  lemma ScaledMeans(n: nat, f: real)
    requires 0.0 <= f <= 1.0 && n < U32
    ensures RoundsDown(Scaled(n, f), Share(n, f))
    ensures f == 1.0 ==> Scaled(n, f) == n
    ensures f == 0.0 ==> Scaled(n, f) == 0
  {
    ShareBounds(n, f);
    hide Share;
    hide Scaled;
    TruncationRoundsDown(Share(n, f), n);
    hide ToU32;
    if f == 1.0 {
      RoundsDownWhole(Scaled(n, f), Share(n, f), n);
    } else if f == 0.0 {
      RoundsDownWhole(Scaled(n, f), Share(n, f), 0);
    }
  }

  /**
   What each state does to the bitrate, where nothing overflows: Rising holds it; Congested
   multiplies it by beta, down to the minimum; Stable adds the share of the increase that the
   delay leaves, up to the maximum.
   */
  lemma BitrateMoves(c: Config, bitrate: nat, dq: real) returns (step: nat, cut: nat)
    requires ConfigOk(c) && bitrate <= c.maxBitrateKbps && dq >= 0.0
    ensures NextBitrate(c, Rising, bitrate, dq) == bitrate
    ensures RoundsDown(cut, Share(bitrate, c.beta))
    ensures NextBitrate(c, Congested, bitrate, dq) == Max(cut, c.minBitrateKbps)
    ensures NextBitrate(c, Stable, bitrate, dq) == Min(bitrate + step, c.maxBitrateKbps)
    ensures RoundsDown(step, Share(c.increaseKbps, Gain(c, dq)))
    ensures c.targetDelayUs > 0 && dq == 0.0 ==> step == c.increaseKbps
    ensures !(c.targetDelayUs > 0 && dq < c.targetDelayUs as real) ==> step == 0
  {
    hide Gain;
    hide Scaled;
    hide WrappingAdd;
    hide RoundsDown;
    hide Share;
    GainRange(c, dq);
    step, cut := Scaled(c.increaseKbps, Gain(c, dq)), Scaled(bitrate, c.beta);
    ScaledMeans(c.increaseKbps, Gain(c, dq));
    ScaledMeans(bitrate, c.beta);
    ScaleDown(c.increaseKbps, Gain(c, dq));
    WrappingAddFits(bitrate, step);
    GainAtEnds(c, dq);
  }

  lemma GainAtEnds(c: Config, dq: real)
    requires dq >= 0.0
    ensures c.targetDelayUs > 0 && dq == 0.0 ==> Gain(c, dq) == 1.0
    ensures !(c.targetDelayUs > 0 && dq < c.targetDelayUs as real) ==> Gain(c, dq) == 0.0
  {
    if c.targetDelayUs > 0 {
      GainMeans(c, dq);
      var t, g := c.targetDelayUs as real, Gain(c, dq);
      hide Gain;
      if dq >= t {
        assert g * t == 0.0;
      } else if dq == 0.0 {
        assert g * t == t;
        ShareLeft(g, t);
        assert (1.0 - g) * t == 0.0;
      }
    }
  }

  /** n samples of the same kind. */
  ghost function FecRun(s: DeltaState, fec: real, loss: real, jitterUs: nat, n: nat): real {
    if n == 0 then fec else NextFec(s, FecRun(s, fec, loss, jitterUs, n - 1), loss, jitterUs)
  }

  /** Calm and stable, the redundancy sinks by a thousandth per sample to five percent. */
  lemma {:induction false} FecSinks(fec: real, loss: real, jitterUs: nat, n: nat)
    requires fec >= 0.05 && jitterUs < 5_000
    ensures FecRun(Stable, fec, loss, jitterUs, n) == MaxReal(fec - n as real * 0.001, 0.05)
  {
    if n > 0 {
      FecSinks(fec, loss, jitterUs, n - 1);
    }
  }

  /** Jitter above ten milliseconds raises it by two hundredths per sample, to a quarter. */
  lemma {:induction false} FecClimbsOnHighJitter(fec: real, loss: real, jitterUs: nat, n: nat)
    requires fec <= 0.25 && jitterUs > 10_000
    ensures FecRun(Rising, fec, loss, jitterUs, n) == MinReal(fec + n as real * 0.02, 0.25)
  {
    if n > 0 {
      FecClimbsOnHighJitter(fec, loss, jitterUs, n - 1);
    }
  }

  /** Jitter above five milliseconds raises it by one hundredth per sample, to a fifth. */
  lemma {:induction false} FecClimbsOnJitter(fec: real, loss: real, jitterUs: nat, n: nat)
    requires fec <= 0.20 && 5_000 < jitterUs <= 10_000
    ensures FecRun(Rising, fec, loss, jitterUs, n) == MinReal(fec + n as real * 0.01, 0.20)
  {
    if n > 0 {
      FecClimbsOnJitter(fec, loss, jitterUs, n - 1);
    }
  }

  ghost function Grown(fec: real, n: nat): real { Pow(1.5, n) * fec }

  lemma GrownStep(fec: real, n: nat)
    ensures Grown(fec, 0) == fec && Grown(fec, n + 1) == Grown(fec, n) * 1.5
  {
    assert Pow(1.5, 0) == 1.0;
    Associates(1.5, Pow(1.5, n), fec);
  }

  /** Congestion with losses raises it by half per sample, to a half. */
  lemma {:induction false} FecClimbsOnLoss(fec: real, loss: real, jitterUs: nat, n: nat)
    requires 0.0 <= fec <= 0.5 && loss > 0.01 && jitterUs <= 5_000
    ensures FecRun(Congested, fec, loss, jitterUs, n) == MinReal(Grown(fec, n), 0.5)
  {
    hide Grown;
    GrownStep(fec, if n > 0 then n - 1 else 0);
    if n > 0 {
      FecClimbsOnLoss(fec, loss, jitterUs, n - 1);
    }
  }

  /** Otherwise jitter alone decides, and without it nothing changes. */
  lemma FecElsewhere(fec: real, loss: real, jitterUs: nat)
    ensures jitterUs >= 5_000 ==> NextFec(Stable, fec, loss, jitterUs) == NextFec(Rising, fec, loss, jitterUs)
    ensures loss <= 0.01 ==> NextFec(Congested, fec, loss, jitterUs) == NextFec(Rising, fec, loss, jitterUs)
    ensures jitterUs <= 5_000 ==> NextFec(Rising, fec, loss, jitterUs) == fec
    ensures loss > 0.01 ==>
              NextFec(Congested, fec, loss, jitterUs) == MinReal(1.5 * NextFec(Rising, fec, loss, jitterUs), 0.5)
  {
  }

  /** The ladder of frame rates, and where a rate off the ladder goes. */
  lemma FpsLadder(fps: nat)
    ensures StepDownFps(144) == 90 && StepDownFps(120) == 90 && StepDownFps(90) == 60
    ensures StepDownFps(60) == 45 && StepDownFps(45) == 30
    ensures fps > 60 && fps !in {144, 120, 90} ==> StepDownFps(fps) == 60
    ensures fps < 60 && fps != 45 ==> StepDownFps(fps) == fps
    ensures fps >= 60 || fps == 45 ==> StepDownFps(StepDownFps(StepDownFps(StepDownFps(fps)))) == 30
  {
  }

  // ---------------------------------------------------------------------------
  // When the frame rate falls
  // ---------------------------------------------------------------------------

  /** A timer that has run out has been running through more than a second of congestion. */
  lemma DropAfterSecond(history: seq<Sample>, log: seq<Output>, t: nat, now: nat) returns (j: nat)
    requires TimerRight(history, log, Some(t)) && t + SECOND < now
    ensures j < |history| && |log| == |history| + 1
    ensures history[j].at + SECOND < now && CongestedFrom(log, j, |history|)
  {
    j :| TimerAt(history, log, t, j);
  }

  /** In the first second of a congestion the timer stands where it was entered, so it runs out after exactly one. */
  lemma TimerFromEntry(history: seq<Sample>, log: seq<Output>, t: nat, e: nat)
    requires TimerRight(history, log, Some(t))
    requires e < |history| && |log| == |history| + 1 && Enters(log, e) && CongestedFrom(log, e, |history|)
    requires forall i, j | 0 <= i < j < |history| :: history[i].at <= history[j].at
    requires forall i | e <= i < |history| :: history[i].at <= history[e].at + SECOND
    ensures t == history[e].at
  {
    var j: nat :| TimerAt(history, log, t, j);
  }

  // ---------------------------------------------------------------------------
  // A steady connection
  // ---------------------------------------------------------------------------

  ghost predicate AllAre(history: seq<Sample>, rtt: nat) { forall s <- history :: s.rtt == rtt }

  ghost predicate AllCalm(delays: seq<real>, floors: seq<real>) {
    && |delays| == |floors|
    && (forall i | 0 <= i < |delays| :: delays[i] == 0.0)
    && (forall i | 0 <= i < |floors| :: floors[i] >= 0.0)
  }

  lemma SteadyMin(m: nat, history: seq<Sample>, now: nat, rtt: nat)
    requires IsWindowMin(m, history, now) && AllAre(history, rtt)
    ensures m == rtt
  {
  }

  lemma SteadySmooth(alpha: real, smooth: real, rtt: nat)
    requires smooth == 0.0 || smooth == rtt as real
    ensures Smooth(alpha, smooth, rtt) == rtt as real
  {
  }

  lemma SteadyState(c: Config, delays: seq<real>, floors: seq<real>, signals: seq<Signal>, k: nat)
    requires SignalsRead(c, delays, floors, signals) && AllCalm(delays, floors)
    ensures StateOf(signals, k).Stable?
  {
    CalmStaysStable(c, delays, floors, signals, k);
  }

  /** What n steps of the increase add up to. */
  function Raised(bitrate: nat, step: nat, n: nat): nat {
    if n == 0 then bitrate else Raised(bitrate, step, n - 1) + step
  }

  /** A controller that has only seen one round-trip time: no delay, no state but Stable. */
  ghost predicate Steady(cc: DeltaCC, rtt: nat)
    reads cc
  {
    && cc.Valid() && cc.state.Stable?
    && AllAre(cc.history, rtt) && AllCalm(cc.delays, cc.floors)
    && cc.rttSmoothUs == if cc.history == [] then 0.0 else rtt as real
  }

  method SteadySample(cc: DeltaCC, rtt: nat, packetLoss: real, jitterUs: nat, now: nat)
    requires Steady(cc, rtt) && 0 < rtt <= U64_MAX && now >= cc.Clock()
    requires ConfigOk(cc.config) && cc.config.targetDelayUs > 0 && cc.config.alpha != 1.0
    requires cc.bitrateKbps <= cc.config.maxBitrateKbps
    modifies cc
    ensures Steady(cc, rtt) && cc.Clock() == now && cc.history != []
    ensures cc.bitrateKbps == Min(old(cc.bitrateKbps) + cc.config.increaseKbps, cc.config.maxBitrateKbps)
  {
    hide DeltaCC.Measured;
    hide DeltaCC.InState;
    hide ControlRun;
    hide LawRun;
    hide SignalsRead;
    hide TimerRight;
    hide StateOf;
    hide IsWindowMin;
    hide NextBitrate;
    hide NextFec;
    hide Classify;
    SteadySmooth(cc.config.alpha, cc.rttSmoothUs, rtt);
    hide Smooth;
    ghost var bitrate := cc.bitrateKbps;
    cc.OnRttSample(rtt, packetLoss, jitterUs, now);
    SteadyMin(cc.rttMinUs, cc.history, now, rtt);
    SteadyState(cc.config, cc.delays, cc.floors, cc.signals, cc.config.kPersistence);
    ghost var step, cut := BitrateMoves(cc.config, bitrate, 0.0);
  }

  method NewSteady(config: Config, bitrate: nat, fps: nat, rtt: nat) returns (cc: DeltaCC)
    ensures fresh(cc) && Steady(cc, rtt) && cc.config == config && cc.history == [] && cc.bitrateKbps == bitrate
  {
    cc := new DeltaCC(config, bitrate, fps);
  }

  /** On a steady connection the controller stays Stable and climbs by the full step with every sample. */
  method SteadyConnection(config: Config, bitrate: nat, fps: nat, rtt: nat, packetLoss: real, jitterUs: nat,
                          times: seq<nat>)
    returns (cc: DeltaCC)
    requires ConfigOk(config) && config.targetDelayUs > 0 && config.alpha != 1.0
    requires bitrate <= config.maxBitrateKbps && 0 < rtt <= U64_MAX
    requires forall i, j | 0 <= i < j < |times| :: times[i] <= times[j]
    ensures fresh(cc) && cc.state.Stable?
    ensures cc.bitrateKbps == Min(Raised(bitrate, config.increaseKbps, |times|), config.maxBitrateKbps)
  {
    hide Steady;
    cc := NewSteady(config, bitrate, fps, rtt);
    for i := 0 to |times|
      invariant fresh(cc) && cc.config == config && Steady(cc, rtt)
      invariant if i == 0 then cc.history == [] else cc.history != [] && cc.Clock() == times[i - 1]
      invariant cc.bitrateKbps == Min(Raised(bitrate, config.increaseKbps, i), config.maxBitrateKbps)
    {
      SteadySample(cc, rtt, packetLoss, jitterUs, times[i]);
    }
    SteadyIsStable(cc, rtt);
  }

  lemma SteadyIsStable(cc: DeltaCC, rtt: nat)
    requires Steady(cc, rtt)
    ensures cc.state.Stable?
  {
  }
}
