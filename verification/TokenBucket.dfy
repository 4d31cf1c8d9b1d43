/**
 The file transfer rate limiter (FileTransferLimiter, crates/wavry-client/src/client.rs): a
 token bucket whose rate may change at any time. Floating point is modelled by reals and the
 clock by seconds.
 */
module TokenBucket {
  import opened Common

  const DEFAULT_CHUNK_SIZE: nat := 900
  const FOUR_CHUNKS: nat := 4 * DEFAULT_CHUNK_SIZE

  function BytesPerSecond(rateKbps: nat): real { rateKbps as real * 1000.0 / 8.0 }

  /** What a rate brings in over some seconds. */
  function Income(rateKbps: nat, seconds: real): real { seconds * BytesPerSecond(rateKbps) }

  /** Half a second of traffic, but never less than four chunks. */
  function CapacityFor(rateKbps: nat): real {
    MaxReal(BytesPerSecond(rateKbps) * 0.5, DEFAULT_CHUNK_SIZE as real * 4.0)
  }

  /** In bits: a rate brings in a thousand bits per kilobit and second. */
  lemma IncomeInBits(rateKbps: nat, seconds: real)
    ensures 8.0 * Income(rateKbps, seconds) == seconds * (1000 * rateKbps) as real
  {
    assert (1000 * rateKbps) as real == rateKbps as real * 1000.0;
    assert BytesPerSecond(rateKbps) * 8.0 == rateKbps as real * 1000.0;
    assert 8.0 * (seconds * BytesPerSecond(rateKbps)) == seconds * (BytesPerSecond(rateKbps) * 8.0);
  }

  /** The bucket holds half a second of income or four chunks, whichever is more. */
  lemma CapacityMeans(rateKbps: nat)
    ensures CapacityFor(rateKbps) >= Income(rateKbps, 0.5) && CapacityFor(rateKbps) >= 3600.0
    ensures CapacityFor(rateKbps) == Income(rateKbps, 0.5) || CapacityFor(rateKbps) == 3600.0
  {
  }

  /** The bucket right after a refill: when, at what rate, what is left, what was ever granted. */
  datatype Mark = Mark(at: real, rateKbps: nat, tokens: real, granted: nat)

  /** What the bucket holds once refilled at `now`: never more than its capacity. */
  function Refilled(m: Mark, now: real): real {
    MinReal(m.tokens + Income(m.rateKbps, now - m.at), CapacityFor(m.rateKbps))
  }

  /** From one refill to the next: grants and leftovers are what was refilled, cut to the next capacity. */
  ghost predicate Follows(a: Mark, b: Mark) {
    && a.at <= b.at && a.granted <= b.granted
    && (b.granted - a.granted) as real + b.tokens == MinReal(Refilled(a, b.at), CapacityFor(b.rateKbps))
  }

  ghost predicate Ledger(log: seq<Mark>) {
    && (forall i | 0 <= i < |log| :: 0.0 <= log[i].tokens <= CapacityFor(log[i].rateKbps))
    && (forall i | 0 < i < |log| :: Follows(log[i - 1], log[i]))
  }

  /** What the rates in force between two refills bring in. */
  ghost function Earned(log: seq<Mark>, i: nat, j: nat): real
    requires i <= j < |log|
    decreases j
  {
    if i == j then 0.0
    else Earned(log, i, j - 1) + Income(log[j - 1].rateKbps, log[j].at - log[j - 1].at)
  }

  lemma {:induction false} EarnedSplits(log: seq<Mark>, i: nat, j: nat, k: nat)
    requires i <= j <= k < |log|
    ensures Earned(log, i, k) == Earned(log, i, j) + Earned(log, j, k)
    decreases k
  {
    if j < k {
      EarnedSplits(log, i, j, k - 1);
    }
  }

  lemma {:induction false} GrantsArePaid(log: seq<Mark>, i: nat, j: nat)
    requires Ledger(log) && i < j < |log|
    ensures (log[j].granted - log[i].granted) as real + log[j].tokens
         <= CapacityFor(log[i].rateKbps) + Earned(log, i + 1, j)
    decreases j
  {
    hide Income;
    hide CapacityFor;
    assert Follows(log[j - 1], log[j]);
    if i + 1 < j {
      GrantsArePaid(log, i, j - 1);
    }
  }

  /**
   Over any stretch of any run, however the rate changes, the bytes granted are at most the
   capacity in force when it starts plus what the rates bring in after its first refill: the
   idle time before that refill counts for no more than the capacity.
   */
  lemma BurstPlusRate(log: seq<Mark>, i: nat, j: nat)
    requires Ledger(log) && i < j < |log|
    ensures (log[j].granted - log[i].granted) as real <= CapacityFor(log[i].rateKbps) + Earned(log, i + 1, j)
  {
    GrantsArePaid(log, i, j);
  }

  // ---------------------------------------------------------------------------
  // Intervals of time
  // ---------------------------------------------------------------------------

  /** The last refill no later than `t`. */
  ghost function LastMark(log: seq<Mark>, t: real): (k: nat)
    requires log != [] && log[0].at <= t
    ensures k < |log| && log[k].at <= t
    ensures forall m | k < m < |log| :: t < log[m].at
  {
    if log[|log| - 1].at <= t then |log| - 1 else LastMark(log[..|log| - 1], t)
  }

  ghost function GrantedBy(log: seq<Mark>, t: real): nat
    requires log != [] && log[0].at <= t
  {
    log[LastMark(log, t)].granted
  }

  ghost function CapacityAt(log: seq<Mark>, t: real): real
    requires log != [] && log[0].at <= t
  {
    CapacityFor(log[LastMark(log, t)].rateKbps)
  }

  /** What the rates in force bring in from the start of the log to `t`. */
  ghost function IncomeBy(log: seq<Mark>, t: real): real
    requires log != [] && log[0].at <= t
  {
    var k := LastMark(log, t);
    Earned(log, 0, k) + Income(log[k].rateKbps, t - log[k].at)
  }

  /** Income adds up over adjacent spans. */
  lemma IncomeSplits(rateKbps: nat, a: real, b: real)
    ensures Income(rateKbps, a + b) == Income(rateKbps, a) + Income(rateKbps, b)
  {
  }

  /**
   Between any two instants, whether or not the bucket was refilled at either, the bytes
   granted are at most the capacity in force at the first plus the income between them.
   */
  lemma IntervalBound(log: seq<Mark>, s: real, t: real)
    requires Ledger(log) && log != [] && log[0].at <= s <= t
    ensures (GrantedBy(log, t) - GrantedBy(log, s)) as real
         <= CapacityAt(log, s) + IncomeBy(log, t) - IncomeBy(log, s)
  {
    hide CapacityFor;
    hide Income;
    var i, j := LastMark(log, s), LastMark(log, t);
    var rate := log[i].rateKbps;
    CapacityAtLeastFourChunks(rate);
    if i == j {
      IncomeSplits(rate, t - s, s - log[i].at);
      IncomeNonNegative(rate, t - s);
    } else {
      BurstPlusRate(log, i, j);
      EarnedSplits(log, 0, i, j);
      EarnedSplits(log, i, i + 1, j);
      IncomeSplits(rate, log[i + 1].at - s, s - log[i].at);
      IncomeNonNegative(rate, log[i + 1].at - s);
      IncomeNonNegative(log[j].rateKbps, t - log[j].at);
      assert Earned(log, i, i + 1) == Income(rate, log[i + 1].at - log[i].at);
    }
  }

  // ---------------------------------------------------------------------------
  // Progress over refusals
  // ---------------------------------------------------------------------------

  ghost predicate NoGrantSince(log: seq<Mark>, i: nat, j: nat)
    requires i <= j < |log|
  {
    forall k | i <= k <= j :: log[k].granted == log[i].granted
  }

  /** Refused attempts and rate changes waste no income: up to four chunks, all of it is still there. */
  lemma {:induction false} RefusalsKeepIncome(log: seq<Mark>, i: nat, j: nat)
    requires Ledger(log) && i <= j < |log| && NoGrantSince(log, i, j)
    ensures log[j].tokens >= MinReal(log[i].tokens + Earned(log, i, j), FOUR_CHUNKS as real)
    decreases j
  {
    hide Income;
    hide CapacityFor;
    if i < j {
      RefusalsKeepIncome(log, i, j - 1);
      var a, b := log[j - 1], log[j];
      assert Follows(a, b);
      IncomeNonNegative(a.rateKbps, b.at - a.at);
      CapacityAtLeastFourChunks(a.rateKbps);
      CapacityAtLeastFourChunks(b.rateKbps);
    }
  }

  /** What an attempt at `now` can draw on, counting from refill `i`. */
  ghost function EarnedSince(log: seq<Mark>, i: nat, now: real): real
    requires i < |log|
  {
    var j := |log| - 1;
    log[i].tokens + Earned(log, i, j) + Income(log[j].rateKbps, now - log[j].at)
  }

  /** However often a request of at most four chunks was refused, it is covered once the income is. */
  lemma CoveredRequest(log: seq<Mark>, i: nat, bytes: nat, now: real)
    requires Ledger(log) && i < |log| && NoGrantSince(log, i, |log| - 1) && log[|log| - 1].at <= now
    requires bytes <= FOUR_CHUNKS && bytes as real <= EarnedSince(log, i, now)
    ensures bytes as real <= Refilled(log[|log| - 1], now)
  {
    hide Income;
    hide CapacityFor;
    var m := log[|log| - 1];
    RefusalsKeepIncome(log, i, |log| - 1);
    IncomeNonNegative(m.rateKbps, now - m.at);
    CapacityAtLeastFourChunks(m.rateKbps);
  }

  lemma Append(log: seq<Mark>, m: Mark)
    requires Ledger(log) && 0.0 <= m.tokens <= CapacityFor(m.rateKbps)
    requires log != [] ==> Follows(log[|log| - 1], m)
    ensures Ledger(log + [m])
  {
  }

  lemma IncomeNonNegative(rateKbps: nat, seconds: real)
    requires seconds >= 0.0
    ensures Income(rateKbps, seconds) >= 0.0
  {
  }

  lemma CapacityAtLeastFourChunks(rateKbps: nat)
    ensures CapacityFor(rateKbps) >= FOUR_CHUNKS as real
  {
  }

  class FileTransferLimiter {
    var rateKbps: nat
    var tokens: real
    var capacity: real
    var lastRefill: real
    ghost var granted: nat
    ghost var log: seq<Mark>

    ghost predicate Valid()
      reads this
    {
      && 1 <= rateKbps
      && capacity == CapacityFor(rateKbps)
      && Ledger(log) && log != []
      && log[|log| - 1] == Mark(lastRefill, rateKbps, tokens, granted)
    }

    constructor (rateKbps: nat, now: real)
      ensures Valid() && this.rateKbps == Max(rateKbps, 1) && tokens == capacity && granted == 0 && lastRefill == now
      ensures log == [Mark(now, this.rateKbps, tokens, granted)]
    {
      this.rateKbps := Max(rateKbps, 1);
      capacity := CapacityFor(Max(rateKbps, 1));
      tokens := CapacityFor(Max(rateKbps, 1));
      lastRefill := now;
      granted := 0;
      log := [Mark(now, Max(rateKbps, 1), CapacityFor(Max(rateKbps, 1)), 0)];
    }

    /** Tokens stay between zero and the capacity. */
    lemma Level()
      requires Valid()
      ensures 0.0 <= tokens <= capacity
    {
      assert log[|log| - 1].tokens == tokens;
    }

    method Refill(now: real)
      requires now >= lastRefill && 0.0 <= tokens <= capacity
      modifies this`tokens, this`lastRefill
      ensures tokens == MinReal(old(tokens) + Income(rateKbps, now - old(lastRefill)), capacity)
      ensures lastRefill == now && 0.0 <= tokens <= capacity
    {
      hide Income;
      var elapsed := now - lastRefill;
      IncomeNonNegative(rateKbps, elapsed);
      lastRefill := now;
      tokens := MinReal(tokens + Income(rateKbps, elapsed), capacity);
    }

    method SetRateKbps(rate: nat, now: real)
      requires Valid() && now >= lastRefill
      modifies this
      ensures Valid() && rateKbps == Max(rate, 1) && granted == old(granted)
      ensures rateKbps == old(rateKbps) ==>
                tokens == old(tokens) && lastRefill == old(lastRefill) && log == old(log)
      ensures rateKbps != old(rateKbps) ==>
                && lastRefill == now
                && log == old(log) + [Mark(now, rateKbps, tokens, granted)]
                && tokens == MinReal(MinReal(old(tokens) + Income(old(rateKbps), now - old(lastRefill)), old(capacity)),
                                     capacity)
    {
      Level();
      hide Income;
      hide CapacityFor;
      hide Ledger;
      var newRate := Max(rate, 1);
      if rateKbps == newRate {
        return;
      }
      Refill(now);
      rateKbps := newRate;
      capacity := CapacityFor(newRate);
      CapacityAtLeastFourChunks(newRate);
      tokens := MinReal(tokens, capacity);
      Append(log, Mark(lastRefill, rateKbps, tokens, granted));
      log := log + [Mark(lastRefill, rateKbps, tokens, granted)];
    }

    /**
     Granted exactly when the bucket can hold the request and has, or has since earned,
     enough. A request of at most four chunks is granted once the income since any earlier
     refill covers it, however many attempts were refused in between.
     */
    method TryTake(bytes: nat, now: real) returns (ok: bool)
      requires Valid() && now >= lastRefill
      modifies this`tokens, this`lastRefill, this`granted, this`log
      ensures Valid() && log == old(log) + [Mark(now, rateKbps, tokens, granted)]
      ensures ok <==> && bytes as real <= capacity
                      && bytes as real <= old(tokens) + Income(rateKbps, now - old(lastRefill))
      ensures granted == old(granted) + if ok then bytes else 0
      ensures forall i: nat | i < |old(log)| && NoGrantSince(old(log), i, |old(log)| - 1) ::
                bytes <= FOUR_CHUNKS && bytes as real <= EarnedSince(old(log), i, now) ==> ok
    {
      Level();
      CapacityAtLeastFourChunks(rateKbps);
      forall i: nat | && i < |log| && NoGrantSince(log, i, |log| - 1)
                      && bytes <= FOUR_CHUNKS && bytes as real <= EarnedSince(log, i, now)
        ensures bytes as real <= Refilled(log[|log| - 1], now)
      {
        CoveredRequest(log, i, bytes, now);
      }
      hide Income;
      hide CapacityFor;
      hide Ledger;
      hide NoGrantSince;
      hide EarnedSince;
      Refill(now);
      ok := tokens >= bytes as real;
      if ok {
        tokens := tokens - bytes as real;
        granted := granted + bytes;
      }
      Append(log, Mark(lastRefill, rateKbps, tokens, granted));
      log := log + [Mark(lastRefill, rateKbps, tokens, granted)];
    }
  }
}
