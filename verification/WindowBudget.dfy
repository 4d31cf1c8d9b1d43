/**
 Fixed-window accounting, as the gateway uses it for bytes per relay session
 (crates/wavry-gateway/src/relay.rs:435-466) and for requests per key
 (crates/wavry-gateway/src/security.rs:81-107): a counter is reset when a whole window has
 passed since its start.
 */
module WindowBudgets {
  /** `amount` was spent at time `at`, in the accounting window that started at `window`. */
  datatype Charge = Charge(at: nat, amount: nat, window: nat)

  ghost function WindowSum(log: seq<Charge>, w: nat): nat {
    if log == [] then 0
    else
      var last := log[|log| - 1];
      WindowSum(log[..|log| - 1], w) + if last.window == w then last.amount else 0
  }

  /** Everything spent in the half-open interval `[lo, hi)`. */
  ghost function IntervalSum(log: seq<Charge>, lo: nat, hi: nat): nat {
    if log == [] then 0
    else
      var last := log[|log| - 1];
      IntervalSum(log[..|log| - 1], lo, hi) + if lo <= last.at < hi then last.amount else 0
  }

  /** Charges fall inside their window, and different windows start at least `width` apart. */
  ghost predicate WellSpaced(log: seq<Charge>, width: nat) {
    && (forall i | 0 <= i < |log| :: log[i].window <= log[i].at < log[i].window + width)
    && (forall i, j | 0 <= i < j < |log| ::
          log[i].window == log[j].window || log[i].window + width <= log[j].window)
  }

  ghost predicate WithinLimit(log: seq<Charge>, limit: nat) {
    forall w :: WindowSum(log, w) <= limit
  }

  /** A counter `used`, started at `start`, is the right summary of the log so far. */
  ghost predicate Metering(log: seq<Charge>, width: nat, limit: nat, start: nat, used: nat) {
    && WellSpaced(log, width)
    && WithinLimit(log, limit)
    && WindowSum(log, start) == used
    && (forall i | 0 <= i < |log| :: log[i].window == start || log[i].window + width <= start)
  }

  lemma {:induction false} NoChargeInWindow(log: seq<Charge>, w: nat)
    requires forall i | 0 <= i < |log| :: log[i].window != w
    ensures WindowSum(log, w) == 0
  {
    if log != [] {
      NoChargeInWindow(log[..|log| - 1], w);
    }
  }

  /** Starting a new window once the old one has passed. */
  lemma RollWindow(log: seq<Charge>, width: nat, limit: nat, start: nat, used: nat, now: nat)
    requires Metering(log, width, limit, start, used) && width > 0 && now >= start + width
    ensures Metering(log, width, limit, now, 0)
  {
    NoChargeInWindow(log, now);
  }

  /** Spending inside the current window. */
  lemma Spend(log: seq<Charge>, width: nat, limit: nat, start: nat, used: nat, at: nat, amount: nat)
    requires Metering(log, width, limit, start, used)
    requires start <= at < start + width && used + amount <= limit
    ensures Metering(log + [Charge(at, amount, start)], width, limit, start, used + amount)
  {
  }

  /** Charges of an interval that lie in two windows are covered by those windows' sums. */
  lemma {:induction false} CoveredByTwo(log: seq<Charge>, lo: nat, hi: nat, a: nat, b: nat)
    requires forall i | 0 <= i < |log| && lo <= log[i].at < hi :: log[i].window == a || log[i].window == b
    ensures IntervalSum(log, lo, hi) <= WindowSum(log, a) + WindowSum(log, b)
  {
    if log != [] {
      CoveredByTwo(log[..|log| - 1], lo, hi, a, b);
    }
  }

  ghost predicate InInterval(log: seq<Charge>, lo: nat, hi: nat, i: nat) {
    i < |log| && lo <= log[i].at < hi
  }

  /** Two charges of the interval whose windows both started before it, or both inside it, share a window. */
  lemma SameWindow(log: seq<Charge>, width: nat, lo: nat, i: nat, j: nat)
    requires WellSpaced(log, width)
    requires InInterval(log, lo, lo + width, i) && InInterval(log, lo, lo + width, j)
    requires log[i].window <= lo <==> log[j].window <= lo
    ensures log[i].window == log[j].window
  {
  }

  /** The one window that started before (or inside) the interval, if it has charges there. */
  lemma PickWindow(log: seq<Charge>, width: nat, lo: nat, early: bool) returns (w: nat)
    requires WellSpaced(log, width)
    ensures forall i: nat | InInterval(log, lo, lo + width, i) && (log[i].window <= lo <==> early) :: log[i].window == w
  {
    w := 0;
    if k: nat :| InInterval(log, lo, lo + width, k) && (log[k].window <= lo <==> early) {
      w := log[k].window;
      forall i: nat | InInterval(log, lo, lo + width, i) && (log[i].window <= lo <==> early)
        ensures log[i].window == w
      {
        SameWindow(log, width, lo, i, k);
      }
    }
  }

  /** No interval one window long, wherever it starts, ever sees more than twice the limit. */
  lemma TwiceTheLimit(log: seq<Charge>, width: nat, limit: nat, lo: nat)
    requires WellSpaced(log, width) && WithinLimit(log, limit)
    ensures IntervalSum(log, lo, lo + width) <= 2 * limit
  {
    var a := PickWindow(log, width, lo, true);
    var b := PickWindow(log, width, lo, false);
    assert forall i | 0 <= i < |log| && lo <= log[i].at < lo + width :: InInterval(log, lo, lo + width, i);
    CoveredByTwo(log, lo, lo + width, a, b);
    assert WindowSum(log, a) <= limit && WindowSum(log, b) <= limit;
  }
}
