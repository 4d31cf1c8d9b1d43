/**
 The gateway's request limiter (FixedWindowRateLimiter, crates/wavry-gateway/src/security.rs).
 It forgets stale keys when its table grows too large; the model compares it with a limiter
 that never forgets.
 */
module RateLimiters {
  import opened Common
  import opened WindowBudgets

  type Key = string

  datatype RateEntry = RateEntry(count: nat, windowStart: nat)

  predicate Expired(e: RateEntry, window: nat, now: nat) { SatSub(now, e.windowStart) >= window }

  /** The entry after one more request: counted in the current window, or first in a new one. */
  function Touched(entries: map<Key, RateEntry>, key: Key, window: nat, now: nat): RateEntry {
    var e := if key in entries && !Expired(entries[key], window, now) then entries[key] else RateEntry(0, now);
    e.(count := Min(e.count + 1, U32 - 1))
  }

  /** `pruned` is `full` without some entries that no longer matter. */
  ghost predicate Forgets(pruned: map<Key, RateEntry>, full: map<Key, RateEntry>, window: nat, now: nat) {
    && (forall k <- pruned :: k in full && full[k] == pruned[k])
    && (forall k <- full :: k in pruned || Expired(full[k], window, now))
  }

  /** Forgetting is invisible: the next entry of every key is the same with or without it. */
  lemma ForgettingInvisible(pruned: map<Key, RateEntry>, full: map<Key, RateEntry>, window: nat, now: nat, key: Key)
    requires Forgets(pruned, full, window, now)
    ensures Touched(pruned, key, window, now) == Touched(full, key, window, now)
    ensures Forgets(pruned[key := Touched(pruned, key, window, now)], full[key := Touched(full, key, window, now)], window, now)
  {
  }

  lemma TimePasses(pruned: map<Key, RateEntry>, full: map<Key, RateEntry>, window: nat, t: nat, now: nat)
    requires Forgets(pruned, full, window, t) && t <= now
    ensures Forgets(pruned, full, window, now)
  {
  }

  function Live(entries: map<Key, RateEntry>, window: nat, now: nat): map<Key, RateEntry> {
    map k | k in entries && !Expired(entries[k], window, now) :: entries[k]
  }

  lemma PruneForgets(pruned: map<Key, RateEntry>, full: map<Key, RateEntry>, window: nat, now: nat)
    requires Forgets(pruned, full, window, now)
    ensures Forgets(Live(pruned, window, now), full, window, now)
  {
  }

  ghost function LogOf(logs: map<Key, seq<Charge>>, k: Key): seq<Charge> { if k in logs then logs[k] else [] }

  /** The allowed requests of a key are metered by the never-forgetting entry. */
  ghost predicate KeyMetered(log: seq<Charge>, full: map<Key, RateEntry>, key: Key, window: nat, max: nat) {
    if key in full then Metering(log, window, max, full[key].windowStart, Min(full[key].count, max))
    else log == []
  }

  lemma NothingMetered(window: nat, max: nat, now: nat)
    ensures Metering([], window, max, now, 0)
  {
  }

  /** One request to a key, allowed or not, keeps its allowed requests metered. */
  lemma TouchMetered(log: seq<Charge>, full: map<Key, RateEntry>, key: Key, window: nat, max: nat, now: nat)
    requires KeyMetered(log, full, key, window, max) && window > 0 && max < U32 - 1
    requires key in full ==> full[key].windowStart <= now
    ensures var e := Touched(full, key, window, now);
            var log' := log + if e.count <= max then [Charge(now, 1, e.windowStart)] else [];
            Metering(log', window, max, e.windowStart, Min(e.count, max))
  {
    hide Metering;
    var e := Touched(full, key, window, now);
    var before := if key in full && !Expired(full[key], window, now) then Min(full[key].count, max) else 0;
    if key !in full {
      NothingMetered(window, max, now);
    } else if Expired(full[key], window, now) {
      RollWindow(log, window, max, full[key].windowStart, Min(full[key].count, max), now);
    }
    if e.count <= max {
      Spend(log, window, max, e.windowStart, before, now, 1);
    } else {
      assert log + [] == log;
    }
  }

  /** The allowed requests of a key in the window that a request at `now` falls into. */
  ghost function AllowedSoFar(log: seq<Charge>, full: map<Key, RateEntry>, key: Key, window: nat, now: nat): nat {
    if key in full && now < full[key].windowStart + window then WindowSum(log, full[key].windowStart) else 0
  }

  /** The counter answers as the record of allowed requests does. */
  lemma AnswersExactly(log: seq<Charge>, full: map<Key, RateEntry>, key: Key, window: nat, max: nat, now: nat)
    requires KeyMetered(log, full, key, window, max) && window > 0 && max < U32 - 1
    requires key in full ==> full[key].windowStart <= now
    ensures Touched(full, key, window, now).count <= max <==> max > 0 && AllowedSoFar(log, full, key, window, now) < max
  {
  }

  /** The keys whose window is still running. */
  ghost function Running(entries: map<Key, RateEntry>, window: nat, now: nat): set<Key> {
    set k <- entries | now < entries[k].windowStart + window
  }

  /** Of the other keys, those whose window is running stay as they are, and above capacity no others do. */
  ghost predicate KeepsOthers(entries: map<Key, RateEntry>, entries': map<Key, RateEntry>, key: Key, window: nat, now: nat,
                              maxKeys: nat)
  {
    && (forall k <- entries' | k != key :: k in entries && entries'[k] == entries[k])
    && (forall k <- Running(entries, window, now) | k != key :: k in entries')
    && (|entries| > maxKeys ==> forall k <- entries' | k != key :: k in Running(entries, window, now))
  }

  lemma LiveIsRunning(entries: map<Key, RateEntry>, window: nat, now: nat)
    requires forall k <- entries :: entries[k].windowStart <= now
    ensures Live(entries, window, now).Keys == Running(entries, window, now)
    ensures |Live(entries, window, now)| == |Running(entries, window, now)|
    ensures forall k <- Live(entries, window, now) :: Live(entries, window, now)[k] == entries[k]
  {
  }

  ghost predicate AllMetered(logs: map<Key, seq<Charge>>, full: map<Key, RateEntry>, window: nat, max: nat) {
    forall k :: KeyMetered(LogOf(logs, k), full, k, window, max)
  }

  lemma CallKeepsMetered(logs: map<Key, seq<Charge>>, full: map<Key, RateEntry>, key: Key, window: nat, max: nat, now: nat)
    requires AllMetered(logs, full, window, max) && window > 0 && max < U32 - 1
    requires key in full ==> full[key].windowStart <= now
    ensures var e := Touched(full, key, window, now);
            var log := LogOf(logs, key) + if e.count <= max then [Charge(now, 1, e.windowStart)] else [];
            AllMetered(logs[key := log], full[key := e], window, max)
  {
    hide Metering;
    assert KeyMetered(LogOf(logs, key), full, key, window, max);
    TouchMetered(LogOf(logs, key), full, key, window, max, now);
    var e := Touched(full, key, window, now);
    var log := LogOf(logs, key) + if e.count <= max then [Charge(now, 1, e.windowStart)] else [];
    var logs', full' := logs[key := log], full[key := e];
    forall k
      ensures KeyMetered(LogOf(logs', k), full', k, window, max)
    {
      assert KeyMetered(LogOf(logs, k), full, k, window, max);
    }
  }

  /** The table is a bounded, forgetful copy of the full one, and the full one meters the allowed requests. */
  ghost predicate InStep(entries: map<Key, RateEntry>, full: map<Key, RateEntry>, logs: map<Key, seq<Charge>>,
                         window: nat, max: nat, clock: nat)
  {
    && Forgets(entries, full, window, clock)
    && (forall k <- full :: full[k].windowStart <= clock)
    && (window > 0 && max < U32 - 1 ==> AllMetered(logs, full, window, max))
  }

  lemma TimeKeepsStep(entries: map<Key, RateEntry>, full: map<Key, RateEntry>, logs: map<Key, seq<Charge>>,
                      window: nat, max: nat, clock: nat, now: nat)
    requires InStep(entries, full, logs, window, max, clock) && clock <= now
    ensures InStep(entries, full, logs, window, max, now)
  {
    hide AllMetered;
    TimePasses(entries, full, window, clock, now);
  }

  /** Dropping what has expired, as seen by a call for `key`. */
  lemma PruneKeepsStep(entries: map<Key, RateEntry>, full: map<Key, RateEntry>, logs: map<Key, seq<Charge>>,
                       key: Key, window: nat, max: nat, now: nat, maxKeys: nat)
    requires InStep(entries, full, logs, window, max, now)
    ensures var live := Live(entries, window, now);
            && InStep(live, full, logs, window, max, now)
            && |live| == |Running(entries, window, now)| <= |entries|
            && KeepsOthers(entries, live, key, window, now, maxKeys)
            && (|entries| <= maxKeys ==> KeepsOthers(entries, entries, key, window, now, maxKeys))
  {
    hide AllMetered;
    PruneForgets(entries, full, window, now);
    LiveShrinks(entries, window, now);
    LiveIsRunning(entries, window, now);
  }

  lemma LiveShrinks(m: map<Key, RateEntry>, window: nat, now: nat)
    ensures |Live(m, window, now)| <= |m|
  {
    var l := Live(m, window, now);
    assert l.Keys <= m.Keys;
    SubsetSize(l.Keys, m.Keys);
  }

  /** Counting one request. */
  lemma CountKeepsStep(entries: map<Key, RateEntry>, full: map<Key, RateEntry>, logs: map<Key, seq<Charge>>,
                       key: Key, window: nat, max: nat, now: nat)
    requires InStep(entries, full, logs, window, max, now)
    ensures var e := Touched(full, key, window, now);
            var log := LogOf(logs, key) + if e.count <= max then [Charge(now, 1, e.windowStart)] else [];
            && Touched(entries, key, window, now) == e
            && InStep(entries[key := e], full[key := e], logs[key := log], window, max, now)
    ensures window > 0 && max < U32 - 1 ==>
              (Touched(full, key, window, now).count <= max
               <==> max > 0 && AllowedSoFar(LogOf(logs, key), full, key, window, now) < max)
  {
    ForgettingInvisible(entries, full, window, now, key);
    TouchedStart(full, key, window, now);
    if window > 0 && max < U32 - 1 {
      assert KeyMetered(LogOf(logs, key), full, key, window, max);
      AnswersExactly(LogOf(logs, key), full, key, window, max, now);
      CallKeepsMetered(logs, full, key, window, max, now);
    }
    hide AllMetered;
    hide Touched;
  }

  lemma TouchedStart(m: map<Key, RateEntry>, key: Key, window: nat, now: nat)
    requires forall k <- m :: m[k].windowStart <= now
    ensures Touched(m, key, window, now).windowStart <= now
  {
  }

  class FixedWindowRateLimiter {
    const maxRequests: nat
    const window: nat
    const maxKeys: nat
    var entries: map<Key, RateEntry>
    /** The limiter that never forgets, fed the calls not refused for capacity. */
    ghost var full: map<Key, RateEntry>
    /** Allowed requests of each key. */
    ghost var logs: map<Key, seq<Charge>>
    ghost var clock: nat

    ghost predicate Valid()
      reads this
    {
      |entries| <= maxKeys + 1 && InStep(entries, full, logs, window, maxRequests, clock)
    }

    constructor (maxRequests: nat, window: nat, maxKeys: nat)
      ensures Valid() && this.maxRequests == maxRequests && this.window == window && this.maxKeys == maxKeys
      ensures entries == map[] && full == map[] && clock == 0 && logs == map[]
    {
      this.maxRequests, this.window, this.maxKeys := maxRequests, window, maxKeys;
      entries, full, logs, clock := map[], map[], map[], 0;
    }

    /** In any run, no interval one window long allows a key more than twice the limit. */
    lemma TwiceTheRequests(k: Key, lo: nat)
      requires Valid() && window > 0 && maxRequests < U32 - 1
      ensures IntervalSum(LogOf(logs, k), lo, lo + window) <= 2 * maxRequests
    {
      assert KeyMetered(LogOf(logs, k), full, k, window, maxRequests);
      if k in full {
        TwiceTheLimit(LogOf(logs, k), window, maxRequests, lo);
      }
    }

    /**
     A call is refused for capacity only when the table is full of live keys. Every other call
     is answered as the never-forgetting limiter answers it.
     */
    method Allow(key: Key, now: nat) returns (ok: bool)
      requires Valid() && now >= clock
      modifies this
      ensures Valid() && clock == now
      ensures KeepsOthers(old(entries), entries, key, window, now, maxKeys)
      ensures window > 0 && maxRequests < U32 - 1 ==>
                (ok <==> && !(|old(entries)| > maxKeys && |Running(old(entries), window, now)| > maxKeys)
                         && maxRequests > 0
                         && AllowedSoFar(LogOf(old(logs), key), old(full), key, window, now) < maxRequests)
      ensures var refused := |old(entries)| > maxKeys && |Running(old(entries), window, now)| > maxKeys;
              if refused then !ok && full == old(full) && logs == old(logs)
              else
                var e := Touched(old(full), key, window, now);
                && ok == (e.count <= maxRequests)
                && full == old(full)[key := e]
                && logs == old(logs)[key := LogOf(old(logs), key) + if ok then [Charge(now, 1, e.windowStart)] else []]
    {
      hide InStep;
      hide KeepsOthers;
      hide Running;
      hide Live;
      hide Touched;
      hide AllowedSoFar;
      TimeKeepsStep(entries, full, logs, window, maxRequests, clock, now);
      PruneKeepsStep(entries, full, logs, key, window, maxRequests, now, maxKeys);
      CountKeepsStep(entries, full, logs, key, window, maxRequests, now);
      clock := now;
      if |entries| > maxKeys {
        entries := Live(entries, window, now);
        if |entries| > maxKeys {
          return false;
        }
      }
      CountKeepsStep(entries, full, logs, key, window, maxRequests, now);
      var entry := Count(key, now);
      ok := entry.count <= maxRequests;
      KeepsKey(old(entries), entries, key, entry, window, now, maxKeys);
      entries := entries[key := entry];
      logs := logs[key := LogOf(logs, key) + if ok then [Charge(now, 1, entry.windowStart)] else []];
      full := full[key := entry];
    }

    /** The entry of `key` with this request counted. */
    method Count(key: Key, now: nat) returns (entry: RateEntry)
      ensures entry == Touched(entries, key, window, now)
    {
      entry := if key in entries then entries[key] else RateEntry(0, now);
      if SatSub(now, entry.windowStart) >= window {
        entry := RateEntry(0, now);
      }
      entry := entry.(count := Min(entry.count + 1, U32 - 1));
    }
  }

  lemma KeepsKey(entries: map<Key, RateEntry>, entries': map<Key, RateEntry>, key: Key, e: RateEntry, window: nat, now: nat,
                 maxKeys: nat)
    requires KeepsOthers(entries, entries', key, window, now, maxKeys)
    ensures KeepsOthers(entries, entries'[key := e], key, window, now, maxKeys)
  {
  }

  lemma SubsetSize(a: set<Key>, b: set<Key>)
    requires a <= b
    ensures |a| <= |b|
  {
    assert b == a + (b - a);
  }
}
