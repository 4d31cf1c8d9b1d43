/**
 The master's lease limiter (check_lease_rate_limit, crates/wavry-master/src/main.rs): a
 per-user log of grants, pruned to the last minute on every call.
 */
module LeaseLimiters {
  import opened Common

  const LEASE_LIMIT_PER_MINUTE: nat := 10
  /** Time is in milliseconds. */
  const MINUTE: nat := 60_000

  type User = string

  datatype Grant = Grant(user: User, at: nat)

  // ---------------------------------------------------------------------------
  // Lists of times
  // ---------------------------------------------------------------------------

  const SELF: nat -> nat := t => t

  /** `retain`: the times less than a minute before `now`. */
  function LastMinute(ts: seq<nat>, now: nat): seq<nat> { Recent(ts, SELF, MINUTE, now) }

  /** How many of the times fall in `[lo, hi)`. */
  ghost function CountIn(ts: seq<nat>, lo: nat, hi: nat): nat {
    if ts == [] then 0 else CountIn(ts[..|ts| - 1], lo, hi) + if lo <= ts[|ts| - 1] < hi then 1 else 0
  }

  /** An interval that starts less than a minute before `now` counts only recent times. */
  lemma {:induction false} CountAtMostRecent(ts: seq<nat>, lo: nat, hi: nat, now: nat)
    requires now < lo + MINUTE
    ensures CountIn(ts, lo, hi) <= |LastMinute(ts, now)|
  {
    if ts != [] {
      CountAtMostRecent(ts[..|ts| - 1], lo, hi, now);
    }
  }

  /** How many fall in the minute that starts at `lo`. */
  ghost function InMinute(ts: seq<nat>, lo: nat): nat { CountIn(ts, lo, lo + MINUTE) }

  /** No half-open minute holds more than the limit. */
  ghost predicate Limited(ts: seq<nat>) {
    forall lo: nat :: InMinute(ts, lo) <= LEASE_LIMIT_PER_MINUTE
  }

  /** One more grant is within the limit when fewer than ten are recent. */
  lemma GrantKeepsLimit(ts: seq<nat>, now: nat)
    requires Limited(ts) && |LastMinute(ts, now)| < LEASE_LIMIT_PER_MINUTE
    ensures Limited(ts + [now])
  {
    forall lo: nat
      ensures InMinute(ts + [now], lo) <= LEASE_LIMIT_PER_MINUTE
    {
      assert (ts + [now])[..|ts|] == ts;
      assert InMinute(ts, lo) <= LEASE_LIMIT_PER_MINUTE;
      if lo <= now < lo + MINUTE {
        CountAtMostRecent(ts, lo, lo + MINUTE, now);
      }
    }
  }

  // ---------------------------------------------------------------------------
  // The limiter
  // ---------------------------------------------------------------------------

  /** When a user was granted leases. */
  ghost function TimesOf(grants: seq<Grant>, user: User): seq<nat> {
    if grants == [] then []
    else
      var last := grants[|grants| - 1];
      TimesOf(grants[..|grants| - 1], user) + if last.user == user then [last.at] else []
  }

  lemma TimesAppend(grants: seq<Grant>, g: Grant, user: User)
    ensures TimesOf(grants + [g], user) == TimesOf(grants, user) + if g.user == user then [g.at] else []
  {
  }

  /** The grants a user was given less than a minute before `now`. */
  ghost function GivenLately(grants: seq<Grant>, user: User, now: nat): set<nat> {
    set i: nat | i < |grants| && grants[i].user == user && now < grants[i].at + 60_000
  }

  /** The list of times counts exactly those grants. */
  lemma {:induction false} ListCountsGrants(grants: seq<Grant>, user: User, now: nat)
    ensures |LastMinute(TimesOf(grants, user), now)| == |GivenLately(grants, user, now)|
  {
    if grants == [] {
      assert GivenLately(grants, user, now) == {};
    } else {
      var n := |grants| - 1;
      var before, g := grants[..n], grants[n];
      ListCountsGrants(before, user, now);
      assert before + [g] == grants;
      GivenStep(before, g, user, now);
      hide GivenLately;
      TimesAppend(before, g, user);
      hide TimesOf;
      var times := TimesOf(before, user);
      if g.user == user {
        RecentAppend(times, g.at, SELF, MINUTE, now);
      } else {
        assert times + [] == times;
      }
    }
  }

  lemma GivenStep(grants: seq<Grant>, g: Grant, user: User, now: nat)
    ensures |GivenLately(grants + [g], user, now)|
         == |GivenLately(grants, user, now)| + if g.user == user && now < g.at + 60_000 then 1 else 0
  {
    var n := |grants|;
    assert GivenLately(grants + [g], user, now)
        == GivenLately(grants, user, now) + if g.user == user && now < g.at + 60_000 then {n} else {};
  }

  /** A user's list is all their grants younger than a minute as of their last call. */
  ghost predicate ListExact(entries: map<User, seq<nat>>, lastCall: map<User, nat>, times: seq<nat>, u: User) {
    && Limited(times)
    && (u in entries <==> u in lastCall)
    && (if u in entries && u in lastCall then entries[u] == LastMinute(times, lastCall[u]) else times == [])
  }

  ghost predicate AllExact(entries: map<User, seq<nat>>, lastCall: map<User, nat>, grants: seq<Grant>) {
    forall u :: ListExact(entries, lastCall, TimesOf(grants, u), u)
  }

  /** One call changes only its own user's list. */
  lemma CallKeepsExact(entries: map<User, seq<nat>>, lastCall: map<User, nat>, grants: seq<Grant>,
                       user: User, list: seq<nat>, ok: bool, now: nat)
    requires AllExact(entries, lastCall, grants)
    requires var times := TimesOf(grants, user);
             && (ok <==> |LastMinute(times, now)| < LEASE_LIMIT_PER_MINUTE)
             && list == LastMinute(times, now) + if ok then [now] else []
    ensures AllExact(entries[user := list], lastCall[user := now], grants + if ok then [Grant(user, now)] else [])
  {
    hide Limited;
    hide TimesOf;
    hide Recent;
    var times := TimesOf(grants, user);
    var grants' := grants + if ok then [Grant(user, now)] else [];
    assert ListExact(entries, lastCall, times, user);
    if ok {
      GrantKeepsLimit(times, now);
      RecentAppend(times, now, SELF, MINUTE, now);
      assert SatSub(now, now) < MINUTE;
    } else {
      assert grants' == grants && list == LastMinute(times, now);
    }
    forall u
      ensures ListExact(entries[user := list], lastCall[user := now], TimesOf(grants', u), u)
    {
      TimesAppend(grants, Grant(user, now), u);
      assert TimesOf(grants, u) + [] == TimesOf(grants, u);
      assert ListExact(entries, lastCall, TimesOf(grants, u), u);
    }
  }

  class LeaseLimiter {
    var entries: map<User, seq<nat>>
    /** Every grant ever made, and when each user last asked. */
    ghost var grants: seq<Grant>
    ghost var lastCall: map<User, nat>
    ghost var clock: nat

    ghost predicate Valid()
      reads this
    {
      AllExact(entries, lastCall, grants) && forall u <- lastCall :: lastCall[u] <= clock
    }

    constructor ()
      ensures Valid() && grants == [] && clock == 0
    {
      entries, grants, lastCall, clock := map[], [], map[], 0;
      new;
      assert forall lo: nat :: InMinute([], lo) == 0;
    }

    /** A grant is given exactly when fewer than ten were given to this user in the last minute. */
    method CheckLeaseRateLimit(user: User, now: nat) returns (ok: bool)
      requires Valid() && now >= clock
      modifies this
      ensures Valid() && clock == now
      ensures ok <==> |GivenLately(old(grants), user, now)| < 10
      ensures grants == old(grants) + if ok then [Grant(user, now)] else []
    {
      hide Limited;
      hide TimesOf;
      ListCountsGrants(grants, user, now);
      hide GivenLately;
      ghost var times := TimesOf(grants, user);
      assert ListExact(entries, lastCall, times, user);
      hide AllExact;
      if user in lastCall {
        RecentTwice(times, SELF, MINUTE, lastCall[user], now);
      }
      var list := if user in entries then entries[user] else [];
      list := LastMinute(list, now);
      ok := |list| < LEASE_LIMIT_PER_MINUTE;
      if ok {
        list := list + [now];
      }
      assert list == LastMinute(times, now) + if ok then [now] else [];
      CallKeepsExact(entries, lastCall, grants, user, list, ok, now);
      entries := entries[user := list];
      lastCall := lastCall[user := now];
      clock := now;
      grants := grants + if ok then [Grant(user, now)] else [];
    }
  }
}
