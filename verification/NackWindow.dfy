/**
 Loss reporting on the receiving side (NackWindow, crates/wavry-client/src/media.rs).

 The object keeps two bounded sets. Its specification is the whole list of arrivals: what
 is received, missing and reported are all functions of that list.
 */
module NackWindows {
  import opened Common

  const NACK_WINDOW_SIZE: nat := 128

  ghost function IdsFrom(lo: nat, hi: nat): seq<nat>
    ensures |IdsFrom(lo, hi)| == if lo < hi then hi - lo else 0
    ensures forall k | 0 <= k < |IdsFrom(lo, hi)| :: IdsFrom(lo, hi)[k] == lo + k
  {
    if lo < hi then seq(hi - lo, k requires 0 <= k => lo + k) else []
  }

  lemma IdsFromMembers(lo: nat, hi: nat)
    ensures forall x :: x in IdsFrom(lo, hi) <==> lo <= x < hi
  {
    forall x
      ensures x in IdsFrom(lo, hi) <==> lo <= x < hi
    {
      if lo <= x < hi {
        assert IdsFrom(lo, hi)[x - lo] == x;
      }
    }
  }

  ghost function Span(lo: nat, hi: nat): set<nat>
    ensures forall x :: x in Span(lo, hi) <==> lo <= x < hi
  {
    assert forall x :: x in IdsFrom(lo, hi) <==> lo <= x < hi by { IdsFromMembers(lo, hi); }
    set x <- IdsFrom(lo, hi)
  }

  /** The ids at or above a cutoff: `split_off`. */
  function Trim(s: set<nat>, cutoff: nat): set<nat> { set x <- s | cutoff <= x }

  /** The ids a window of this size still cares about once `highest` was seen. */
  function Cutoff(window: nat, highest: nat): nat { SatSub(highest, window) }

  ghost predicate StrictlyIncreasing(s: seq<nat>) {
    forall i, j | 0 <= i < j < |s| :: s[i] < s[j]
  }

  ghost predicate IsHighest(h: nat, arrivals: seq<nat>) {
    h in arrivals && forall k | 0 <= k < |arrivals| :: arrivals[k] <= h
  }

  /** The arrived ids the window still covers. */
  ghost function Received(window: nat, arrivals: seq<nat>, highest: nat): set<nat> {
    set a <- arrivals | Cutoff(window, highest) <= a
  }

  /** The ids the window covers, after the first packet seen, that have not arrived. */
  ghost function Missing(window: nat, arrivals: seq<nat>, highest: nat): set<nat>
    requires arrivals != []
  {
    set id | Max(arrivals[0], Cutoff(window, highest)) <= id < highest && id !in arrivals
  }

  lemma {:induction false} IntervalCardinality(s: set<nat>, lo: nat, hi: nat)
    requires forall x <- s :: lo <= x < hi
    requires lo <= hi
    ensures |s| <= hi - lo
    decreases hi - lo
  {
    if lo == hi {
      assert s == {};
    } else {
      IntervalCardinality(s - {hi - 1}, lo, hi - 1);
      assert s <= (s - {hi - 1}) + {hi - 1};
    }
  }

  /**
   Each id between the first packet and the highest that the window covers is in exactly one
   of the two sets, and together they never hold more than `window + 1` ids, however many
   packets arrive.
   */
  lemma PartitionOfWindow(window: nat, arrivals: seq<nat>, highest: nat)
    requires IsHighest(highest, arrivals)
    ensures forall id | Max(arrivals[0], Cutoff(window, highest)) <= id <= highest ::
              id in Received(window, arrivals, highest) <==> id !in Missing(window, arrivals, highest)
    ensures |Received(window, arrivals, highest)| + |Missing(window, arrivals, highest)| <= window + 1
  {
    var r, m := Received(window, arrivals, highest), Missing(window, arrivals, highest);
    assert r !! m;
    assert |r + m| == |r| + |m|;
    IntervalCardinality(r + m, Cutoff(window, highest), highest + 1);
  }

  /** How the two sets move when `p` arrives. */
  lemma SetsAfterArrival(window: nat, arrivals: seq<nat>, highest: nat, p: nat)
    requires arrivals != [] && IsHighest(highest, arrivals)
    ensures IsHighest(Max(highest, p), arrivals + [p])
    ensures Received(window, arrivals + [p], Max(highest, p))
         == Trim(Received(window, arrivals, highest) + {p}, Cutoff(window, Max(highest, p)))
    ensures Missing(window, arrivals + [p], Max(highest, p))
         == Trim(Missing(window, arrivals, highest) + Span(Max(highest + 1, Cutoff(window, p)), p) - {p},
                 Cutoff(window, Max(highest, p)))
  {
  }

  /** Reports so far: increasing, between first and highest arrival, and covering everything missing. */
  ghost predicate ReportsCover(window: nat, arrivals: seq<nat>, highest: nat, reported: seq<nat>)
    requires arrivals != []
  {
    && StrictlyIncreasing(reported)
    && (forall k | 0 <= k < |reported| :: arrivals[0] < reported[k] < highest)
    && (forall id <- Missing(window, arrivals, highest) :: id in reported)
  }

  /** The ids the arrival of `p` makes newly missing. */
  ghost function Skipped(window: nat, highest: nat, p: nat): seq<nat> {
    IdsFrom(Max(highest + 1, Cutoff(window, p)), p)
  }

  lemma ReportsAfterArrival(window: nat, arrivals: seq<nat>, highest: nat, reported: seq<nat>, p: nat)
    requires arrivals != [] && IsHighest(highest, arrivals)
    requires ReportsCover(window, arrivals, highest, reported)
    ensures ReportsCover(window, arrivals + [p], Max(highest, p), reported + Skipped(window, highest, p))
  {
    SetsAfterArrival(window, arrivals, highest, p);
    IdsFromMembers(Max(highest + 1, Cutoff(window, p)), p);
    var first := arrivals[0];
    assert first <= highest;
    assert (arrivals + [p])[0] == first;
  }

  /** Everything newly missing lies above every earlier arrival and every earlier report. */
  lemma SkippedAreNew(window: nat, arrivals: seq<nat>, highest: nat, reported: seq<nat>, p: nat)
    requires arrivals != [] && IsHighest(highest, arrivals)
    requires ReportsCover(window, arrivals, highest, reported)
    ensures forall id <- Skipped(window, highest, p) :: id !in arrivals && id !in reported
    ensures forall id | Max(highest + 1, Cutoff(window, p)) <= id < p ::
              id !in Received(window, arrivals, highest) && id !in Missing(window, arrivals, highest)
  {
  }

  // ---------------------------------------------------------------------------
  // Which ids are ever reported
  // ---------------------------------------------------------------------------

  ghost function Highest(arrivals: seq<nat>): nat
    requires arrivals != []
  {
    var n := |arrivals| - 1;
    if n == 0 then arrivals[0] else Max(Highest(arrivals[..n]), arrivals[n])
  }

  lemma {:induction false} HighestIsHighest(arrivals: seq<nat>)
    requires arrivals != []
    ensures IsHighest(Highest(arrivals), arrivals)
  {
    var n := |arrivals| - 1;
    if n > 0 {
      HighestIsHighest(arrivals[..n]);
      assert arrivals == arrivals[..n] + [arrivals[n]];
    }
  }

  /** Every id reported over a run, from the arrivals alone. */
  ghost function ReportsOf(window: nat, arrivals: seq<nat>): seq<nat> {
    var n := |arrivals| - 1;
    if n <= 0 then []
    else ReportsOf(window, arrivals[..n]) + Skipped(window, Highest(arrivals[..n]), arrivals[n])
  }

  /** Arrival `k` is the first at or above `id`. */
  ghost predicate FirstToReach(arrivals: seq<nat>, id: nat, k: nat) {
    && k < |arrivals| && id <= arrivals[k]
    && (forall j | 0 <= j < k :: arrivals[j] < id)
  }

  /** Arrival `k` jumps over `id`, by at most a window. */
  ghost predicate Skips(window: nat, arrivals: seq<nat>, id: nat, k: nat) {
    0 < k && FirstToReach(arrivals, id, k) && id < arrivals[k] <= id + window
  }

  /**
   An id is reported exactly when the first arrival at or above it is not the very first one
   and lies above it by at most a window. Whether any of the arrivals is authentic plays no part.
   */
  lemma {:induction false} ReportedExactly(window: nat, arrivals: seq<nat>, id: nat)
    ensures id in ReportsOf(window, arrivals) <==> exists k: nat :: Skips(window, arrivals, id, k)
  {
    hide Skipped;
    hide FirstToReach;
    var n := |arrivals| - 1;
    SkipsInside(window, arrivals, id);
    if n > 0 {
      var before := arrivals[..n];
      SkipsInside(window, before, id);
      ReportedExactly(window, before, id);
      LastSkips(window, arrivals, id);
      if id in ReportsOf(window, before) {
        var k: nat :| Skips(window, before, id, k);
        SkipsPrefix(window, arrivals, id, k);
      }
      if k: nat :| Skips(window, arrivals, id, k) && k < n {
        SkipsPrefix(window, arrivals, id, k);
      }
    }
  }

  lemma SkipsInside(window: nat, arrivals: seq<nat>, id: nat)
    ensures forall k: nat | Skips(window, arrivals, id, k) :: k < |arrivals|
  {
  }

  /** The last arrival jumps over the ids it newly reports. */
  lemma LastSkips(window: nat, arrivals: seq<nat>, id: nat)
    requires |arrivals| > 1
    ensures var n := |arrivals| - 1;
            id in Skipped(window, Highest(arrivals[..n]), arrivals[n]) <==> Skips(window, arrivals, id, n)
  {
    var n := |arrivals| - 1;
    var h := Highest(arrivals[..n]);
    HighestIsHighest(arrivals[..n]);
    IdsFromMembers(Max(h + 1, Cutoff(window, arrivals[n])), arrivals[n]);
    assert h < id <==> forall j | 0 <= j < n :: arrivals[j] < id;
  }

  lemma SkipsPrefix(window: nat, arrivals: seq<nat>, id: nat, k: nat)
    requires k + 1 < |arrivals|
    ensures Skips(window, arrivals, id, k) <==> Skips(window, arrivals[..|arrivals| - 1], id, k)
  {
  }

  /** Once an id at or above it has arrived, an id is never reported any more. */
  lemma {:induction false} SilentBelow(window: nat, arrivals: seq<nat>, k: nat, id: nat)
    requires k < |arrivals| && id <= arrivals[k]
    ensures id in ReportsOf(window, arrivals) <==> id in ReportsOf(window, arrivals[..k + 1])
  {
    var n := |arrivals| - 1;
    if k == n {
      assert arrivals[..k + 1] == arrivals;
    } else {
      var before := arrivals[..n];
      assert before[..k + 1] == arrivals[..k + 1];
      SilentBelow(window, before, k, id);
      HighestIsHighest(before);
      assert before[k] <= Highest(before);
      IdsFromMembers(Max(Highest(before) + 1, Cutoff(window, arrivals[n])), arrivals[n]);
    }
  }

  lemma FirstArrival(window: nat, p: nat)
    ensures IsHighest(p, [p]) && Received(window, [p], p) == {p} && Missing(window, [p], p) == {}
    ensures ReportsCover(window, [p], p, [])
  {
  }

  lemma ReportsStep(window: nat, arrivals: seq<nat>, p: nat, highest: Option<nat>)
    requires highest.None? <==> arrivals == []
    requires highest.Some? ==> IsHighest(highest.value, arrivals)
    ensures ReportsOf(window, arrivals + [p])
         == ReportsOf(window, arrivals) + if highest.None? then [] else Skipped(window, highest.value, p)
  {
    hide Skipped;
    assert (arrivals + [p])[..|arrivals|] == arrivals;
    if highest.Some? {
      HighestIsHighest(arrivals);
      assert Highest(arrivals) == highest.value;
    }
  }

  /** The two sets and the reports are functions of the arrivals. */
  ghost predicate Accounts(window: nat, highest: Option<nat>, received: set<nat>, missing: set<nat>,
                           arrivals: seq<nat>, reported: seq<nat>)
  {
    && (highest.None? <==> arrivals == [])
    && (highest.None? ==> received == {} && missing == {} && reported == [])
    && (highest.Some? ==>
          && IsHighest(highest.value, arrivals)
          && received == Received(window, arrivals, highest.value)
          && missing == Missing(window, arrivals, highest.value)
          && ReportsCover(window, arrivals, highest.value, reported))
    && reported == ReportsOf(window, arrivals)
  }

  ghost function NewlyMissing(window: nat, highest: Option<nat>, p: nat): seq<nat> {
    if highest.None? then [] else Skipped(window, highest.value, p)
  }

  function HighestAfter(highest: Option<nat>, p: nat): nat {
    if highest.None? then p else Max(highest.value, p)
  }

  /** The ids a packet skips, as a set. */
  ghost function Gap(window: nat, highest: Option<nat>, p: nat): set<nat> {
    if highest.None? then {} else Span(Max(highest.value + 1, Cutoff(window, p)), p)
  }

  lemma FirstAccounted(window: nat, p: nat)
    ensures Accounts(window, Some(p), Trim({p}, Cutoff(window, p)), {}, [p], [])
  {
    FirstArrival(window, p);
    assert Trim({p}, Cutoff(window, p)) == {p};
  }

  lemma NextAccounted(window: nat, h: nat, received: set<nat>, missing: set<nat>, arrivals: seq<nat>, reported: seq<nat>,
                      p: nat)
    requires Accounts(window, Some(h), received, missing, arrivals, reported)
    ensures var h' := Max(h, p);
            Accounts(window, Some(h'), Trim(received + {p}, Cutoff(window, h')),
                     Trim(missing + Gap(window, Some(h), p) - {p}, Cutoff(window, h')),
                     arrivals + [p], reported + Skipped(window, h, p))
    ensures forall id <- Skipped(window, h, p) :: id !in arrivals && id !in reported
    ensures forall id | Max(h + 1, Cutoff(window, p)) <= id < p :: id !in received && id !in missing
  {
    ReportsStep(window, arrivals, p, Some(h));
    hide IsHighest;
    hide Received;
    hide Missing;
    hide ReportsCover;
    hide ReportsOf;
    hide Skipped;
    hide Trim;
    SkippedAreNew(window, arrivals, h, reported, p);
    SetsAfterArrival(window, arrivals, h, p);
    ReportsAfterArrival(window, arrivals, h, reported, p);
  }

  /** One packet, with its gap added and everything below the window dropped. */
  lemma PacketAccounted(window: nat, highest: Option<nat>, received: set<nat>, missing: set<nat>,
                        arrivals: seq<nat>, reported: seq<nat>, p: nat)
    requires Accounts(window, highest, received, missing, arrivals, reported)
    ensures var h := HighestAfter(highest, p);
            Accounts(window, Some(h), Trim(received + {p}, Cutoff(window, h)),
                     Trim(missing + Gap(window, highest, p) - {p}, Cutoff(window, h)),
                     arrivals + [p], reported + NewlyMissing(window, highest, p))
    ensures forall id <- NewlyMissing(window, highest, p) :: id !in arrivals && id !in reported
    ensures highest.Some? ==>
              forall id | Max(highest.value + 1, Cutoff(window, p)) <= id < p :: id !in received && id !in missing
  {
    if highest.Some? {
      hide Accounts;
      NextAccounted(window, highest.value, received, missing, arrivals, reported, p);
    } else {
      assert received == {} && missing == {} && arrivals == [] && reported == [];
      hide Accounts;
      FirstAccounted(window, p);
      assert received + {p} == {p} && Trim(missing + Gap(window, highest, p) - {p}, Cutoff(window, p)) == {};
      assert arrivals + [p] == [p] && reported + [] == [];
    }
  }

  class NackWindow {
    const window: nat
    var highest: Option<nat>
    var received: set<nat>
    var missing: set<nat>
    /** Every packet id fed to the window. */
    ghost var arrivals: seq<nat>
    /** Every id ever reported missing, in order. */
    ghost var reported: seq<nat>

    ghost predicate Valid()
      reads this
    {
      Accounts(window, highest, received, missing, arrivals, reported)
    }

    constructor (window: nat)
      ensures Valid() && this.window == window && arrivals == [] && reported == []
    {
      this.window := window;
      highest, received, missing := None, {}, {};
      arrivals, reported := [], [];
    }

    /**
     Reports exactly the ids skipped by this packet that the window still covers, in order.
     All of them are new: above every earlier arrival and every earlier report.
     */
    method OnPacket(p: nat) returns (newlyMissing: seq<nat>)
      requires Valid() && p < U64
      requires highest != Some(U64 - 1)
      modifies this`highest, this`received, this`missing, this`arrivals, this`reported
      ensures Valid()
      ensures arrivals == old(arrivals) + [p]
      ensures reported == old(reported) + newlyMissing
      ensures highest == Some(HighestAfter(old(highest), p))
      ensures newlyMissing == NewlyMissing(window, old(highest), p)
      ensures forall id <- newlyMissing :: id !in old(arrivals) && id !in old(reported)
    {
      PacketAccounted(window, highest, received, missing, arrivals, reported, p);
      hide Accounts;
      hide Skipped;
      if highest.Some? {
        newlyMissing := ExtendTo(p);
      } else {
        newlyMissing := [];
        highest := Some(p);
      }
      received := received + {p};
      missing := missing - {p};
      arrivals := arrivals + [p];
      reported := reported + newlyMissing;
      EvictOld();
    }

    /** An id was reported exactly when some arrival jumped over it. */
    lemma ReportedMeans(id: nat)
      requires Valid()
      ensures id in reported <==> exists k: nat :: Skips(window, arrivals, id, k)
    {
      ReportedExactly(window, arrivals, id);
    }

    /** The packet that is not the first one. */
    method ExtendTo(p: nat) returns (newlyMissing: seq<nat>)
      requires highest.Some? && highest != Some(U64 - 1)
      requires forall id | Max(highest.value + 1, Cutoff(window, p)) <= id < p :: id !in received && id !in missing
      modifies this`highest, this`missing
      ensures highest == Some(Max(old(highest).value, p))
      ensures newlyMissing == Skipped(window, old(highest).value, p)
      ensures missing == old(missing) + Span(Max(old(highest).value + 1, Cutoff(window, p)), p)
    {
      var h := highest.value;
      newlyMissing := [];
      if p > h + 1 {
        var gapStart := h + 1;
        var gapEnd := p - 1;
        var minStart := Max(SatSub(p, window), gapStart);
        newlyMissing := CollectGap(minStart, gapEnd);
        highest := Some(p);
      } else if p > h {
        highest := Some(p);
      }
    }

    /** The gap loop: every id of the gap is new, so none is skipped. */
    method CollectGap(minStart: nat, gapEnd: nat) returns (newlyMissing: seq<nat>)
      requires forall id | minStart <= id <= gapEnd :: id !in received && id !in missing
      modifies this`missing
      ensures newlyMissing == IdsFrom(minStart, gapEnd + 1)
      ensures missing == old(missing) + Span(minStart, gapEnd + 1)
    {
      newlyMissing := [];
      var id := minStart;
      while id <= gapEnd
        invariant minStart <= id
        invariant id <= Max(minStart, gapEnd + 1)
        invariant newlyMissing == IdsFrom(minStart, id)
        invariant missing == old(missing) + Span(minStart, id)
      {
        if id !in received && id !in missing {
          missing := missing + {id};
          newlyMissing := newlyMissing + [id];
        }
        id := id + 1;
      }
    }

    method EvictOld()
      modifies this`received, this`missing
      ensures highest.Some? ==> received == Trim(old(received), Cutoff(window, highest.value))
      ensures highest.Some? ==> missing == Trim(old(missing), Cutoff(window, highest.value))
      ensures highest.None? ==> received == old(received) && missing == old(missing)
    {
      if highest.Some? {
        var cutoff := SatSub(highest.value, window);
        received := Trim(received, cutoff);
        missing := Trim(missing, cutoff);
      }
    }
  }
}
