/**
 Replay protection (crates/rift-crypto/src/seq_window.rs).

 Three layers. `SequenceWindow` is the source's object: the highest sequence number and a
 128-bit map whose bit i stands for `highest - i`. `Window` is its value: the same numbers
 as a set. The unbounded specification is the set of every number ever accepted, with
 `Fresh` deciding the next answer. The object refines the value, and the value refines
 the unbounded set.
 */
module SequenceWindows {
  import opened Common

  const WORD: nat := 128
  const DEFAULT_WINDOW_SIZE: nat := 128

  /** The bits of a `u128`, least significant first. */
  type U128 = b: seq<bool> | |b| == 128 witness seq(128, _ => false)

  function Zero(): U128 { seq(WORD, _ => false) }

  function ShiftLeft(b: U128, n: nat): U128
    requires n < WORD
  {
    seq(WORD, i requires 0 <= i < WORD => i >= n && b[i - n])
  }

  function Or(a: U128, b: U128): U128 {
    seq(WORD, i requires 0 <= i < WORD => a[i] || b[i])
  }

  function And(a: U128, b: U128): U128 {
    seq(WORD, i requires 0 <= i < WORD => a[i] && b[i])
  }

  function One(): U128 { Zero()[0 := true] }

  /** What a replay window remembers: the numbers seen among the last 128. */
  datatype Window = Window(size: nat, highest: nat, seen: set<nat>) {
    ghost predicate Valid() {
      && 0 < size <= WORD
      && highest < U64
      && (seen == {} ==> highest == 0)
      && (seen != {} ==> highest in seen)
      && forall x <- seen :: x <= highest < x + WORD
    }

    /** `seq + window_size` in wrapping `u64` arithmetic. */
    function Limit(sq: nat): nat { (sq + size) % U64 }

    predicate Accepts(sq: nat) {
      || (highest == 0 && seen == {})
      || (Limit(sq) > highest && sq !in seen)
    }

    function Admit(sq: nat): Window {
      if !Accepts(sq) then this
      else if sq > highest then Window(size, sq, (set x <- seen | sq < x + WORD) + {sq})
      else this.(seen := seen + {sq})
    }
  }

  function NewWindow(): Window { Window(DEFAULT_WINDOW_SIZE, 0, {}) }

  // ---------------------------------------------------------------------------
  // The unbounded specification
  // ---------------------------------------------------------------------------

  /** A number is acceptable when it was never accepted and nothing accepted is `size` or more ahead of it. */
  ghost predicate Fresh(accepted: set<nat>, size: nat, sq: nat) {
    sq !in accepted && forall h <- accepted :: h < sq + size
  }

  /** `w` is the bounded memory of the unbounded set `accepted`. */
  ghost predicate Tracks(w: Window, accepted: set<nat>) {
    && w.Valid()
    && (accepted == {} <==> w.seen == {})
    && (accepted != {} ==> w.highest in accepted)
    && (forall x <- accepted :: x <= w.highest)
    && (forall x :: x in w.seen <==> x in accepted && w.highest < x + WORD)
  }

  ghost function After(accepted: set<nat>, w: Window, sq: nat): set<nat> {
    if w.Accepts(sq) then accepted + {sq} else accepted
  }

  /** Every update keeps the bounded memory in step with the unbounded set. */
  lemma AdmitTracks(w: Window, accepted: set<nat>, sq: nat)
    requires Tracks(w, accepted) && sq < U64
    ensures Tracks(w.Admit(sq), After(accepted, w, sq))
    ensures w.Accepts(sq) ==> sq !in accepted
  {
  }

  /**
   The bounded window answers exactly as the unbounded set does, except where `seq + size`
   wraps past 2^64 onto a number the window has already passed: there the code refuses a
   number it has never seen.
   */
  lemma AcceptsExactly(w: Window, accepted: set<nat>, sq: nat)
    requires Tracks(w, accepted) && sq < U64
    ensures w.Accepts(sq) == Fresh(accepted, w.size, sq)
            <==> accepted == {} || sq in accepted || sq + w.size < U64 || w.highest < sq + w.size - U64
  {
  }

  /** The failing family is inhabited: at the top of the range a new number is refused. */
  lemma WrapRefusesNewNumber()
    ensures var w := NewWindow().Admit(U64 - 100);
            Tracks(w, {U64 - 100}) && !w.Accepts(U64 - 1) && Fresh({U64 - 100}, w.size, U64 - 1)
  {
  }

  // ---------------------------------------------------------------------------
  // Whole runs
  // ---------------------------------------------------------------------------

  function Run(w: Window, arrivals: seq<nat>): Window {
    if arrivals == [] then w
    else Run(w, arrivals[..|arrivals| - 1]).Admit(arrivals[|arrivals| - 1])
  }

  /** The answer given to the i-th arrival. */
  predicate Answer(w: Window, arrivals: seq<nat>, i: nat)
    requires i < |arrivals|
  {
    Run(w, arrivals[..i]).Accepts(arrivals[i])
  }

  /** Every number a run has accepted. */
  ghost function AcceptedIn(w: Window, arrivals: seq<nat>): set<nat> {
    set i | 0 <= i < |arrivals| && Answer(w, arrivals, i) :: arrivals[i]
  }

  lemma AcceptedInStep(w: Window, rest: seq<nat>, sq: nat)
    ensures AcceptedIn(w, rest + [sq]) == After(AcceptedIn(w, rest), Run(w, rest), sq)
  {
    var all := rest + [sq];
    var n := |rest|;
    assert all[..n] == rest;
    assert forall i | 0 <= i < n :: all[..i] == rest[..i] && all[i] == rest[i];
    forall x: nat
      ensures x in AcceptedIn(w, all) <==> x in AcceptedIn(w, rest) || (x == sq && Run(w, rest).Accepts(sq))
    {
      if x in AcceptedIn(w, rest) {
        var i :| 0 <= i < n && Answer(w, rest, i) && rest[i] == x;
        assert Answer(w, all, i);
      }
      if x == sq && Run(w, rest).Accepts(sq) {
        assert Answer(w, all, n) && all[n] == x;
      }
      if x in AcceptedIn(w, all) {
        var i :| 0 <= i < n + 1 && Answer(w, all, i) && all[i] == x;
        if i < n {
          assert Answer(w, rest, i);
        }
      }
    }
  }

  lemma {:induction false} RunTracks(size: nat, arrivals: seq<nat>)
    requires 0 < size <= WORD
    requires forall i | 0 <= i < |arrivals| :: arrivals[i] < U64
    ensures Tracks(Run(Window(size, 0, {}), arrivals), AcceptedIn(Window(size, 0, {}), arrivals))
  {
    var w := Window(size, 0, {});
    if arrivals == [] {
      assert AcceptedIn(w, arrivals) == {};
    } else {
      var n := |arrivals| - 1;
      var rest := arrivals[..n];
      RunTracks(size, rest);
      AdmitTracks(Run(w, rest), AcceptedIn(w, rest), arrivals[n]);
      AcceptedInStep(w, rest, arrivals[n]);
      assert arrivals == rest + [arrivals[n]];
    }
  }

  /** No run of any length, in any order, accepts the same number twice. */
  lemma AcceptedAtMostOnce(size: nat, arrivals: seq<nat>, i: nat, j: nat)
    requires 0 < size <= WORD
    requires forall i | 0 <= i < |arrivals| :: arrivals[i] < U64
    requires i < j < |arrivals| && arrivals[i] == arrivals[j]
    ensures !(Answer(Window(size, 0, {}), arrivals, i) && Answer(Window(size, 0, {}), arrivals, j))
  {
    var w := Window(size, 0, {});
    if Answer(w, arrivals, i) && Answer(w, arrivals, j) {
      var before := arrivals[..j];
      RunTracks(size, before);
      assert before[..i] == arrivals[..i] && before[i] == arrivals[i];
      assert Answer(w, before, i);
      assert arrivals[j] in AcceptedIn(w, before);
      AdmitTracks(Run(w, before), AcceptedIn(w, before), arrivals[j]);
      assert false;
    }
  }

  /**
   Every answer of every run is the unbounded set's, except exactly where the sum wraps to or
   below a number already accepted.
   */
  lemma RunAnswersExactly(size: nat, arrivals: seq<nat>, i: nat)
    requires 0 < size <= WORD && i < |arrivals|
    requires forall k | 0 <= k < |arrivals| :: arrivals[k] < U64
    ensures var accepted := AcceptedIn(Window(size, 0, {}), arrivals[..i]);
            Answer(Window(size, 0, {}), arrivals, i) == Fresh(accepted, size, arrivals[i])
            <==> || arrivals[i] in accepted
                 || arrivals[i] + size < U64
                 || forall h <- accepted :: h < arrivals[i] + size - U64
  {
    RunTracks(size, arrivals[..i]);
    RunKeepsSize(Window(size, 0, {}), arrivals[..i]);
    AcceptsExactly(Run(Window(size, 0, {}), arrivals[..i]), AcceptedIn(Window(size, 0, {}), arrivals[..i]), arrivals[i]);
  }

  lemma {:induction false} RunKeepsSize(w: Window, arrivals: seq<nat>)
    ensures Run(w, arrivals).size == w.size
  {
    if arrivals != [] {
      RunKeepsSize(w, arrivals[..|arrivals| - 1]);
    }
  }

  // ---------------------------------------------------------------------------
  // The bitmap
  // ---------------------------------------------------------------------------

  /** The numbers a bitmap stands for: bit i is `highest - i`. */
  ghost function Decode(highest: nat, b: U128): set<nat> {
    set i | 0 <= i < WORD && b[i] && i <= highest :: highest - i
  }

  lemma DecodeBit(highest: nat, b: U128, x: nat)
    ensures x in Decode(highest, b) <==> x <= highest < x + WORD && b[highest - x]
  {
  }

  /** No bit stands for a number below zero. */
  ghost predicate NoStrayBits(highest: nat, b: U128) {
    forall i | highest < i < WORD :: !b[i]
  }

  lemma DecodeOne(highest: nat)
    ensures Decode(highest, One()) == {highest} && NoStrayBits(highest, One())
  {
    forall x: nat
      ensures x in Decode(highest, One()) <==> x == highest
    {
      DecodeBit(highest, One(), x);
    }
  }

  /** Shifting by the distance to a new highest number keeps the old numbers in place. */
  lemma DecodeAdvance(highest: nat, b: U128, sq: nat)
    requires highest < sq < highest + WORD && NoStrayBits(highest, b)
    ensures NoStrayBits(sq, Or(ShiftLeft(b, sq - highest), One()))
    ensures Decode(sq, Or(ShiftLeft(b, sq - highest), One()))
         == (set x <- Decode(highest, b) | sq < x + WORD) + {sq}
  {
    var b' := Or(ShiftLeft(b, sq - highest), One());
    forall x: nat
      ensures x in Decode(sq, b') <==> x == sq || (x in Decode(highest, b) && sq < x + WORD)
    {
      DecodeBit(sq, b', x);
      DecodeBit(highest, b, x);
    }
  }

  lemma DecodeMark(highest: nat, b: U128, k: nat)
    requires k <= highest && k < WORD && NoStrayBits(highest, b)
    ensures NoStrayBits(highest, Or(b, ShiftLeft(One(), k)))
    ensures Decode(highest, Or(b, ShiftLeft(One(), k))) == Decode(highest, b) + {highest - k}
  {
    var b' := Or(b, ShiftLeft(One(), k));
    forall x: nat
      ensures x in Decode(highest, b') <==> x == highest - k || x in Decode(highest, b)
    {
      DecodeBit(highest, b', x);
      DecodeBit(highest, b, x);
    }
  }

  /** Testing a single-bit mask reads that bit. */
  lemma MaskTest(b: U128, k: nat)
    requires k < WORD
    ensures And(b, ShiftLeft(One(), k)) == Zero() <==> !b[k]
  {
    var m := And(b, ShiftLeft(One(), k));
    assert m[k] == b[k];
    if !b[k] {
      assert m == Zero();
    }
  }

  class SequenceWindow {
    var highest: nat
    var bitmap: U128
    const windowSize: nat
    /** Every number accepted since construction or the last reset. */
    ghost var accepted: set<nat>

    ghost function State(): Window
      reads this
    {
      Window(windowSize, highest, Decode(highest, bitmap))
    }

    ghost predicate Valid()
      reads this
    {
      && NoStrayBits(highest, bitmap)
      && Tracks(State(), accepted)
    }

    constructor (size: nat)
      requires 0 < size <= 128
      ensures Valid() && windowSize == size && accepted == {}
      ensures State() == Window(size, 0, {})
    {
      highest, bitmap, windowSize := 0, Zero(), size;
      accepted := {};
    }

    /** Bit i is set exactly when `highest - i` was accepted, for every i below 128. */
    lemma BitsAreAccepted()
      requires Valid()
      ensures forall i: nat | i < WORD :: bitmap[i] <==> i <= highest && highest - i in accepted
    {
    }

    predicate IsNew()
      reads this
    {
      highest == 0 && bitmap == Zero()
    }

    lemma NewIsEmpty()
      requires Valid()
      ensures IsNew() <==> accepted == {}
    {
      BitsAreAccepted();
      if accepted == {} {
        assert bitmap == Zero();
      } else {
        assert bitmap[0];
      }
    }

    method Check(sq: nat) returns (ok: bool)
      requires Valid() && sq < U64
      ensures ok <==> State().Accepts(sq)
      ensures ok ==> sq !in accepted
    {
      NewIsEmpty();
      AdmitTracks(State(), accepted, sq);
      if IsNew() {
        return true;
      }
      if (sq + windowSize) % U64 <= highest {
        return false;
      }
      if sq > highest {
        return true;
      }
      var offset := highest - sq;
      var mask := ShiftLeft(One(), offset);
      DecodeBit(highest, bitmap, sq);
      MaskTest(bitmap, offset);
      ok := And(bitmap, mask) == Zero();
    }

    method CheckAndUpdate(sq: nat) returns (ok: bool)
      requires Valid() && sq < U64
      modifies this`highest, this`bitmap, this`accepted
      ensures Valid()
      ensures ok <==> old(State()).Accepts(sq)
      ensures State() == old(State()).Admit(sq)
      ensures accepted == if ok then old(accepted) + {sq} else old(accepted)
      ensures ok ==> sq !in old(accepted)
    {
      NewIsEmpty();
      AdmitTracks(State(), accepted, sq);
      if !IsNew() && (sq + windowSize) % U64 <= highest {
        return false;
      }
      ghost var after := After(accepted, State(), sq);
      if IsNew() || sq > highest {
        AdvanceTo(sq);
        ok := true;
      } else {
        ok := MarkWithinWindow(sq);
      }
      accepted := after;
    }

    /** The part of the update for a first number, or one ahead of the window. */
    method AdvanceTo(sq: nat)
      requires NoStrayBits(highest, bitmap) && (IsNew() || sq > highest)
      modifies this`highest, this`bitmap
      ensures NoStrayBits(highest, bitmap)
      ensures State() == Window(windowSize, sq, (set x <- old(State()).seen | sq < x + WORD) + {sq})
    {
      if IsNew() {
        highest, bitmap := sq, One();
        DecodeOne(sq);
        return;
      }
      var shift := sq - highest;
      if shift >= 128 {
        DecodeOne(sq);
        bitmap := One();
      } else {
        DecodeAdvance(highest, bitmap, sq);
        bitmap := ShiftLeft(bitmap, shift);
        bitmap := Or(bitmap, One());
      }
      highest := sq;
    }

    /** The part of the update for a number within the window. */
    method MarkWithinWindow(sq: nat) returns (ok: bool)
      requires NoStrayBits(highest, bitmap) && sq <= highest < sq + WORD
      modifies this`bitmap
      ensures NoStrayBits(highest, bitmap)
      ensures ok <==> sq !in old(State()).seen
      ensures State() == old(State()).(seen := old(State()).seen + {sq})
    {
      var offset := highest - sq;
      var mask := ShiftLeft(One(), offset);
      MaskTest(bitmap, offset);
      DecodeBit(highest, bitmap, sq);
      if And(bitmap, mask) != Zero() {
        return false;
      }
      DecodeMark(highest, bitmap, offset);
      bitmap := Or(bitmap, mask);
      return true;
    }

    method Reset()
      requires Valid()
      modifies this`highest, this`bitmap, this`accepted
      ensures Valid() && accepted == {}
      ensures State() == Window(windowSize, 0, {})
    {
      highest, bitmap := 0, Zero();
      accepted := {};
    }
  }
}
