/**
 The circular reorder buffer (ReorderBuffer, crates/wavry-media/src/buffer_pool.rs) against a
 map from packet id to data.
 */
module ReorderBuffers {
  import opened Common

  datatype ReorderError = PacketTooOld

  // ---------------------------------------------------------------------------
  // Slots and the map they stand for
  // ---------------------------------------------------------------------------

  type Slots = seq<Option<Bytes>>

  function SlotOf(slots: Slots, id: nat): Option<Bytes>
    requires |slots| > 0
  {
    slots[id % |slots|]
  }

  /** The packets a window starting at `start` holds, by id. */
  ghost function View(slots: Slots, start: nat): map<nat, Bytes>
    requires |slots| > 0
  {
    map id | start <= id < start + |slots| && SlotOf(slots, id).Some? :: SlotOf(slots, id).value
  }

  /** The id inside the window that shares its slot with `id`. */
  function Alias(start: nat, n: nat, id: nat): nat
    requires n > 0 && id >= start
  {
    start + (id - start) % n
  }

  lemma ModShift(a: nat, k: nat, n: nat)
    requires n > 0
    ensures (a + k * n) % n == a % n
  {
    var q, r := a / n, a % n;
    assert a + k * n == (q + k) * n + r by {
      assert (q + k) * n == q * n + k * n;
    }
    ModUnique(a + k * n, n, q + k, r);
  }

  lemma ModUnique(m: nat, n: nat, q: nat, r: nat)
    requires n > 0 && r < n && m == q * n + r
    ensures m % n == r
  {
    var q', r' := m / n, m % n;
    assert m == q' * n + r';
    assert (q + 1) * n == q * n + n && (q' + 1) * n == q' * n + n;
    if q' < q {
      MulMonotone(q' + 1, q, n);
    } else if q < q' {
      MulMonotone(q + 1, q', n);
    }
  }

  /** Two ids less than a window apart never share a slot. */
  lemma SlotsDiffer(a: nat, b: nat, n: nat)
    requires n > 0 && a < b < a + n
    ensures a % n != b % n
  {
    var qa, qb := a / n, b / n;
    assert a == qa * n + a % n && b == qb * n + b % n;
    assert (qa + 1) * n == qa * n + n;
    if qb <= qa {
      MulMonotone(qb, qa, n);
    } else {
      MulMonotone(qa + 1, qb, n);
    }
  }

  lemma SameSlotInWindow(a: nat, b: nat, n: nat)
    requires n > 0 && a < b + n && b < a + n
    ensures SameSlot(a, b, n) <==> a == b
  {
    if a < b {
      SlotsDiffer(a, b, n);
    } else if b < a {
      SlotsDiffer(b, a, n);
    }
  }

  lemma AliasSharesSlot(start: nat, n: nat, id: nat)
    requires n > 0 && id >= start
    ensures Alias(start, n, id) % n == id % n
  {
    var a, k := Alias(start, n, id), (id - start) / n;
    assert id - start == k * n + (id - start) % n;
    assert id == a + k * n;
    ModShift(a, k, n);
  }

  /** The alias is the one id of the window with the same slot. */
  lemma AliasIsSlotMate(start: nat, n: nat, id: nat)
    requires n > 0 && id >= start
    ensures start <= Alias(start, n, id) < start + n
    ensures Alias(start, n, id) % n == id % n
    ensures forall x | start <= x < start + n :: SameSlot(x, id, n) <==> x == Alias(start, n, id)
    ensures id < start + n ==> Alias(start, n, id) == id
  {
    var a := Alias(start, n, id);
    AliasSharesSlot(start, n, id);
    forall x | start <= x < start + n
      ensures SameSlot(x, id, n) <==> x == a
    {
      SameSlotInWindow(x, a, n);
    }
    if id < start + n {
      ModUnique(id - start, n, 0, id - start);
    }
  }

  predicate SameSlot(a: nat, b: nat, n: nat)
    requires n > 0
  {
    a % n == b % n
  }

  /** Writing a slot is updating the map at the alias; clearing it is removing the alias. */
  lemma WriteSlot(slots: Slots, start: nat, id: nat, v: Option<Bytes>)
    requires |slots| > 0 && id >= start
    ensures var a := Alias(start, |slots|, id);
            View(slots[id % |slots| := v], start)
            == if v.Some? then View(slots, start)[a := v.value] else View(slots, start) - {a}
  {
    var n := |slots|;
    var a := Alias(start, n, id);
    AliasIsSlotMate(start, n, id);
    var slots' := slots[id % n := v];
    forall x | start <= x < start + n
      ensures SlotOf(slots', x) == if x == a then v else SlotOf(slots, x)
    {
      assert SameSlot(x, id, n) <==> x == a;
    }
  }

  ghost function LenAt(m: map<nat, Bytes>, id: nat): nat { if id in m then |m[id]| else 0 }

  lemma AliasLength(slots: Slots, start: nat, id: nat)
    requires |slots| > 0 && id >= start
    ensures LenAt(View(slots, start), Alias(start, |slots|, id)) == LenOf(slots[id % |slots|])
  {
    var a := Alias(start, |slots|, id);
    AliasIsSlotMate(start, |slots|, id);
    assert SlotOf(slots, a) == slots[id % |slots|];
  }

  /** Once its slot is empty, the first id can leave the window. */
  lemma StepWindow(slots: Slots, start: nat)
    requires |slots| > 0 && SlotOf(slots, start).None?
    ensures View(slots, start + 1) == View(slots, start)
  {
    ModShift(start, 1, |slots|);
    assert SlotOf(slots, start + |slots|) == SlotOf(slots, start);
  }

  /** Bytes held. */
  ghost function Stored(slots: Slots): nat {
    if slots == [] then 0 else Stored(slots[..|slots| - 1]) + LenOf(slots[|slots| - 1])
  }

  function LenOf(v: Option<Bytes>): nat { if v.Some? then |v.value| else 0 }

  lemma {:induction false} StoredUpdate(slots: Slots, i: nat, v: Option<Bytes>)
    requires i < |slots|
    ensures Stored(slots[i := v]) == Stored(slots) - LenOf(slots[i]) + LenOf(v)
    ensures Stored(slots) >= LenOf(slots[i])
  {
    var n := |slots| - 1;
    if i < n {
      StoredUpdate(slots[..n], i, v);
      assert slots[i := v][..n] == slots[..n][i := v];
    } else {
      assert slots[i := v][..n] == slots[..n];
    }
  }

  /** The ids from `from` on. */
  ghost function From(m: map<nat, Bytes>, from: nat): map<nat, Bytes> {
    map id | id in m && from <= id :: m[id]
  }

  /** The longest run of consecutive ids from `start`. */
  ghost predicate IsRun(m: map<nat, Bytes>, start: nat, r: seq<Bytes>) {
    Follows(m, start, r) && start + |r| !in m
  }

  ghost predicate Follows(m: map<nat, Bytes>, start: nat, r: seq<Bytes>) {
    forall i | 0 <= i < |r| :: Maps(m, start + i, r[i])
  }

  ghost predicate Maps(m: map<nat, Bytes>, id: nat, data: Bytes) { id in m && m[id] == data }

  lemma EmptyRun(m: map<nat, Bytes>, start: nat)
    ensures Follows(m, start, [])
  {
  }

  lemma RunExtends(m: map<nat, Bytes>, start: nat, r: seq<Bytes>, data: Bytes)
    requires Follows(m, start, r) && start + |r| in m && m[start + |r|] == data
    ensures Follows(m, start, r + [data])
  {
  }

  lemma FromMember(m: map<nat, Bytes>, id: nat)
    ensures id in From(m, id) <==> id in m
    ensures id in m ==> From(m, id)[id] == m[id]
  {
  }

  /** Where the window starts after `id` was inserted: it slides at most one window length. */
  function StartAfter(start: nat, n: nat, id: nat): nat {
    if id > start + n then start + Min(id - start - n, n) else start
  }

  /**
   The window moves only for an id beyond its end, and then just far enough that the id is at
   its end, but never by more than its own length.
   */
  lemma WindowFollows(start: nat, n: nat, id: nat)
    ensures var start' := StartAfter(start, n, id);
            && (id <= start + n ==> start' == start)
            && (start + n < id <= start + 2 * n ==> id == start' + n)
            && (start + 2 * n < id ==> start' == start + n)
  {
  }

  /** A packet is held under its own id exactly when it was inside the window it found. */
  lemma HeldUnderOwnId(start: nat, n: nat, id: nat)
    requires n > 0 && id >= start
    ensures Alias(StartAfter(start, n, id), n, id) == id <==> id < start + n
  {
    AliasIsSlotMate(StartAfter(start, n, id), n, id);
  }

  /** The id right after a window of ten does not move it, and is held as the window's first id. */
  lemma NextIdMisfiled()
    ensures StartAfter(0, 10, 10) == 0 && Alias(0, 10, 10) == 0
  {
  }

  class ReorderBuffer {
    const buffer: array<Option<Bytes>>
    const windowSize: nat
    var windowStart: nat
    var maxSeen: nat
    var bufferSizeBytes: nat
    /** Bytes of packets overwritten in their slot, which the byte counter never gives back. */
    ghost var overwritten: nat

    ghost predicate Valid()
      reads this, buffer
    {
      && windowSize > 0 && buffer.Length == windowSize
      && bufferSizeBytes == Stored(buffer[..]) + overwritten
    }

    ghost function Contents(): map<nat, Bytes>
      reads this, buffer
      requires Valid()
    {
      View(buffer[..], windowStart)
    }

    constructor (windowSize: nat)
      requires 0 < windowSize < U32
      ensures Valid() && fresh(buffer) && this.windowSize == windowSize
      ensures Contents() == map[] && windowStart == 0 && overwritten == 0
    {
      this.windowSize := windowSize;
      buffer := new Option<Bytes>[windowSize](_ => None);
      windowStart, maxSeen, bufferSizeBytes, overwritten := 0, 0, 0, 0;
      new;
      NothingStored(buffer[..]);
    }

    method Insert(id: nat, data: Bytes) returns (r: Result<(), ReorderError>)
      requires Valid() && id < U32
      requires id < windowStart || windowStart + windowSize < U32
      modifies this, buffer
      ensures Valid()
      ensures r.Err? <==> id < old(windowStart)
      ensures r.Err? ==> Contents() == old(Contents()) && windowStart == old(windowStart)
      ensures r.Err? ==> overwritten == old(overwritten) && maxSeen == old(maxSeen)
      ensures r.Ok? ==>
                && windowStart == StartAfter(old(windowStart), windowSize, id) <= id
                && Contents() == From(old(Contents()), windowStart)[Alias(windowStart, windowSize, id) := data]
                && overwritten == old(overwritten) + LenAt(From(old(Contents()), windowStart), Alias(windowStart, windowSize, id))
                && maxSeen == Max(old(maxSeen), id)
      ensures old(windowStart) <= id < old(windowStart) + windowSize ==>
                && windowStart == old(windowStart)
                && Contents() == old(Contents())[id := data]
                && overwritten == old(overwritten) + LenAt(old(Contents()), id)
    {
      if id < windowStart {
        return Err(PacketTooOld);
      }
      assert From(Contents(), windowStart) == Contents();
      if id > windowStart + windowSize {
        var advance := id - windowStart - windowSize;
        SlideWindow(advance);
      }
      var idx := id % windowSize;
      AliasIsSlotMate(windowStart, windowSize, id);
      WriteSlot(buffer[..], windowStart, id, Some(data));
      StoredUpdate(buffer[..], idx, Some(data));
      AliasLength(buffer[..], windowStart, id);
      overwritten := overwritten + LenOf(buffer[idx]);
      ghost var slots := buffer[..];
      buffer[idx] := Some(data);
      assert buffer[..] == slots[idx := Some(data)];
      bufferSizeBytes := bufferSizeBytes + |data|;
      maxSeen := Max(maxSeen, id);
      return Ok(());
    }

    method Get(id: nat) returns (r: Option<Bytes>)
      requires Valid() && id < U32
      requires id < windowStart || windowStart + windowSize < U32
      modifies this`bufferSizeBytes, buffer
      ensures Valid()
      ensures r == if id in old(Contents()) then Some(old(Contents())[id]) else None
      ensures Contents() == old(Contents()) - {id}
    {
      if id < windowStart || id >= windowStart + windowSize {
        return None;
      }
      AliasIsSlotMate(windowStart, windowSize, id);
      r := Take(id % windowSize);
      WriteSlot(old(buffer[..]), windowStart, id, None);
      assert id in old(Contents()) <==> SlotOf(old(buffer[..]), id).Some?;
    }

    /** `buffer[idx].take()` with the byte counter. */
    method Take(idx: nat) returns (r: Option<Bytes>)
      requires Valid() && idx < windowSize
      modifies this`bufferSizeBytes, buffer
      ensures Valid()
      ensures r == old(buffer[idx]) && buffer[..] == old(buffer[..])[idx := None]
    {
      StoredUpdate(buffer[..], idx, None);
      r := buffer[idx];
      if r.Some? {
        ghost var slots := buffer[..];
        buffer[idx] := None;
        assert buffer[..] == slots[idx := None];
        bufferSizeBytes := SatSub(bufferSizeBytes, |r.value|);
      } else {
        assert buffer[..][idx := None] == buffer[..];
      }
    }

    /** Drop the first id of the window. */
    method DropFirst() returns (r: Option<Bytes>)
      requires Valid()
      modifies this`bufferSizeBytes, this`windowStart, buffer
      ensures Valid()
      ensures r == if old(windowStart) in old(Contents()) then Some(old(Contents())[old(windowStart)]) else None
      ensures windowStart == old(windowStart) + 1
      ensures Contents() == From(old(Contents()), windowStart)
    {
      AliasIsSlotMate(windowStart, windowSize, windowStart);
      assert windowStart in Contents() <==> SlotOf(buffer[..], windowStart).Some?;
      WriteSlot(buffer[..], windowStart, windowStart, None);
      r := Take(windowStart % windowSize);
      StepWindow(buffer[..], windowStart);
      windowStart := windowStart + 1;
      assert Contents() == From(old(Contents()), windowStart);
    }

    lemma FirstSlot()
      requires Valid()
      ensures windowStart in Contents() <==> buffer[windowStart % windowSize].Some?
    {
    }

    method FlushOrdered() returns (r: seq<Bytes>)
      requires Valid() && U32 - 1 !in Contents()
      modifies this`bufferSizeBytes, this`windowStart, buffer
      ensures Valid()
      ensures IsRun(old(Contents()), old(windowStart), r)
      ensures windowStart == old(windowStart) + |r|
      ensures Contents() == From(old(Contents()), windowStart)
    {
      r := [];
      ghost var start, held := windowStart, Contents();
      WindowBounds();
      hide View;
      hide Stored;
      hide From;
      hide Follows;
      EmptyRun(held, start);
      while buffer[windowStart % windowSize].Some?
        invariant Valid()
        invariant windowStart == start + |r| <= start + windowSize
        invariant Contents() == From(held, windowStart)
        invariant Follows(held, start, r)
        decreases start + windowSize - windowStart
      {
        FirstSlot();
        FromFrom(held, windowStart, windowStart + 1);
        FromMember(held, windowStart);
        ghost var now := Contents();
        var data := DropFirst();
        assert Contents() == From(now, windowStart);
        RunExtends(held, start, r, data.value);
        r := r + [data.value];
      }
      FirstSlot();
      FromMember(held, windowStart);
    }

    lemma WindowBounds()
      requires Valid()
      ensures forall id <- Contents() :: windowStart <= id < windowStart + windowSize
      ensures From(Contents(), windowStart) == Contents()
    {
    }

    method SlideWindow(count: nat)
      requires Valid()
      modifies this`bufferSizeBytes, this`windowStart, buffer
      ensures Valid() && windowStart == old(windowStart) + Min(count, windowSize)
      ensures Contents() == From(old(Contents()), windowStart)
    {
      ghost var start, held := windowStart, Contents();
      WindowBounds();
      hide View;
      hide Stored;
      for k := 0 to Min(count, windowSize)
        invariant Valid() && windowStart == start + k
        invariant Contents() == From(held, windowStart)
      {
        var dropped := DropFirst();
        FromFrom(held, windowStart - 1, windowStart);
      }
    }
  }

  lemma FromFrom(m: map<nat, Bytes>, a: nat, b: nat)
    requires a <= b
    ensures From(From(m, a), b) == From(m, b)
  {
  }

  lemma {:induction false} NothingStored(slots: Slots)
    requires forall i | 0 <= i < |slots| :: slots[i].None?
    ensures Stored(slots) == 0
  {
    if slots != [] {
      NothingStored(slots[..|slots| - 1]);
    }
  }
}
