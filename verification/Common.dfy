/** Types and constants shared by every module of the model. */
module Common {
  /** 2^64: the source keeps sequence numbers, packet ids and sizes in `u64`. */
  const U64: nat := 0x1_0000_0000_0000_0000
  /** 2^32: the range of the source's `u32`. */
  const U32: nat := 0x1_0000_0000

  type Byte = b: int | 0 <= b < 256
  type Bytes = seq<Byte>

  datatype Option<+T> = None | Some(value: T)

  datatype Result<+T, +E> = Ok(value: T) | Err(error: E)

  function Min(a: int, b: int): int { if a <= b then a else b }

  function Max(a: int, b: int): int { if a >= b then a else b }

  function MinReal(a: real, b: real): real { if a <= b then a else b }

  function MaxReal(a: real, b: real): real { if a >= b then a else b }

  /** `a.saturating_sub(b)` on unsigned integers. */
  function SatSub(a: nat, b: nat): nat { if a >= b then a - b else 0 }

  /** `n.div_ceil(d)`. */
  function DivCeil(n: nat, d: nat): nat
    requires d > 0
  {
    n / d + if n % d == 0 then 0 else 1
  }

  lemma MulMonotone(a: nat, b: nat, d: nat)
    requires a <= b
    ensures a * d <= b * d
  {
  }

  /** The multiples of `d` that cover `n` are those at or above the quotient rounded up. */
  lemma DivCeilCovers(n: nat, d: nat, c: nat)
    requires d > 0
    ensures n <= c * d <==> DivCeil(n, d) <= c
  {
    var q, r := n / d, n % d;
    assert n == q * d + r;
    if DivCeil(n, d) <= c {
      MulMonotone(DivCeil(n, d), c, d);
      assert r != 0 ==> DivCeil(n, d) * d == q * d + d;
    } else {
      MulMonotone(c + 1, DivCeil(n, d), d);
      assert (c + 1) * d == c * d + d;
      assert r != 0 ==> c <= q;
      MulMonotone(c, q, d);
    }
  }

  // ---------------------------------------------------------------------------
  // Lists pruned by age
  // ---------------------------------------------------------------------------

  predicate Young(at: nat, width: nat, now: nat) { SatSub(now, at) < width }

  /** `retain`: the items whose time is less than `width` before `now`. */
  function Recent<T>(items: seq<T>, time: T -> nat, width: nat, now: nat): seq<T> {
    if items == [] then []
    else
      var last := items[|items| - 1];
      Recent(items[..|items| - 1], time, width, now) + if Young(time(last), width, now) then [last] else []
  }

  lemma RecentAppend<T>(items: seq<T>, item: T, time: T -> nat, width: nat, now: nat)
    ensures Recent(items + [item], time, width, now)
         == Recent(items, time, width, now) + if Young(time(item), width, now) then [item] else []
  {
  }

  /** Pruning early loses nothing that a later pruning would keep. */
  lemma {:induction false} RecentTwice<T>(items: seq<T>, time: T -> nat, width: nat, t: nat, now: nat)
    requires t <= now
    ensures Recent(Recent(items, time, width, t), time, width, now) == Recent(items, time, width, now)
  {
    if items != [] {
      var n := |items| - 1;
      RecentTwice(items[..n], time, width, t, now);
      if Young(time(items[n]), width, t) {
        RecentAppend(Recent(items[..n], time, width, t), items[n], time, width, now);
      } else {
        assert Recent(items, time, width, t) == Recent(items[..n], time, width, t);
      }
    }
  }

  lemma {:induction false} RecentMember<T>(items: seq<T>, time: T -> nat, width: nat, now: nat, item: T)
    ensures item in Recent(items, time, width, now) <==> item in items && 0 < width && now < time(item) + width
  {
    if items != [] {
      var n := |items| - 1;
      RecentMember(items[..n], time, width, now, item);
      assert items == items[..n] + [items[n]];
    }
  }
}
