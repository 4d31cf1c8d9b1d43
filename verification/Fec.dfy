/**
 Forward error correction: the host's FecBuilder (crates/rift-core/src/lib.rs) and the
 client's FecCache (crates/wavry-client/src/media.rs). One XOR parity packet per group
 brings back any single lost packet of the group, whatever the lengths.
 */
module Fec {
  import opened Common

  const MAX_FEC_CACHE: nat := 256

  type Shard = seq<bv8>

  datatype FecPacket = FecPacket(
    groupId: nat,
    firstPacketId: nat,
    shardCount: nat,
    parityIndex: nat,
    payload: Shard,
    shardLengths: seq<nat>)

  // ---------------------------------------------------------------------------
  // XOR of shards of different lengths
  // ---------------------------------------------------------------------------

  /** Byte i of a shard, zero past its end. */
  function At(s: Shard, i: nat): bv8 { if i < |s| then s[i] else 0 }

  function XorAt(shards: seq<Shard>, i: nat): bv8 {
    if shards == [] then 0 else XorAt(shards[..|shards| - 1], i) ^ At(shards[|shards| - 1], i)
  }

  function MaxLen(shards: seq<Shard>): nat {
    if shards == [] then 0 else Max(MaxLen(shards[..|shards| - 1]), |shards[|shards| - 1]|)
  }

  function Parity(shards: seq<Shard>, len: nat): Shard {
    seq(len, i requires 0 <= i => XorAt(shards, i))
  }

  /** `t` with `p` XORed over its front. */
  function XorWith(t: Shard, p: Shard): Shard {
    seq(|t|, i requires 0 <= i < |t| => t[i] ^ At(p, i))
  }

  lemma {:induction false} MaxLenCovers(shards: seq<Shard>, k: nat)
    requires k < |shards|
    ensures |shards[k]| <= MaxLen(shards)
  {
    if k < |shards| - 1 {
      MaxLenCovers(shards[..|shards| - 1], k);
    }
  }

  method XorInPlace(target: array<bv8>, payload: Shard, maxLen: nat)
    requires target.Length == maxLen
    modifies target
    ensures target[..] == XorWith(old(target[..]), payload)
  {
    var len := Min(|payload|, maxLen);
    for i := 0 to len
      invariant forall k | 0 <= k < target.Length ::
                  target[k] == if k < i then old(target[k]) ^ payload[k] else old(target[k])
    {
      target[i] := target[i] ^ payload[i];
    }
  }

  method XorParity(payloads: seq<Shard>, maxLen: nat) returns (parity: Shard)
    ensures parity == Parity(payloads, maxLen)
  {
    var buf := new bv8[maxLen](_ => 0);
    assert payloads[..0] == [];
    for k := 0 to |payloads|
      invariant buf[..] == Parity(payloads[..k], maxLen)
    {
      assert payloads[..k + 1][..k] == payloads[..k];
      XorInPlace(buf, payloads[k], maxLen);
    }
    assert payloads[..|payloads|] == payloads;
    parity := buf[..];
  }

  // ---------------------------------------------------------------------------
  // Building groups
  // ---------------------------------------------------------------------------

  function Lengths(shards: seq<Shard>): seq<nat> {
    seq(|shards|, k requires 0 <= k < |shards| => |shards[k]| % U32)
  }

  lemma EmptyGroup()
    ensures Lengths([]) == [] && MaxLen([]) == 0
  {
  }

  lemma GroupExtends(shards: seq<Shard>, s: Shard)
    ensures Lengths(shards + [s]) == Lengths(shards) + [|s| % U32]
    ensures MaxLen(shards + [s]) == Max(MaxLen(shards), |s|)
  {
  }

  /** `fec` is the parity of `shards`, the first of which was sent under `first`. */
  ghost predicate IsParityOf(fec: FecPacket, first: nat, shards: seq<Shard>) {
    && fec.firstPacketId == first
    && fec.shardCount == |shards| + 1
    && fec.parityIndex == |shards|
    && fec.payload == Parity(shards, MaxLen(shards))
    && fec.shardLengths == Lengths(shards)
  }

  datatype FecError = InvalidShardCount

  class FecBuilder {
    const shardCount: nat
    var groupId: nat
    var firstPacketId: Option<nat>
    var payloads: seq<Shard>
    var shardLengths: seq<nat>
    var maxPayloadLen: nat

    ghost predicate Valid()
      reads this
    {
      && 2 <= shardCount
      && |payloads| < shardCount - 1
      && shardLengths == Lengths(payloads)
      && maxPayloadLen == MaxLen(payloads)
      && (firstPacketId.None? <==> payloads == [])
      && groupId < U64
    }

    constructor (shardCount: nat)
      requires 2 <= shardCount < U32
      ensures Valid() && this.shardCount == shardCount && payloads == [] && groupId == 0
    {
      this.shardCount := shardCount;
      groupId, firstPacketId, payloads, shardLengths, maxPayloadLen := 0, None, [], [], 0;
    }

    static method Create(shardCount: nat) returns (r: Result<FecBuilder, FecError>)
      requires shardCount < U32
      ensures r.Err? <==> shardCount < 2
      ensures r.Ok? ==> fresh(r.value) && r.value.Valid() && r.value.shardCount == shardCount && r.value.payloads == []
    {
      if shardCount < 2 {
        return Err(InvalidShardCount);
      }
      var b := new FecBuilder(shardCount);
      return Ok(b);
    }

    /** A parity packet leaves exactly when the group is full, and the next group starts empty. */
    method Push(packetId: nat, payload: Shard) returns (r: Option<FecPacket>)
      requires Valid()
      modifies this`groupId, this`firstPacketId, this`payloads, this`shardLengths, this`maxPayloadLen
      ensures Valid()
      ensures r.Some? <==> |old(payloads)| + 2 == shardCount
      ensures r.None? ==> && payloads == old(payloads) + [payload] && groupId == old(groupId)
                          && firstPacketId == (if old(payloads) == [] then Some(packetId) else old(firstPacketId))
      ensures r.Some? ==> && payloads == [] && groupId == (old(groupId) + 1) % U64
                          && r.value.groupId == old(groupId)
                          && IsParityOf(r.value, if old(payloads) == [] then packetId else old(firstPacketId).value,
                                        old(payloads) + [payload])
    {
      hide Parity;
      hide Lengths;
      hide MaxLen;
      EmptyGroup();
      if payloads == [] {
        firstPacketId := Some(packetId);
      }
      GroupExtends(payloads, payload);
      maxPayloadLen := Max(maxPayloadLen, |payload|);
      shardLengths := shardLengths + [|payload| % U32];
      payloads := payloads + [payload];
      if |payloads| != shardCount - 1 {
        return None;
      }
      var parity := XorParity(payloads, maxPayloadLen);
      var packet := FecPacket(groupId, firstPacketId.value, shardCount, shardCount - 1, parity, shardLengths);
      groupId := (groupId + 1) % U64;
      payloads, shardLengths, maxPayloadLen, firstPacketId := [], [], 0, None;
      return Some(packet);
    }
  }

  // ---------------------------------------------------------------------------
  // Recovering
  // ---------------------------------------------------------------------------

  /** `a - b` on `u32` with overflow checks off. */
  function WrappingSub(a: nat, b: nat): nat
    requires b <= U32
  {
    if a >= b then a - b else a + U32 - b
  }

  /** The id of the j-th packet of the group that starts at `first`. */
  function MemberId(first: nat, j: nat): nat { (first + j) % U64 }

  /** The cache holds the j-th packet of the group that starts at `first`. */
  predicate Held(packets: map<nat, Shard>, first: nat, j: nat) { MemberId(first, j) in packets }

  /** How many of the first `n` packets of a group the cache lacks. */
  function MissingCount(packets: map<nat, Shard>, first: nat, n: nat): nat {
    if n == 0 then 0 else MissingCount(packets, first, n - 1) + if Held(packets, first, n - 1) then 0 else 1
  }

  function XorHeld(packets: map<nat, Shard>, first: nat, n: nat, i: nat): bv8 {
    if n == 0 then 0
    else XorHeld(packets, first, n - 1, i) ^ if Held(packets, first, n - 1) then At(packets[MemberId(first, n - 1)], i) else 0
  }

  /** The cache agrees with a group on everything but packet `k`, which it lacks. */
  ghost predicate HoldsAllBut(packets: map<nat, Shard>, first: nat, shards: seq<Shard>, k: nat) {
    forall j: nat | j < |shards| ::
      && (Held(packets, first, j) <==> j != k)
      && (j != k ==> packets[MemberId(first, j)] == shards[j])
  }

  /** `r` is the residue cut to the length of the missing packet, when there is exactly one. */
  ghost predicate IsResidue(fec: FecPacket, packets: map<nat, Shard>, r: Option<Shard>) {
    var n := WrappingSub(fec.shardCount, 1);
    && (r.Some? <==> MissingCount(packets, fec.firstPacketId, n) == 1)
    && forall k: nat | r.Some? && k < n && !Held(packets, fec.firstPacketId, k) ::
         r.value == var whole := Residue(fec, packets, n);
                    if k < |fec.shardLengths| then Truncate(whole, fec.shardLengths[k]) else whole
  }

  /** `fec` is the parity of a group of which the cache holds every packet but `k`. */
  ghost predicate Recoverable(fec: FecPacket, packets: map<nat, Shard>, shards: seq<Shard>, k: nat) {
    && k < |shards| && |shards[k]| < U32
    && IsParityOf(fec, fec.firstPacketId, shards)
    && HoldsAllBut(packets, fec.firstPacketId, shards, k)
  }

  function Truncate(s: Shard, len: nat): Shard { if len < |s| then s[..len] else s }

  /** The parity with every held packet of the group XORed into it. */
  function Residue(fec: FecPacket, packets: map<nat, Shard>, n: nat): Shard {
    seq(|fec.payload|, i requires 0 <= i < |fec.payload| => fec.payload[i] ^ XorHeld(packets, fec.firstPacketId, n, i))
  }

  lemma ResidueStart(fec: FecPacket, packets: map<nat, Shard>)
    ensures Residue(fec, packets, 0) == fec.payload
  {
  }

  lemma ResidueHeld(fec: FecPacket, packets: map<nat, Shard>, n: nat)
    requires Held(packets, fec.firstPacketId, n)
    ensures Residue(fec, packets, n + 1) == XorWith(Residue(fec, packets, n), packets[MemberId(fec.firstPacketId, n)])
  {
  }

  lemma ResidueMissing(fec: FecPacket, packets: map<nat, Shard>, n: nat)
    requires !Held(packets, fec.firstPacketId, n)
    ensures Residue(fec, packets, n + 1) == Residue(fec, packets, n)
  {
  }

  /** Counting what a group lacks, when exactly one packet of it is missing. */
  lemma {:induction false} OneMissing(packets: map<nat, Shard>, first: nat, n: nat, k: nat)
    requires forall j: nat | j < n :: Held(packets, first, j) <==> j != k
    ensures MissingCount(packets, first, n) == if k < n then 1 else 0
  {
    if n != 0 {
      OneMissing(packets, first, n - 1, k);
    }
  }

  /** XOR of a whole group and of its held part leaves the missing packet. */
  lemma {:induction false} XorLeavesMissing(shards: seq<Shard>, packets: map<nat, Shard>, first: nat, k: nat, n: nat, i: nat)
    requires n <= |shards| && k < |shards|
    requires HoldsAllBut(packets, first, shards, k)
    ensures XorAt(shards[..n], i) ^ XorHeld(packets, first, n, i) == if k < n then At(shards[k], i) else 0
  {
    if n != 0 {
      XorLeavesMissing(shards, packets, first, k, n - 1, i);
      assert shards[..n][..n - 1] == shards[..n - 1];
      var a, b := XorAt(shards[..n - 1], i), XorHeld(packets, first, n - 1, i);
      if n - 1 != k {
        var c := At(shards[n - 1], i);
        XorCancels(a, b, c);
      } else {
        XorMoves(a, b, At(shards[k], i));
      }
    }
  }

  lemma XorCancels(a: bv8, b: bv8, c: bv8)
    ensures (a ^ c) ^ (b ^ c) == a ^ b
  {
  }

  lemma XorMoves(a: bv8, b: bv8, c: bv8)
    requires a ^ b == 0
    ensures (a ^ c) ^ (b ^ 0) == c
  {
  }

  datatype Cached = Cached(id: nat, data: Shard)

  class FecCache {
    var packets: map<nat, Shard>
    /** Every packet ever offered to the cache. */
    ghost var log: seq<Cached>

    ghost predicate Valid()
      reads this
    {
      && |packets| <= MAX_FEC_CACHE
      && FromLog(packets, log)
      && (IncreasingIds(log) ==> HoldsLatest(packets, log))
    }

    constructor ()
      ensures Valid() && packets == map[] && log == []
    {
      packets, log := map[], [];
    }

    /** A full cache drops its smallest id first; fed increasing ids it holds exactly the latest 256. */
    method Insert(packetId: nat, data: Shard)
      requires Valid()
      modifies this`packets, this`log
      ensures Valid() && log == old(log) + [Cached(packetId, data)]
      ensures |old(packets)| < MAX_FEC_CACHE ==> packets == old(packets)[packetId := data]
      ensures |old(packets)| >= MAX_FEC_CACHE ==>
                exists m: nat :: IsMinKey(old(packets), m) && packets == (old(packets) - {m})[packetId := data]
    {
      hide HoldsLatest;
      hide FromLog;
      ghost var e := Cached(packetId, data);
      if IncreasingIds(log + [e]) {
        IncreasingPrefix(log, e);
      }
      hide IncreasingIds;
      if |packets| >= MAX_FEC_CACHE {
        MinKeyExists(packets);
        var minId :| minId in packets && IsMinKey(packets, minId);
        hide IsMinKey;
        FromLogAfter(packets, log, {minId}, e);
        if IncreasingIds(log + [e]) {
          EvictKeepsLatest(packets, log, minId, e);
        }
        packets := packets - {minId};
      } else {
        FromLogAfter(packets, log, {}, e);
        assert packets - {} == packets;
        if IncreasingIds(log + [e]) {
          AddKeepsLatest(packets, log, e);
        }
      }
      packets := packets[packetId := data];
      log := log + [e];
    }

    /**
     Recovers when exactly one packet of the group is missing, and only then, whatever shard
     count the parity packet announces. Given the parity of a group of which the cache holds
     all but one packet, the result is that packet.
     */
    method TryRecover(fec: FecPacket) returns (r: Option<Shard>)
      ensures IsResidue(fec, packets, r)
      ensures forall shards: seq<Shard>, k: nat | Recoverable(fec, packets, shards, k) :: r == Some(shards[k])
    {
      r := XorPresent(fec);
      forall shards: seq<Shard>, k: nat | Recoverable(fec, packets, shards, k)
        ensures r == Some(shards[k])
      {
        RecoversTheLostShard(fec, fec.firstPacketId, shards, packets, k);
      }
    }

    /** The recovery loop. */
    method XorPresent(fec: FecPacket) returns (r: Option<Shard>)
      ensures IsResidue(fec, packets, r)
    {
      hide MemberId;
      hide XorHeld;
      ResidueStart(fec, packets);
      var missingIndex: Option<nat> := None;
      var recovered := new bv8[|fec.payload|](i requires 0 <= i < |fec.payload| => fec.payload[i]);
      hide Residue;
      var presentCount := 0;
      for offset := 0 to WrappingSub(fec.shardCount, 1)
        invariant recovered[..] == Residue(fec, packets, offset)
        invariant missingIndex.None? ==> presentCount == offset
        invariant missingIndex.Some? ==> presentCount == offset - 1 && missingIndex.value < offset
        invariant forall j: nat | j < offset :: !Held(packets, fec.firstPacketId, j) <==> missingIndex == Some(j)
        invariant MissingCount(packets, fec.firstPacketId, offset) == if missingIndex.None? then 0 else 1
      {
        var pid := MemberId(fec.firstPacketId, offset);
        assert pid in packets <==> Held(packets, fec.firstPacketId, offset);
        if pid in packets {
          ResidueHeld(fec, packets, offset);
          XorInPlace(recovered, packets[pid], recovered.Length);
          presentCount := presentCount + 1;
        } else {
          if missingIndex.Some? {
            MissingOnlyGrows(packets, fec.firstPacketId, offset + 1, WrappingSub(fec.shardCount, 1));
            return None;
          }
          ResidueMissing(fec, packets, offset);
          missingIndex := Some(offset);
        }
      }
      if presentCount != WrappingSub(fec.shardCount, 2) {
        return None;
      }
      var payload := recovered[..];
      if missingIndex.Some? && missingIndex.value < |fec.shardLengths| {
        payload := Truncate(payload, fec.shardLengths[missingIndex.value]);
      }
      return Some(payload);
    }
  }

  lemma {:induction false} MissingOnlyGrows(packets: map<nat, Shard>, first: nat, m: nat, n: nat)
    requires m <= n
    ensures MissingCount(packets, first, m) <= MissingCount(packets, first, n)
  {
    if m < n {
      MissingOnlyGrows(packets, first, m, n - 1);
    }
  }

  /**
   The main law. If the cache holds every packet of a group but one, the residue of the
   group's parity cut to the recorded length is that packet, byte for byte.
   */
  lemma RecoversTheLostShard(fec: FecPacket, first: nat, shards: seq<Shard>, packets: map<nat, Shard>, k: nat)
    requires IsParityOf(fec, first, shards) && k < |shards|
    requires HoldsAllBut(packets, first, shards, k) && |shards[k]| < U32
    ensures MissingCount(packets, fec.firstPacketId, fec.shardCount - 1) == 1
    ensures Truncate(Residue(fec, packets, fec.shardCount - 1), fec.shardLengths[k]) == shards[k]
  {
    var n := |shards|;
    OneMissing(packets, first, n, k);
    MaxLenCovers(shards, k);
    var whole := Residue(fec, packets, n);
    assert shards[..n] == shards;
    forall i | 0 <= i < |whole|
      ensures whole[i] == At(shards[k], i)
    {
      XorLeavesMissing(shards, packets, first, k, n, i);
    }
  }

  // ---------------------------------------------------------------------------
  // What the cache holds
  // ---------------------------------------------------------------------------

  /** Everything held was offered. */
  ghost predicate FromLog(packets: map<nat, Shard>, log: seq<Cached>) {
    forall id <- packets :: Cached(id, packets[id]) in log
  }

  lemma FromLogAfter(packets: map<nat, Shard>, log: seq<Cached>, gone: set<nat>, e: Cached)
    requires FromLog(packets, log)
    ensures FromLog((packets - gone)[e.id := e.data], log + [e])
  {
  }

  ghost predicate IncreasingIds(log: seq<Cached>) {
    forall i, j | 0 <= i < j < |log| :: log[i].id < log[j].id
  }

  lemma IncreasingPrefix(log: seq<Cached>, e: Cached)
    requires IncreasingIds(log + [e])
    ensures IncreasingIds(log)
  {
    assert log == (log + [e])[..|log|];
  }

  ghost function Oldest(log: seq<Cached>): nat { SatSub(|log|, MAX_FEC_CACHE) }

  /** The packets of the log from position `from` on. */
  ghost function Since(log: seq<Cached>, from: nat): map<nat, Shard> {
    if |log| <= from then map[]
    else
      var last := log[|log| - 1];
      Since(log[..|log| - 1], from)[last.id := last.data]
  }

  /** The cache is exactly the latest 256 packets of the log. */
  ghost predicate HoldsLatest(packets: map<nat, Shard>, log: seq<Cached>) {
    packets == Since(log, Oldest(log))
  }

  predicate IsMinKey(packets: map<nat, Shard>, id: nat) {
    id in packets && forall k <- packets :: id <= k
  }

  lemma {:induction false} MinKeyExists(packets: map<nat, Shard>)
    requires |packets| > 0
    ensures exists m :: IsMinKey(packets, m)
    decreases |packets|
  {
    var x :| x in packets;
    var rest := packets - {x};
    if |rest| == 0 {
      assert forall k <- packets :: k == x || k in rest;
      assert IsMinKey(packets, x);
    } else {
      assert |rest| == |packets| - 1;
      MinKeyExists(rest);
      var m :| IsMinKey(rest, m);
      assert forall k <- packets :: k == x || k in rest;
      assert IsMinKey(packets, if x < m then x else m);
    }
  }

  lemma {:induction false} SinceKeys(log: seq<Cached>, from: nat, id: nat)
    ensures id in Since(log, from) <==> exists i :: from <= i < |log| && log[i].id == id
  {
    if from < |log| {
      var n := |log| - 1;
      SinceKeys(log[..n], from, id);
      assert forall i | from <= i < n :: log[..n][i] == log[i];
    }
  }

  lemma {:induction false} SinceSize(log: seq<Cached>, from: nat)
    requires IncreasingIds(log) && from <= |log|
    ensures |Since(log, from)| == |log| - from
  {
    if from < |log| {
      var n := |log| - 1;
      SinceSize(log[..n], from);
      SinceKeys(log[..n], from, log[n].id);
    }
  }

  /** Dropping the first packet of the range is dropping its id. */
  lemma {:induction false} SinceNext(log: seq<Cached>, from: nat)
    requires IncreasingIds(log) && from < |log|
    ensures Since(log, from + 1) == Since(log, from) - {log[from].id}
  {
    var n := |log| - 1;
    if from < n {
      SinceNext(log[..n], from);
      assert log[from].id != log[n].id;
    } else {
      assert Since(log[..n], from) == map[];
    }
  }

  lemma SinceExtend(log: seq<Cached>, e: Cached, from: nat)
    requires from <= |log|
    ensures Since(log + [e], from) == Since(log, from)[e.id := e.data]
  {
  }

  lemma AddKeepsLatest(packets: map<nat, Shard>, log: seq<Cached>, e: Cached)
    requires IncreasingIds(log) && HoldsLatest(packets, log) && |packets| < MAX_FEC_CACHE
    ensures HoldsLatest(packets[e.id := e.data], log + [e])
  {
    hide Since;
    SinceSize(log, Oldest(log));
    SinceExtend(log, e, Oldest(log));
    assert Oldest(log + [e]) == Oldest(log);
  }

  lemma EvictKeepsLatest(packets: map<nat, Shard>, log: seq<Cached>, minId: nat, e: Cached)
    requires IncreasingIds(log) && HoldsLatest(packets, log)
    requires |packets| >= MAX_FEC_CACHE && IsMinKey(packets, minId)
    ensures HoldsLatest((packets - {minId})[e.id := e.data], log + [e])
  {
    hide Since;
    var o := Oldest(log);
    SinceSize(log, o);
    assert |log| == o + MAX_FEC_CACHE;
    SinceKeys(log, o, log[o].id);
    SinceKeys(log, o, minId);
    assert minId == log[o].id;
    SinceNext(log, o);
    SinceExtend(log, e, o + 1);
  }
}
