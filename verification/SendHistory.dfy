/**
 The host's memory of what it sent (SendHistory, packet id allocation and the Nack handler,
 crates/wavry-ffi/src/session.rs).
 */
module SendHistories {
  import opened Common

  const NACK_HISTORY: nat := 512

  datatype Packet = Packet(id: nat, bytes: Bytes)

  function LastN<T>(s: seq<T>, n: nat): seq<T> {
    if |s| <= n then s else s[|s| - n..]
  }

  ghost predicate Distinct(s: seq<nat>) {
    forall i, j | 0 <= i < j < |s| :: s[i] != s[j]
  }

  ghost function Elems(s: seq<nat>): set<nat> { set x <- s }

  /** The packets of `base` whose ids are still in the order. */
  ghost function Held(order: seq<nat>, base: map<nat, Bytes>): map<nat, Bytes> {
    map x | x in base && x in order :: base[x]
  }

  /** Ids that leave the front of a duplicate-free order leave the map. */
  lemma DropFront(order: seq<nat>, base: map<nat, Bytes>, d: nat)
    requires Distinct(order) && base.Keys == Elems(order) && d <= |order|
    ensures Distinct(order[d..])
    ensures base - Elems(order[..d]) == Held(order[d..], base)
    ensures Held(order[d..], base).Keys == Elems(order[d..])
  {
  }

  class SendHistory {
    const capacity: nat
    var order: seq<nat>
    var packets: map<nat, Bytes>

    ghost predicate Valid()
      reads this
    {
      && |order| <= capacity
      && Distinct(order)
      && packets.Keys == Elems(order)
    }

    constructor (capacity: nat)
      ensures Valid() && this.capacity == capacity && order == [] && packets == map[]
    {
      this.capacity := capacity;
      order, packets := [], map[];
    }

    /** A known id is overwritten in place; a new one goes last and pushes the oldest ids out. */
    method Insert(id: nat, payload: Bytes)
      requires Valid()
      modifies this`order, this`packets
      ensures Valid()
      ensures order == LastN(if id in old(packets) then old(order) else old(order) + [id], capacity)
      ensures packets == Held(order, old(packets)[id := payload])
    {
      if id !in packets {
        order := order + [id];
      }
      packets := packets[id := payload];
      ghost var all, base := order, packets;
      ghost var d := 0;
      assert base.Keys == Elems(all);
      while |order| > capacity
        invariant d <= |all| && order == all[d..] && (d == 0 || |order| >= capacity)
        invariant packets == base - Elems(all[..d])
        decreases |order|
      {
        var oldest := order[0];
        order := order[1..];
        packets := packets - {oldest};
        d := d + 1;
        assert Elems(all[..d]) == Elems(all[..d - 1]) + {oldest};
      }
      hide Elems;
      hide Held;
      DropFront(all, base, d);
      assert order == LastN(all, capacity) by {
        assert d == 0 || d == |all| - capacity;
      }
    }

    method Get(id: nat) returns (r: Option<Bytes>)
      ensures r == if id in packets then Some(packets[id]) else None
    {
      if id in packets {
        return Some(packets[id]);
      }
      return None;
    }
  }

  // ---------------------------------------------------------------------------
  // The host: consecutive ids, one history
  // ---------------------------------------------------------------------------

  ghost predicate IncreasingBelow(sent: seq<Packet>, next: nat) {
    && (forall i, j | 0 <= i < j < |sent| :: sent[i].id < sent[j].id)
    && (forall i | 0 <= i < |sent| :: sent[i].id < next)
  }

  ghost function PacketIds(sent: seq<Packet>): seq<nat> {
    seq(|sent|, i requires 0 <= i < |sent| => sent[i].id)
  }

  /** Increasing ids below `next` leave room for at most `next - id` packets from `id` on. */
  lemma {:induction false} FewSince(sent: seq<Packet>, next: nat, i: nat)
    requires IncreasingBelow(sent, next) && i < |sent|
    ensures |sent| - i <= next - sent[i].id
    decreases |sent| - i
  {
    if i + 1 < |sent| {
      FewSince(sent, next, i + 1);
    }
  }

  /** The history holds the latest packets of the log, with their bytes. */
  ghost predicate Remembers(order: seq<nat>, packets: map<nat, Bytes>, sent: seq<Packet>) {
    && order == LastN(PacketIds(sent), NACK_HISTORY)
    && packets.Keys == Elems(order)
    && (forall k | 0 <= k < |sent| && sent[k].id in packets :: packets[sent[k].id] == sent[k].bytes)
  }

  lemma HeldWereSent(order: seq<nat>, sent: seq<Packet>, id: nat)
    requires order == LastN(PacketIds(sent), NACK_HISTORY)
    requires forall i | 0 <= i < |sent| :: sent[i].id != id
    ensures id !in order
  {
  }

  lemma RecordSent(order: seq<nat>, packets: map<nat, Bytes>, sent: seq<Packet>, p: Packet)
    requires Remembers(order, packets, sent)
    requires forall i | 0 <= i < |sent| :: sent[i].id < p.id
    ensures var order' := LastN(order + [p.id], NACK_HISTORY);
            p.id !in packets
            && Remembers(order', Held(order', packets[p.id := p.bytes]), sent + [p])
  {
    HeldWereSent(order, sent, p.id);
    assert PacketIds(sent + [p]) == PacketIds(sent) + [p.id];
    assert LastN(order + [p.id], NACK_HISTORY) == LastN(PacketIds(sent + [p]), NACK_HISTORY);
  }

  class Host {
    var nextPacketId: nat
    const history: SendHistory
    /** Every packet ever handed to the socket. */
    ghost var sent: seq<Packet>

    ghost predicate Valid()
      reads this, history
    {
      && history.Valid()
      && history.capacity == NACK_HISTORY
      && 1 <= nextPacketId
      && IncreasingBelow(sent, nextPacketId)
      && Remembers(history.order, history.packets, sent)
    }

    constructor ()
      ensures Valid() && nextPacketId == 1 && sent == [] && fresh(history)
    {
      nextPacketId := 1;
      history := new SendHistory(NACK_HISTORY);
      sent := [];
    }

    /** `wire` is the encoded packet, or None when encryption fails after the id was taken. */
    method Send(wire: Option<Bytes>) returns (ok: bool)
      requires Valid() && nextPacketId + 1 < U64
      modifies this`nextPacketId, this`sent, history
      ensures Valid()
      ensures nextPacketId == old(nextPacketId) + 1
      ensures ok == wire.Some?
      ensures sent == old(sent) + if ok then [Packet(old(nextPacketId), wire.value)] else []
    {
      var id := nextPacketId;
      nextPacketId := (nextPacketId + 1) % U64;
      if wire.None? {
        return false;
      }
      RecordSent(history.order, history.packets, sent, Packet(id, wire.value));
      history.Insert(id, wire.value);
      sent := sent + [Packet(id, wire.value)];
      return true;
    }

    /** What the history still holds is exactly what was sent, for every id at most 512 back. */
    lemma HistoryExact(i: nat)
      requires Valid() && i < |sent|
      ensures nextPacketId - sent[i].id <= NACK_HISTORY ==> sent[i].id in history.packets
      ensures sent[i].id in history.packets ==> history.packets[sent[i].id] == sent[i].bytes
      ensures |sent| - i > NACK_HISTORY ==> sent[i].id !in history.packets
    {
      FewSince(sent, nextPacketId, i);
      var ids := PacketIds(sent);
      if |sent| - i <= NACK_HISTORY {
        var k := if |sent| <= NACK_HISTORY then i else i - (|sent| - NACK_HISTORY);
        assert history.order[k] == ids[i];
      } else {
        assert history.order == ids[|sent| - NACK_HISTORY..];
        assert forall k | |sent| - NACK_HISTORY <= k < |sent| :: ids[k] > ids[i];
      }
    }

    ghost predicate WasSent(id: nat)
      reads this
    {
      exists i | 0 <= i < |sent| :: sent[i].id == id
    }

    /** What is held was sent; for the ids at most 512 back, what was sent is held. */
    lemma HeldExactly(id: nat)
      requires Valid()
      ensures id in history.packets ==> WasSent(id) && Packet(id, history.packets[id]) in sent
      ensures nextPacketId <= id + NACK_HISTORY && WasSent(id) ==> id in history.packets
    {
      if WasSent(id) {
        var i :| 0 <= i < |sent| && sent[i].id == id;
        HistoryExact(i);
        assert id in history.packets ==> sent[i] == Packet(id, history.packets[id]);
      } else {
        HeldWereSent(history.order, sent, id);
      }
    }

    /** The Nack handler: resend what is still held, in the order asked. */
    method OnNack(ids: seq<nat>) returns (resent: seq<Packet>)
      requires Valid()
      ensures resent == Resendable(history.packets, ids)
    {
      resent := [];
      for i := 0 to |ids|
        invariant resent == Resendable(history.packets, ids[..i])
      {
        assert ids[..i + 1][..i] == ids[..i];
        var payload := history.Get(ids[i]);
        if payload.Some? {
          resent := resent + [Packet(ids[i], payload.value)];
        }
      }
      assert ids[..|ids|] == ids;
    }
  }

  function Resendable(held: map<nat, Bytes>, ids: seq<nat>): seq<Packet> {
    if ids == [] then []
    else
      var n := |ids| - 1;
      Resendable(held, ids[..n]) + if ids[n] in held then [Packet(ids[n], held[ids[n]])] else []
  }

  /** The answer holds exactly the held packets asked for. */
  lemma {:induction false} ResendsHeld(held: map<nat, Bytes>, ids: seq<nat>, p: Packet)
    ensures p in Resendable(held, ids) <==> p.id in ids && p.id in held && p.bytes == held[p.id]
  {
    if ids != [] {
      var n := |ids| - 1;
      ResendsHeld(held, ids[..n], p);
      assert ids == ids[..n] + [ids[n]];
    }
  }

  /** Ids asked for in increasing order are answered in increasing order. */
  lemma {:induction false} ResendsInOrder(held: map<nat, Bytes>, ids: seq<nat>, next: nat)
    requires forall i, j | 0 <= i < j < |ids| :: ids[i] < ids[j]
    requires forall i | 0 <= i < |ids| :: ids[i] < next
    ensures IncreasingBelow(Resendable(held, ids), next)
  {
    if ids != [] {
      var n := |ids| - 1;
      ResendsInOrder(held, ids[..n], ids[n]);
    }
  }
}
