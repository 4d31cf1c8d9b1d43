/**
 Loss repair end to end: the client reports gaps (NackWindow), the host resends from its
 history (SendHistory), and what comes back is decoded (PacketCodec), admitted by the replay
 window and decrypted (SecureEndpoint).
 */
module LossRepair {
  import opened Common
  import opened PacketCodec
  import opened SequenceWindows
  import opened SecureEndpoints
  import opened NackWindows
  import opened SendHistories

  /** Nothing accepted lies above the NACK window's highest id. */
  ghost predicate Within(highest: Option<nat>, w: Window, accepted: set<nat>) {
    && Tracks(w, accepted)
    && w.size == DEFAULT_WINDOW_SIZE
    && (highest.None? ==> accepted == {})
    && (highest.Some? ==> forall x <- accepted :: x <= highest.value)
  }

  /** One arrival, offered to both windows or, if it is not authentic, to the NACK window only. */
  lemma ArrivalKeepsWithin(highest: Option<nat>, w: Window, accepted: set<nat>, p: nat)
    requires Within(highest, w, accepted) && p < U64
    ensures Within(Some(HighestAfter(highest, p)), w.Admit(p), After(accepted, w, p))
    ensures Within(Some(HighestAfter(highest, p)), w, accepted)
  {
  }

  /**
   Of the ids an accepted packet reveals as missing, the replay window admits all but the one
   128 back and those whose sum with the window size wraps.
   */
  lemma ReportedAdmissible(highest: nat, w: Window, accepted: set<nat>, p: nat, m: nat)
    requires Within(Some(highest), w, accepted) && p < U64 && w.Accepts(p)
    requires m in Skipped(NACK_WINDOW_SIZE, highest, p)
    ensures w.Admit(p).Accepts(m) <==> m + 128 != p && m + 128 < U64
  {
    IdsFromMembers(Max(highest + 1, Cutoff(NACK_WINDOW_SIZE, p)), p);
  }

  /** After packet 1, packet 130 reports id 2, which the replay window has by then passed. */
  lemma ReportedTooOld()
    ensures var w := NewWindow().Admit(1);
            && Within(Some(1), w, {1})
            && 2 in Skipped(NACK_WINDOW_SIZE, 1, 130)
            && !w.Admit(130).Accepts(2)
  {
    IdsFromMembers(2, 130);
  }

  // ---------------------------------------------------------------------------
  // What a stream of datagrams delivers
  // ---------------------------------------------------------------------------

  /** What the two ends share: the keys, the checksum and the alias of the session. */
  datatype Session = Session(cipher: Cipher, crc: Crc, alias: nat)

  /** The id and message of a datagram that decodes and opens. */
  ghost function Opened(s: Session, bytes: Bytes): Option<Delivery> {
    match PacketCodec.Decode(bytes, s.crc)
    case Err(_) => None
    case Ok(q) =>
      match s.cipher.open(q.packetId, q.payload)
      case None => None
      case Some(m) => Some(Delivery(q.packetId, m))
  }

  /** The first id too far ahead of `id`: 128 above it, in wrapping arithmetic. */
  function Reach(id: nat): nat { (id + DEFAULT_WINDOW_SIZE) % U64 }

  /** Nothing delivered is too far ahead of `id`. */
  ghost predicate InReach(accepted: set<nat>, id: nat) { forall h <- accepted :: h < Reach(id) }

  ghost predicate Admissible(accepted: set<nat>, id: nat) { id !in accepted && InReach(accepted, id) }

  /** The replay window admits exactly what the set of everything delivered allows. */
  lemma AdmitsExactly(w: Window, accepted: set<nat>, id: nat)
    requires Tracks(w, accepted) && w.size == DEFAULT_WINDOW_SIZE && id < U64
    ensures w.Accepts(id) <==> Admissible(accepted, id)
  {
    AcceptsExactly(w, accepted, id);
  }

  /** One datagram: its message is delivered exactly when it is admissible. */
  ghost function Deliver(log: seq<Delivery>, d: Option<Delivery>): seq<Delivery> {
    if d.Some? && Admissible(Ids(log), d.value.packetId) then log + [d.value] else log
  }

  /** A stream of datagrams, whoever sent them. */
  ghost function DeliveredBy(log: seq<Delivery>, s: Session, stream: seq<Bytes>): seq<Delivery> {
    if stream == [] then log
    else
      var n := |stream| - 1;
      Deliver(DeliveredBy(log, s, stream[..n]), Opened(s, stream[n]))
  }

  lemma {:induction false} DeliveredAfter(log: seq<Delivery>, s: Session, b: Bytes, stream: seq<Bytes>)
    ensures DeliveredBy(log, s, [b] + stream) == DeliveredBy(Deliver(log, Opened(s, b)), s, stream)
  {
    hide Deliver;
    hide Opened;
    var all := [b] + stream;
    if stream == [] {
      assert all[..0] == [] && all == [b];
    } else {
      var n := |stream| - 1;
      DeliveredAfter(log, s, b, stream[..n]);
      assert all[..n + 1] == [b] + stream[..n];
    }
  }

  lemma DeliverIds(log: seq<Delivery>, d: Option<Delivery>)
    requires DistinctIds(log)
    ensures log <= Deliver(log, d) && DistinctIds(Deliver(log, d))
    ensures Ids(Deliver(log, d))
         == Ids(log) + if d.Some? && Admissible(Ids(log), d.value.packetId) then {d.value.packetId} else {}
  {
    hide Admissible;
    if d.Some? && Admissible(Ids(log), d.value.packetId) {
      assert d.value.packetId !in Ids(log) by {
        AdmissibleIsNew(Ids(log), d.value.packetId);
      }
      DeliverNew(log, d.value);
    } else {
      assert Ids(log) + {} == Ids(log);
    }
  }

  lemma AdmissibleIsNew(accepted: set<nat>, id: nat)
    requires Admissible(accepted, id)
    ensures id !in accepted
  {
  }

  /** The datagram opens under this id. */
  ghost predicate Brings(s: Session, bytes: Bytes, id: nat) {
    Opened(s, bytes).Some? && Opened(s, bytes).value.packetId == id
  }

  /** Some datagram of the stream opens under this id while everything delivered before it is in reach. */
  ghost predicate ComesInTime(log: seq<Delivery>, s: Session, stream: seq<Bytes>, id: nat) {
    exists k: nat :: InTimeAt(log, s, stream, id, k)
  }

  ghost predicate InTimeAt(log: seq<Delivery>, s: Session, stream: seq<Bytes>, id: nat, k: nat) {
    k < |stream| && Brings(s, stream[k], id) && InReach(Ids(DeliveredBy(log, s, stream[..k])), id)
  }

  /** A new id is delivered by a stream exactly when one of its datagrams comes in time. */
  lemma {:induction false} DeliveredInTime(log: seq<Delivery>, s: Session, stream: seq<Bytes>, id: nat)
    requires DistinctIds(log) && id !in Ids(log)
    ensures log <= DeliveredBy(log, s, stream) && DistinctIds(DeliveredBy(log, s, stream))
    ensures id in Ids(DeliveredBy(log, s, stream)) <==> ComesInTime(log, s, stream, id)
  {
    hide Opened;
    hide Ids;
    hide DistinctIds;
    hide Deliver;
    hide InReach;
    if stream != [] {
      var n := |stream| - 1;
      var before := stream[..n];
      DeliveredInTime(log, s, before, id);
      DeliverIds(DeliveredBy(log, s, before), Opened(s, stream[n]));
      forall k: nat | k < n
        ensures InTimeAt(log, s, stream, id, k) <==> InTimeAt(log, s, before, id, k)
      {
        assert stream[..k] == before[..k];
      }
      assert InTimeAt(log, s, stream, id, n) <==>
             Brings(s, stream[n], id) && InReach(Ids(DeliveredBy(log, s, before)), id);
    }
  }

  /** Nothing in the stream opens under an id too far ahead of `id`. */
  ghost predicate NoneBeyond(s: Session, stream: seq<Bytes>, id: nat) {
    forall k | 0 <= k < |stream| && Opened(s, stream[k]).Some? :: Opened(s, stream[k]).value.packetId < Reach(id)
  }

  lemma {:induction false} StaysInReach(log: seq<Delivery>, s: Session, stream: seq<Bytes>, id: nat)
    requires DistinctIds(log) && NoneBeyond(s, stream, id)
    ensures DistinctIds(DeliveredBy(log, s, stream))
    ensures InReach(Ids(DeliveredBy(log, s, stream)), id) <==> InReach(Ids(log), id)
    ensures Ids(log) <= Ids(DeliveredBy(log, s, stream))
  {
    hide Opened;
    hide Ids;
    hide DistinctIds;
    hide Deliver;
    if stream != [] {
      var n := |stream| - 1;
      StaysInReach(log, s, stream[..n], id);
      DeliverIds(DeliveredBy(log, s, stream[..n]), Opened(s, stream[n]));
    }
  }

  ghost predicate Brought(s: Session, stream: seq<Bytes>, id: nat) {
    exists k | 0 <= k < |stream| :: Brings(s, stream[k], id)
  }

  /** When nothing runs too far ahead, coming at all is coming in time. */
  lemma InTimeMeansBrought(log: seq<Delivery>, s: Session, stream: seq<Bytes>, id: nat)
    requires DistinctIds(log) && NoneBeyond(s, stream, id)
    ensures ComesInTime(log, s, stream, id) <==> InReach(Ids(log), id) && Brought(s, stream, id)
  {
    hide Opened;
    hide Ids;
    hide DistinctIds;
    hide InReach;
    forall k: nat | k < |stream|
      ensures InTimeAt(log, s, stream, id, k) <==> Brings(s, stream[k], id) && InReach(Ids(log), id)
    {
      assert NoneBeyond(s, stream[..k], id);
      StaysInReach(log, s, stream[..k], id);
    }
    if InReach(Ids(log), id) && Brought(s, stream, id) {
      var k: nat :| k < |stream| && Brings(s, stream[k], id);
      assert InTimeAt(log, s, stream, id, k);
    }
  }

  // ---------------------------------------------------------------------------
  // The client
  // ---------------------------------------------------------------------------

  /** The client's receive path: every packet id goes to the NACK window, then to decryption. */
  class ClientReceiver {
    const nack: NackWindow
    const endpoint: SecureEndpoint

    ghost predicate Valid()
      reads this, nack, endpoint, endpoint.recvWindow
    {
      && nack.Valid() && nack.window == NACK_WINDOW_SIZE
      && endpoint.Valid() && endpoint.cipher.Some?
      && Within(nack.highest, endpoint.recvWindow.State(), endpoint.recvWindow.accepted)
    }

    constructor (cipher: Cipher)
      ensures Valid() && fresh(nack) && fresh(endpoint) && fresh(endpoint.recvWindow)
      ensures nack.arrivals == [] && nack.highest.None? && endpoint.cipher == Some(cipher) && endpoint.delivered == []
    {
      nack := new NackWindow(NACK_WINDOW_SIZE);
      endpoint := new SecureEndpoint();
      new;
      var r := endpoint.FinishHandshake(SessionReady(cipher));
    }

    /**
     A packet arrives, authentic or not. If it is accepted, the replay window would admit
     every id it reveals as missing, except exactly the one 128 back and those at the very top
     of the range: the NACK window reaches one id further than the replay window.
     */
    method OnArrival(p: nat, ciphertext: Bytes) returns (reports: seq<nat>, r: Result<Bytes, ConnectionError>)
      requires Valid() && p < U64 && nack.highest != Some(U64 - 1)
      modifies nack, endpoint, endpoint.recvWindow
      ensures Valid() && endpoint.cipher == old(endpoint.cipher)
      ensures nack.arrivals == old(nack.arrivals) + [p] && nack.reported == old(nack.reported) + reports
      ensures nack.highest == Some(HighestAfter(old(nack.highest), p))
      ensures reports == NewlyMissing(NACK_WINDOW_SIZE, old(nack.highest), p)
      ensures r.Ok? ==> forall m <- reports ::
                endpoint.recvWindow.State().Accepts(m) <==> m + 128 != p && m + 128 < U64
      ensures r.Ok? <==> && Admissible(old(Ids(endpoint.delivered)), p)
                         && endpoint.cipher.value.open(p, ciphertext).Some?
      ensures r.Ok? ==> endpoint.cipher.value.open(p, ciphertext) == Some(r.value)
      ensures endpoint.delivered == old(endpoint.delivered) + if r.Ok? then [Delivery(p, r.value)] else []
    {
      hide Tracks;
      hide Accounts;
      hide Skipped;
      hide Admissible;
      ghost var h := nack.highest;
      ghost var w, accepted := endpoint.recvWindow.State(), endpoint.recvWindow.accepted;
      ArrivalKeepsWithin(h, w, accepted, p);
      AdmitsExactly(w, accepted, p);
      reports := nack.OnPacket(p);
      r := endpoint.Decrypt(p, ciphertext);
      if r.Ok? {
        assert endpoint.recvWindow.accepted == After(accepted, w, p);
        forall m <- reports
          ensures endpoint.recvWindow.State().Accepts(m) <==> m + 128 != p && m + 128 < U64
        {
          ReportedAdmissible(h.value, w, accepted, p, m);
        }
      }
    }

    /** No message is delivered twice, and none from above the highest id seen. */
    lemma DeliveredSoFar()
      requires Valid()
      ensures DistinctIds(endpoint.delivered)
      ensures nack.highest.Some? ==> forall x <- Ids(endpoint.delivered) :: x <= nack.highest.value
    {
    }

    /** Bytes from the socket: what does not decode changes nothing. */
    method Receive(bytes: Bytes, ghost s: Session, crc: Crc) returns (reports: seq<nat>)
      requires Valid() && nack.highest != Some(U64 - 1)
      requires endpoint.cipher == Some(s.cipher) && crc == s.crc
      modifies nack, endpoint, endpoint.recvWindow
      ensures Valid() && endpoint.cipher == old(endpoint.cipher)
      ensures endpoint.delivered == Deliver(old(endpoint.delivered), Opened(s, bytes))
      ensures match PacketCodec.Decode(bytes, crc)
              case Err(_) => reports == [] && nack.highest == old(nack.highest) && nack.arrivals == old(nack.arrivals)
              case Ok(q) =>
                && reports == NewlyMissing(NACK_WINDOW_SIZE, old(nack.highest), q.packetId)
                && nack.highest == Some(HighestAfter(old(nack.highest), q.packetId))
                && nack.arrivals == old(nack.arrivals) + [q.packetId]
    {
      hide PacketCodec.Decode;
      hide Within;
      hide Admissible;
      hide Accounts;
      hide Skipped;
      var decoded := PacketCodec.Decode(bytes, crc);
      reports := [];
      if decoded.Ok? {
        EncodeDecode(bytes, crc);
        var r;
        reports, r := OnArrival(decoded.value.packetId, decoded.value.payload);
      }
    }
  }

  lemma NothingDelivered()
    ensures DistinctIds([]) && Ids([]) == {}
  {
  }

  lemma NeverReported(client: ClientReceiver, id: nat)
    requires client.Valid() && client.nack.arrivals == [1, 1_000_000, 4] && 1 < id < 4
    ensures id !in client.nack.reported
  {
    client.nack.ReportedMeans(id);
  }

  /**
   One packet that does not open, with a large id, silences the reports below that id: ids 2
   and 3 are lost, packet 4 is delivered, and neither 2 nor 3 is ever reported.
   */
  method ForgedPacketSilences(cipher: Cipher, first: Bytes, forged: Bytes, later: Bytes) returns (client: ClientReceiver)
    requires cipher.open(1, first).Some? && cipher.open(1_000_000, forged).None? && cipher.open(4, later).Some?
    ensures fresh(client) && client.Valid() && client.nack.arrivals == [1, 1_000_000, 4]
    ensures 2 !in client.nack.reported && 3 !in client.nack.reported
    ensures Ids(client.endpoint.delivered) == {1, 4}
  {
    hide ClientReceiver.Valid;
    hide Skipped;
    client := new ClientReceiver(cipher);
    NothingDelivered();
    var reports, r := client.OnArrival(1, first);
    DeliverNew([], Delivery(1, r.value));
    assert client.endpoint.delivered == [] + [Delivery(1, r.value)];
    hide Ids;
    ghost var log := client.endpoint.delivered;
    reports, r := client.OnArrival(1_000_000, forged);
    assert client.endpoint.delivered == log;
    reports, r := client.OnArrival(4, later);
    DeliverNew(log, Delivery(4, r.value));
    NeverReported(client, 2);
    NeverReported(client, 3);
  }

  // ---------------------------------------------------------------------------
  // The host's side
  // ---------------------------------------------------------------------------

  /** A real session: its alias is not zero and opening undoes sealing. */
  ghost predicate Agreed(s: Session) {
    && 0 < s.alias < U32
    && forall id: nat, m: Bytes :: s.cipher.open(id, s.cipher.seal(id, m)) == Some(m)
  }

  function Sealed(s: Session, id: nat, message: Bytes): PhysicalPacket {
    PhysicalPacket(RIFT_VERSION, None, Some(s.alias), id, s.cipher.seal(id, message))
  }

  /** A packet of the host: the wire image of the message it sealed under that id. */
  ghost predicate Genuine(s: Session, p: Packet, messages: map<nat, Bytes>) {
    && p.id < U64
    && p.id in messages
    && p.bytes == Wire(Sealed(s, p.id, messages[p.id]), s.crc)
  }

  lemma GenuineOpens(s: Session, p: Packet, messages: map<nat, Bytes>)
    requires Agreed(s) && Genuine(s, p, messages)
    ensures PacketCodec.Decode(p.bytes, s.crc) == Ok(Sealed(s, p.id, messages[p.id]))
    ensures Opened(s, p.bytes) == Some(Delivery(p.id, messages[p.id]))
  {
    DecodeEncode(Sealed(s, p.id, messages[p.id]), s.crc);
  }

  lemma SentOpens(s: Session, sent: seq<Packet>, messages: map<nat, Bytes>, p: Packet)
    requires Agreed(s) && AllGenuine(s, sent, messages) && p in sent
    ensures Genuine(s, p, messages) && p.id in messages && Opened(s, p.bytes) == Some(Delivery(p.id, messages[p.id]))
    ensures PacketCodec.Decode(p.bytes, s.crc).Ok? && PacketCodec.Decode(p.bytes, s.crc).value.packetId == p.id
  {
    hide Agreed;
    hide Wire;
    hide Opened;
    GenuineOpens(s, p, messages);
  }

  ghost predicate AllGenuine(s: Session, sent: seq<Packet>, messages: map<nat, Bytes>) {
    forall k | 0 <= k < |sent| :: Genuine(s, sent[k], messages)
  }

  /** Seals and sends one message; `encrypts` is false when encryption fails after the id was taken. */
  method SendMessage(host: Host, s: Session, message: Bytes, encrypts: bool, ghost messages: map<nat, Bytes>)
    returns (ok: bool, ghost messages': map<nat, Bytes>)
    requires host.Valid() && host.nextPacketId + 1 < U64 && AllGenuine(s, host.sent, messages)
    modifies host`nextPacketId, host`sent, host.history
    ensures host.Valid() && ok == encrypts
    ensures AllGenuine(s, host.sent, messages') && messages' == messages[old(host.nextPacketId) := message]
    ensures host.nextPacketId == old(host.nextPacketId) + 1
    ensures var id := old(host.nextPacketId);
            host.sent == old(host.sent) + if encrypts then [Packet(id, Wire(Sealed(s, id, message), s.crc))] else []
  {
    var id := host.nextPacketId;
    messages' := messages[id := message];
    var wire := Encode(Sealed(s, id, message), s.crc);
    ok := host.Send(if encrypts then Some(wire) else None);
  }

  /**
   The answer to a NACK holds only reported packets the host sent, byte for byte and in
   order. While the host is at most 384 ids past the packet that revealed the gap it holds
   all of them: an id whose encryption failed is then the only kind left unanswered.
   */
  lemma NackAnswered(host: Host, highest: nat, p: nat)
    requires host.Valid() && highest < p
    ensures var ids := Skipped(NACK_WINDOW_SIZE, highest, p);
            var resent := Resendable(host.history.packets, ids);
            && IncreasingBelow(resent, p)
            && (forall q <- resent :: q in host.sent && q.id in ids)
            && (host.nextPacketId <= p + 384 ==> forall q <- host.sent | q.id in ids :: q in resent)
            && (host.nextPacketId <= p + 384 ==> forall id <- ids :: id in host.history.packets <==> host.WasSent(id))
  {
    var ids := Skipped(NACK_WINDOW_SIZE, highest, p);
    var held := host.history.packets;
    IdsFromMembers(Max(highest + 1, Cutoff(NACK_WINDOW_SIZE, p)), p);
    ResendsInOrder(held, ids, p);
    forall id <- ids
      ensures id in held ==> host.WasSent(id) && Packet(id, held[id]) in host.sent
      ensures host.nextPacketId <= p + 384 && host.WasSent(id) ==> id in held
    {
      host.HeldExactly(id);
    }
    forall q: Packet
      ensures q in Resendable(held, ids) ==> q in host.sent && q.id in ids
      ensures host.nextPacketId <= p + 384 && q in host.sent && q.id in ids ==> q in Resendable(held, ids)
    {
      ResendsHeld(held, ids, q);
      if q in host.sent && q.id in ids {
        var i :| 0 <= i < |host.sent| && host.sent[i] == q;
        host.HistoryExact(i);
      }
    }
  }

  // ---------------------------------------------------------------------------
  // A whole repair round
  // ---------------------------------------------------------------------------

  /** The id a datagram claims is below the very top of the range. */
  predicate BelowTop(crc: Crc, bytes: Bytes) {
    PacketCodec.Decode(bytes, crc).Ok? ==> PacketCodec.Decode(bytes, crc).value.packetId < U64 - 1
  }

  /**
   Datagrams arrive: newer packets, retransmissions, copies and junk in any mixture. Each that
   opens is delivered exactly when it is new and less than 128 behind the highest delivered
   so far.
   */
  method ReceiveAll(client: ClientReceiver, s: Session, stream: seq<Bytes>)
    requires client.Valid() && client.endpoint.cipher == Some(s.cipher) && client.nack.highest != Some(U64 - 1)
    requires forall k | 0 <= k < |stream| :: BelowTop(s.crc, stream[k])
    modifies client.nack, client.endpoint, client.endpoint.recvWindow
    ensures client.Valid() && client.endpoint.cipher == Some(s.cipher)
    ensures client.endpoint.delivered == DeliveredBy(old(client.endpoint.delivered), s, stream)
  {
    hide ClientReceiver.Valid;
    hide PacketCodec.Decode;
    hide Deliver;
    hide Opened;
    hide Skipped;
    ghost var before := client.endpoint.delivered;
    for k := 0 to |stream|
      invariant client.Valid() && client.endpoint.cipher == Some(s.cipher) && client.nack.highest != Some(U64 - 1)
      invariant client.endpoint.delivered == DeliveredBy(before, s, stream[..k])
    {
      assert BelowTop(s.crc, stream[k]);
      assert stream[..k + 1][..k] == stream[..k];
      var reports := client.Receive(stream[k], s, s.crc);
    }
    assert stream[..|stream|] == stream;
  }

  /** From position `n` on, every delivery is the message sealed under its id. */
  ghost predicate TrueFrom(log: seq<Delivery>, n: nat, messages: map<nat, Bytes>) {
    forall i | n <= i < |log| :: log[i].packetId in messages && log[i].plaintext == messages[log[i].packetId]
  }

  /** A datagram is a packet of the host, or it does not open. */
  ghost predicate FromHost(s: Session, sent: seq<Packet>, bytes: Bytes) {
    Opened(s, bytes).None? || exists q :: q in sent && q.bytes == bytes
  }

  lemma {:induction false} DeliversTrue(log: seq<Delivery>, s: Session, sent: seq<Packet>, messages: map<nat, Bytes>,
                                        stream: seq<Bytes>)
    requires Agreed(s) && AllGenuine(s, sent, messages)
    requires forall k | 0 <= k < |stream| :: FromHost(s, sent, stream[k])
    ensures log <= DeliveredBy(log, s, stream) && TrueFrom(DeliveredBy(log, s, stream), |log|, messages)
  {
    hide Wire;
    hide Agreed;
    hide Opened;
    hide Admissible;
    if stream != [] {
      var n := |stream| - 1;
      DeliversTrue(log, s, sent, messages, stream[..n]);
      if Opened(s, stream[n]).Some? {
        assert FromHost(s, sent, stream[n]);
        var q :| q in sent && q.bytes == stream[n];
        GenuineOpens(s, q, messages);
      }
    }
  }

  ghost predicate AllSent(resent: seq<Packet>, sent: seq<Packet>) { forall q <- resent :: q in sent }

  /** What the network makes of packets the host resends: any stream of packets of the host and of junk. */
  ghost predicate Carries(network: seq<Packet> -> seq<Bytes>, s: Session, sent: seq<Packet>) {
    forall resent: seq<Packet>, b: Bytes | AllSent(resent, sent) ::
      b in network(resent) ==> BelowTop(s.crc, b) && FromHost(s, sent, b)
  }

  ghost predicate Lossless(network: seq<Packet> -> seq<Bytes>, sent: seq<Packet>) {
    forall resent: seq<Packet>, q: Packet | AllSent(resent, sent) :: q in resent ==> q.bytes in network(resent)
  }

  lemma ResentWasSent(host: Host, ids: seq<nat>)
    requires host.Valid()
    ensures AllSent(Resendable(host.history.packets, ids), host.sent)
  {
    forall q <- Resendable(host.history.packets, ids)
      ensures q in host.sent
    {
      ResendsHeld(host.history.packets, ids, q);
      host.HeldExactly(q.id);
    }
  }

  /** The network that passes on what it is given. */
  function PassOn(resent: seq<Packet>): seq<Bytes> {
    seq(|resent|, i requires 0 <= i < |resent| => resent[i].bytes)
  }

  /** It carries the host's packets and loses none of them. */
  lemma PassOnLosesNothing(s: Session, sent: seq<Packet>, messages: map<nat, Bytes>)
    requires Agreed(s) && AllGenuine(s, sent, messages)
    requires forall q <- sent :: q.id < U64 - 1
    ensures Carries(PassOn, s, sent) && Lossless(PassOn, sent)
  {
    hide Agreed;
    hide Opened;
    hide PacketCodec.Decode;
    hide AllGenuine;
    hide Genuine;
    forall resent: seq<Packet>, b: Bytes | AllSent(resent, sent) && b in PassOn(resent)
      ensures BelowTop(s.crc, b) && FromHost(s, sent, b)
    {
      var i :| 0 <= i < |resent| && PassOn(resent)[i] == b;
      assert resent[i] in resent;
      SentOpens(s, sent, messages, resent[i]);
    }
    forall resent: seq<Packet>, q: Packet | AllSent(resent, sent) && q in resent
      ensures q.bytes in PassOn(resent)
    {
      var i :| 0 <= i < |resent| && resent[i] == q;
      assert PassOn(resent)[i] == q.bytes;
    }
  }

  /** A packet that reveals a gap is itself delivered; of the ids it reveals, only the one 128 back is out of reach. */
  lemma RevealedGap(log: seq<Delivery>, highest: nat, d: Delivery, m: nat)
    requires DistinctIds(log) && (forall x <- Ids(log) :: x <= highest) && d.packetId + 128 < U64
    requires m in Skipped(NACK_WINDOW_SIZE, highest, d.packetId)
    ensures DistinctIds(Deliver(log, Some(d))) && m !in Ids(Deliver(log, Some(d)))
    ensures InReach(Ids(Deliver(log, Some(d))), m) <==> m + 128 != d.packetId
  {
    IdsFromMembers(Max(highest + 1, Cutoff(NACK_WINDOW_SIZE, d.packetId)), d.packetId);
    assert Admissible(Ids(log), d.packetId);
    hide Ids;
    hide DistinctIds;
    hide Deliver;
    DeliverIds(log, Some(d));
  }

  /** Which of the revealed ids the stream that follows delivers. */
  lemma RoundDelivers(log: seq<Delivery>, highest: nat, d: Delivery, s: Session, stream: seq<Bytes>, m: nat)
    requires DistinctIds(log) && (forall x <- Ids(log) :: x <= highest) && d.packetId + 128 < U64
    requires m in Skipped(NACK_WINDOW_SIZE, highest, d.packetId)
    ensures var log' := Deliver(log, Some(d));
            && (m in Ids(DeliveredBy(log', s, stream)) <==> ComesInTime(log', s, stream, m))
            && (NoneBeyond(s, stream, m) ==>
                  (m in Ids(DeliveredBy(log', s, stream)) <==> m + 128 != d.packetId && Brought(s, stream, m)))
  {
    hide Ids;
    hide DistinctIds;
    hide Deliver;
    hide InReach;
    hide NoneBeyond;
    hide Brought;
    hide ComesInTime;
    hide Skipped;
    hide DeliveredBy;
    RevealedGap(log, highest, d, m);
    DeliveredInTime(Deliver(log, Some(d)), s, stream, m);
    if NoneBeyond(s, stream, m) {
      InTimeMeansBrought(Deliver(log, Some(d)), s, stream, m);
    }
  }

  /** A network that loses nothing brings every reported id the host ever sent, and no other. */
  lemma BroughtExactly(host: Host, s: Session, messages: map<nat, Bytes>, highest: nat, p: nat,
                       network: seq<Packet> -> seq<Bytes>, m: nat)
    requires host.Valid() && highest < p && host.nextPacketId <= p + 384
    requires Agreed(s) && AllGenuine(s, host.sent, messages)
    requires Carries(network, s, host.sent) && Lossless(network, host.sent)
    requires m in Skipped(NACK_WINDOW_SIZE, highest, p)
    ensures Brought(s, network(Resendable(host.history.packets, Skipped(NACK_WINDOW_SIZE, highest, p))), m)
       <==> host.WasSent(m)
  {
    hide Wire;
    hide Agreed;
    hide Opened;
    hide Skipped;
    var resent := Resendable(host.history.packets, Skipped(NACK_WINDOW_SIZE, highest, p));
    var back := network(resent);
    NackAnswered(host, highest, p);
    ResentWasSent(host, Skipped(NACK_WINDOW_SIZE, highest, p));
    if Brought(s, back, m) {
      var k :| 0 <= k < |back| && Brings(s, back[k], m);
      assert back[k] in network(resent);
      assert FromHost(s, host.sent, back[k]);
      var q :| q in host.sent && q.bytes == back[k];
      GenuineOpens(s, q, messages);
    }
    if host.WasSent(m) {
      var i :| 0 <= i < |host.sent| && host.sent[i].id == m;
      var q := host.sent[i];
      GenuineOpens(s, q, messages);
      assert q in resent;
      assert q.bytes in network(resent);
      assert Brings(s, q.bytes, m);
    }
  }

  lemma StreamIsCarried(network: seq<Packet> -> seq<Bytes>, s: Session, sent: seq<Packet>, resent: seq<Packet>)
    requires Carries(network, s, sent) && AllSent(resent, sent)
    ensures forall k | 0 <= k < |network(resent)| ::
              BelowTop(s.crc, network(resent)[k]) && FromHost(s, sent, network(resent)[k])
  {
    assert forall k | 0 <= k < |network(resent)| :: network(resent)[k] in network(resent);
  }

  /** What the client has delivered once the round is over. */
  ghost predicate RoundIsRight(before: seq<Delivery>, log: seq<Delivery>, s: Session, messages: map<nat, Bytes>,
                               stream: seq<Bytes>, reports: seq<nat>)
  {
    var delivered := DeliveredBy(log, s, stream);
    && before <= delivered && TrueFrom(delivered, |before|, messages)
    && forall m <- reports :: m in Ids(delivered) <==> ComesInTime(log, s, stream, m)
  }

  lemma RoundOutcome(before: seq<Delivery>, highest: Option<nat>, host: Host, s: Session, messages: map<nat, Bytes>,
                     first: Packet, network: seq<Packet> -> seq<Bytes>)
    requires DistinctIds(before) && (highest.Some? ==> forall x <- Ids(before) :: x <= highest.value)
    requires Agreed(s) && host.Valid() && AllGenuine(s, host.sent, messages)
    requires first in host.sent && Genuine(s, first, messages) && first.id + 128 < U64
    requires Carries(network, s, host.sent)
    ensures var reports := NewlyMissing(NACK_WINDOW_SIZE, highest, first.id);
            var log := Deliver(before, Some(Delivery(first.id, messages[first.id])));
            var stream := network(Resendable(host.history.packets, reports));
            && RoundIsRight(before, log, s, messages, stream, reports)
            && (Lossless(network, host.sent) && host.nextPacketId <= first.id + 384 ==>
                  forall m <- reports | NoneBeyond(s, stream, m) ::
                    m in Ids(DeliveredBy(log, s, stream)) <==> m + 128 != first.id && host.WasSent(m))
  {
    var reports := NewlyMissing(NACK_WINDOW_SIZE, highest, first.id);
    var resent := Resendable(host.history.packets, reports);
    var stream := network(resent);
    var d := Delivery(first.id, messages[first.id]);
    GenuineOpens(s, first, messages);
    ResentWasSent(host, reports);
    StreamIsCarried(network, s, host.sent, resent);
    hide Genuine;
    hide Agreed;
    hide Opened;
    hide Deliver;
    hide DeliveredBy;
    hide Ids;
    hide DistinctIds;
    hide TrueFrom;
    hide ComesInTime;
    hide NoneBeyond;
    hide Brought;
    hide Lossless;
    hide Carries;
    DeliveredAfter(before, s, first.bytes, stream);
    DeliversTrue(before, s, host.sent, messages, [first.bytes] + stream);
    forall m <- reports
      ensures m in Ids(DeliveredBy(Deliver(before, Some(d)), s, stream)) <==>
              ComesInTime(Deliver(before, Some(d)), s, stream, m)
      ensures Lossless(network, host.sent) && host.nextPacketId <= first.id + 384 && NoneBeyond(s, stream, m) ==>
                (m in Ids(DeliveredBy(Deliver(before, Some(d)), s, stream)) <==> m + 128 != first.id && host.WasSent(m))
    {
      RoundDelivers(before, highest.value, d, s, stream, m);
      if Lossless(network, host.sent) && host.nextPacketId <= first.id + 384 {
        IdsFromMembers(Max(highest.value + 1, Cutoff(NACK_WINDOW_SIZE, first.id)), first.id);
        BroughtExactly(host, s, messages, highest.value, first.id, network, m);
      }
    }
  }

  /**
   A whole repair round: a packet of the host arrives at the client, the client reports the
   gap, the host resends what it has, and the network brings a stream in which retransmissions
   return among newer packets, copies and junk. A reported id is delivered exactly when it
   comes while everything delivered is less than 128 ahead of it. If the network loses nothing,
   the host is at most 384 ids ahead and nothing runs 128 ahead of that id, this is exactly
   when the host ever sent it and it is not the one 128 behind. Whatever is delivered is the
   message the host sealed under that id.
   */
  method RepairRound(client: ClientReceiver, host: Host, s: Session, first: Packet,
                     network: seq<Packet> -> seq<Bytes>, ghost messages: map<nat, Bytes>)
    returns (reports: seq<nat>)
    requires Agreed(s) && host.Valid() && AllGenuine(s, host.sent, messages)
    requires client.Valid() && client.endpoint.cipher == Some(s.cipher) && client.nack.highest != Some(U64 - 1)
    requires first in host.sent && first.id + DEFAULT_WINDOW_SIZE < U64
    requires Carries(network, s, host.sent)
    modifies client.nack, client.endpoint, client.endpoint.recvWindow
    ensures client.Valid()
    ensures reports == NewlyMissing(NACK_WINDOW_SIZE, old(client.nack.highest), first.id)
    ensures var log := Deliver(old(client.endpoint.delivered), Some(Delivery(first.id, messages[first.id])));
            var stream := network(Resendable(host.history.packets, reports));
            var delivered := client.endpoint.delivered;
            && delivered == DeliveredBy(log, s, stream)
            && RoundIsRight(old(client.endpoint.delivered), log, s, messages, stream, reports)
            && (Lossless(network, host.sent) && host.nextPacketId <= first.id + 384 ==>
                  forall m <- reports | NoneBeyond(s, stream, m) ::
                    m in Ids(delivered) <==> m + 128 != first.id && host.WasSent(m))
  {
    hide ClientReceiver.Valid;
    hide Host.Valid;
    hide Agreed;
    hide Genuine;
    hide AllGenuine;
    hide AllSent;
    hide Carries;
    hide Lossless;
    hide FromHost;
    hide Opened;
    hide Deliver;
    hide DeliveredBy;
    hide RoundIsRight;
    hide NoneBeyond;
    hide Skipped;
    hide PacketCodec.Decode;
    ghost var h, before := client.nack.highest, client.endpoint.delivered;
    client.DeliveredSoFar();
    SentOpens(s, host.sent, messages, first);
    reports := client.Receive(first.bytes, s, s.crc);
    var resent := host.OnNack(reports);
    var stream := network(resent);
    ResentWasSent(host, reports);
    StreamIsCarried(network, s, host.sent, resent);
    ReceiveAll(client, s, stream);
    RoundOutcome(before, h, host, s, messages, first, network);
  }

  /** The packet a host makes of a message. */
  function PacketOf(s: Session, id: nat, message: Bytes): Packet { Packet(id, Wire(Sealed(s, id, message), s.crc)) }

  /** A host that has sent three messages. */
  method ThreeSent(s: Session, a: Bytes, b: Bytes, c: Bytes) returns (host: Host, ghost messages: map<nat, Bytes>)
    ensures fresh(host) && host.Valid() && host.nextPacketId == 4
    ensures host.sent == [PacketOf(s, 1, a), PacketOf(s, 2, b), PacketOf(s, 3, c)]
    ensures messages == map[1 := a, 2 := b, 3 := c] && AllGenuine(s, host.sent, messages)
  {
    hide Wire;
    hide Host.Valid;
    hide AllGenuine;
    host := new Host();
    NoneGenuine(s);
    var ok;
    ok, messages := SendMessage(host, s, a, true, map[]);
    ok, messages := SendMessage(host, s, b, true, messages);
    ok, messages := SendMessage(host, s, c, true, messages);
  }

  lemma NoneGenuine(s: Session)
    ensures AllGenuine(s, [], map[])
  {
  }

  /** Passing on packets of the host brings nothing beyond what the host sent. */
  lemma PassOnStaysBelow(s: Session, sent: seq<Packet>, messages: map<nat, Bytes>, resent: seq<Packet>, id: nat)
    requires Agreed(s) && AllGenuine(s, sent, messages) && AllSent(resent, sent)
    requires forall q <- sent :: q.id < Reach(id)
    ensures NoneBeyond(s, PassOn(resent), id)
  {
    hide Agreed;
    hide AllGenuine;
    hide Genuine;
    hide Opened;
    hide PacketCodec.Decode;
    forall k | 0 <= k < |PassOn(resent)|
      ensures Opened(s, PassOn(resent)[k]).Some? ==> Opened(s, PassOn(resent)[k]).value.packetId < Reach(id)
    {
      assert resent[k] in resent;
      SentOpens(s, sent, messages, resent[k]);
    }
  }

  /** An id that was not delivered before and is now was delivered with its message. */
  lemma NewAndTrue(before: seq<Delivery>, log: seq<Delivery>, messages: map<nat, Bytes>, m: nat)
    requires before <= log && TrueFrom(log, |before|, messages) && m in Ids(log) && m !in Ids(before)
    ensures m in messages && Delivery(m, messages[m]) in log
  {
    assert forall j | 0 <= j < |before| :: before[j] == log[j] && before[j].packetId in Ids(before);
    var i :| 0 <= i < |log| && log[i].packetId == m;
    assert log[i] == Delivery(m, messages[m]);
  }

  /** The second of three packets is lost; the third reveals it, and it is delivered after all. */
  method RepairsOneLoss(s: Session, a: Bytes, b: Bytes, c: Bytes) returns (client: ClientReceiver)
    requires Agreed(s)
    ensures fresh(client) && client.Valid() && Delivery(2, b) in client.endpoint.delivered
  {
    hide ClientReceiver.Valid;
    hide Host.Valid;
    hide Agreed;
    hide AllGenuine;
    hide Genuine;
    hide Wire;
    hide AllSent;
    hide Carries;
    hide Lossless;
    hide Opened;
    hide Deliver;
    hide DeliveredBy;
    hide NoneBeyond;
    hide TrueFrom;
    hide ComesInTime;
    hide Ids;
    hide PacketCodec.Decode;
    hide PassOn;
    ghost var messages;
    var host;
    host, messages := ThreeSent(s, a, b, c);
    client := new ClientReceiver(s.cipher);
    SentOpens(s, host.sent, messages, PacketOf(s, 1, a));
    var none := client.Receive(PacketOf(s, 1, a).bytes, s, s.crc);
    ghost var before := client.endpoint.delivered;
    client.DeliveredSoFar();
    PassOnLosesNothing(s, host.sent, messages);
    var reports := RepairRound(client, host, s, PacketOf(s, 3, c), PassOn, messages);
    IdsFromMembers(2, 3);
    assert host.sent[1].id == 2;
    ResentWasSent(host, reports);
    PassOnStaysBelow(s, host.sent, messages, Resendable(host.history.packets, reports), 2);
    NewAndTrue(before, client.endpoint.delivered, messages, 2);
  }
}
