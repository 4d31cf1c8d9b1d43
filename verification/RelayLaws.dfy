/**
 What the relay owes its peers, from the record of its past: which packets it forwards, whom a
 lease connects, how long a route lasts and which sessions it keeps.
 */
module RelayLaws {
  import opened Common
  import opened SequenceWindows
  import opened PacketCodec
  import opened WindowBudgets
  import opened Relay

  // ---------------------------------------------------------------------------
  // Forwarding
  // ---------------------------------------------------------------------------

  /** Never forwarded on this side, and nothing forwarded there is 128 or more ahead, in wrapping arithmetic. */
  ghost predicate Unseen(forwarded: set<nat>, sq: nat) {
    sq !in forwarded && forall h <- forwarded :: h < (sq + 128) % U64
  }

  /** What a session has forwarded in the accounting window that a packet at `now` falls into. */
  ghost function Spent(w: World, t: Token, now: nat): nat
    requires t in w.sessions
  {
    var s := w.sessions[t];
    if s.lastTick + SECOND <= now then 0 else WindowSum(ChargesOf(w.trace, s.id), s.lastTick)
  }

  /** A packet of `len` bytes from `src` ought to go through. */
  ghost predicate Deserves(w: World, src: Addr, id: nat, len: nat, sq: Option<nat>, now: nat) {
    && src in w.routes && w.routes[src].sessionId == id && w.routes[src].token in w.sessions
    && Spent(w, w.routes[src].token, now) + len <= BANDWIDTH_LIMIT_BPS
    && sq.Some? && Unseen(SequencesOf(w.trace, id, w.routes[src].side), sq.value)
  }

  lemma AcceptsUnseen(s: Window, forwarded: set<nat>, sq: nat)
    requires Tracks(s, forwarded) && s.size == DEFAULT_WINDOW_SIZE && sq < U64
    ensures s.Accepts(sq) <==> Unseen(forwarded, sq)
  {
    AcceptsExactly(s, forwarded, sq);
  }

  /** A route belongs to a session that still exists exactly when source and session agree with it. */
  lemma LiveExactly(w: World, src: Addr, id: nat)
    requires Inv(w) && src in w.routes
    ensures RouteIsLive(w.sessions, w.routes[src], src, id)
       <==> w.routes[src].sessionId == id && w.routes[src].token in w.sessions
  {
    hide Tracks;
    hide Metering;
    hide TraceInv;
    var r := w.routes[src];
    assert RouteInv(src, r, w.issued, w.bound);
    if r.token in w.sessions {
      assert SessionInv(w.sessions[r.token], w.bound, w.trace);
      assert SideInv(w.sessions[r.token], r.side, w.bound, w.trace);
    }
  }

  /** What the fields of a session say about the record. */
  lemma SessionFacts(w: World, t: Token, side: Side)
    requires Inv(w) && t in w.sessions
    ensures var s := w.sessions[t];
            && Tracks(s.Seen(side), SequencesOf(w.trace, s.id, side)) && s.Seen(side).size == DEFAULT_WINDOW_SIZE
            && s.bytesSent == WindowSum(ChargesOf(w.trace, s.id), s.lastTick)
            && s.lastTick <= w.clock
  {
    hide Tracks;
    hide TraceInv;
    hide RoutesInv;
    hide IdsInv;
    assert SessionInv(w.sessions[t], w.bound, w.trace);
    assert SideInv(w.sessions[t], side, w.bound, w.trace);
  }

  /** The verdict follows from the record: a packet passes exactly when it deserves to. */
  lemma VerdictExactly(w: World, src: Addr, id: nat, len: nat, sq: Option<nat>, now: nat)
    requires Inv(w) && (sq.Some? ==> sq.value < U64)
    ensures var v := Judge(w.sessions, w.routes, src, id, len, sq, now);
            && (v.Pass? <==> Deserves(w, src, id, len, sq, now))
            && (v.Pass? ==> v.dest == w.routes[src].dest)
            && (v.NoRoute? <==> src !in w.routes)
            && (v.StaleRoute? <==>
                  src in w.routes && !(w.routes[src].sessionId == id && w.routes[src].token in w.sessions))
  {
    hide Inv;
    hide Tracks;
    hide Unseen;
    hide SequencesOf;
    hide ChargesOf;
    hide WindowSum;
    hide Window.Accepts;
    if src in w.routes {
      LiveExactly(w, src, id);
      var r := w.routes[src];
      if RouteIsLive(w.sessions, r, src, id) {
        SessionFacts(w, r.token, r.side);
        if sq.Some? {
          AcceptsUnseen(w.sessions[r.token].Seen(r.side), SequencesOf(w.trace, id, r.side), sq.value);
        }
      }
    }
  }

  /**
   After any run: what a packet from `src` does to the record and to the routes. A packet that
   deserves it goes to the other end and keeps its route in use, a route that leads nowhere is
   dropped, and everything else stays.
   */
  lemma ForwardExactly(steps: seq<Step>, crc: Crc, src: Addr, id: nat, packet: Bytes, now: nat)
    requires Reach(steps, crc).Some? && Enabled(Reach(steps, crc).value, Forward(src, id, packet, now))
    ensures var w := Reach(steps, crc).value;
            var w' := Next(w, Forward(src, id, packet, now), crc);
            var sq := ExtractForwardSequence(packet[RELAY_HEADER_SIZE..], crc);
            if Deserves(w, src, id, |packet|, sq, now) then
              var r := w.routes[src];
              && (exists window ::
                    w'.trace == w.trace + [Forwarded(id, r.side, sq.value, src, r.dest, |packet|, now, window)])
              && w'.routes == w.routes[src := r.(lastSeen := now)]
            else
              && w'.trace == w.trace
              && w'.routes == if src in w.routes && !(w.routes[src].sessionId == id && w.routes[src].token in w.sessions)
                              then w.routes - {src} else w.routes
    ensures var w := Reach(steps, crc).value;
            var w' := Next(w, Forward(src, id, packet, now), crc);
            && w'.bound == w.bound && w'.issued == w.issued && w'.sessions.Keys == w.sessions.Keys
            && (forall t <- w.sessions | src in w.routes ==> t != w.routes[src].token :: w'.sessions[t] == w.sessions[t])
            && (forall t <- w.sessions, side ::
                  && w'.sessions[t].Bound(side) == w.sessions[t].Bound(side)
                  && w'.sessions[t].createdAt == w.sessions[t].createdAt)
  {
    hide Inv;
    hide Deserves;
    hide Reach;
    hide ExtractForwardSequence;
    var w := Reach(steps, crc).value;
    RunKeepsInv(steps, crc);
    var sq := ExtractForwardSequence(packet[RELAY_HEADER_SIZE..], crc);
    SequenceInRange(packet[RELAY_HEADER_SIZE..], crc);
    VerdictExactly(w, src, id, |packet|, sq, now);
    if Deserves(w, src, id, |packet|, sq, now) {
      LiveToken(w, src, id, |packet|, sq, now);
    }
  }

  lemma LiveToken(w: World, src: Addr, id: nat, len: nat, sq: Option<nat>, now: nat)
    requires Deserves(w, src, id, len, sq, now) && Inv(w)
    ensures w.sessions[w.routes[src].token].id == id && sq.Some?
  {
    LiveExactly(w, src, id);
  }

  // ---------------------------------------------------------------------------
  // Leases
  // ---------------------------------------------------------------------------

  /** Someone else holds this side. */
  predicate Taken(s: Session, side: Side, src: Addr) { s.Bound(side).Some? && s.Bound(side) != Some(src) }

  /**
   Which side a lease gets. A server asks for the host side and a client for the client side;
   whoever finds that side taken by another gets the other one if it is free, and is turned
   away if it is not.
   */
  lemma LeaseSides(s: Session, src: Addr)
    ensures !Taken(s, HostSide, src) ==> LeaseSide(s, Server, src) == Some(HostSide)
    ensures Taken(s, HostSide, src) ==>
              LeaseSide(s, Server, src) == if s.Bound(ClientSide).None? then Some(ClientSide) else None
    ensures !Taken(s, ClientSide, src) ==> LeaseSide(s, Client, src) == Some(ClientSide)
    ensures Taken(s, ClientSide, src) ==>
              LeaseSide(s, Client, src) == if s.Bound(HostSide).None? then Some(HostSide) else None
  {
  }

  /** Which leases are accepted, and why the others are not. */
  lemma LeaseReplies(w: World, src: Addr, id: nat, lease: Option<Lease>)
    ensures var reply := ReplyTo(w.sessions, src, id, lease);
            && (reply == Reject(InvalidSignature) <==> lease.None? || lease.value.token !in w.sessions)
            && (reply == Reject(WrongRelay) <==>
                  lease.Some? && lease.value.token in w.sessions && w.sessions[lease.value.token].id != id)
            && (reply == Ack || reply == Reject(SessionFull) <==>
                  lease.Some? && lease.value.token in w.sessions && w.sessions[lease.value.token].id == id)
            && (reply == Reject(SessionFull) ==>
                  forall side :: w.sessions[lease.value.token].Bound(side).Some?)
  {
  }

  /** A refused lease changes nothing. */
  lemma RefusedLease(w: World, src: Addr, id: nat, lease: Option<Lease>, now: nat)
    requires ReplyTo(w.sessions, src, id, lease) != Ack
    ensures AfterPresent(w, src, id, lease, now) == w.(clock := now)
  {
  }

  /** An accepted lease binds its address to one side of its session and touches no other session. */
  lemma LeaseBinds(w: World, src: Addr, id: nat, lease: Option<Lease>, now: nat)
    requires ReplyTo(w.sessions, src, id, lease) == Ack
    ensures var w' := AfterPresent(w, src, id, lease, now);
            var t := lease.value.token;
            var side := LeaseSide(w.sessions[t], lease.value.role, src).value;
            && w'.sessions.Keys == w.sessions.Keys
            && (forall u <- w.sessions | u != t :: w'.sessions[u] == w.sessions[u])
            && w'.sessions[t].Bound(side) == Some(src)
            && w'.sessions[t].Bound(side.Other()) == w.sessions[t].Bound(side.Other())
            && w'.sessions[t].id == w.sessions[t].id && w'.sessions[t].createdAt == w.sessions[t].createdAt
            && (forall end :: w'.sessions[t].Seen(end) == w.sessions[t].Seen(end))
            && w'.trace == w.trace
  {
  }

  /** `a` has a route to `b` through session `t`. */
  ghost predicate Connected(w: World, t: Token, side: Side, a: Addr, b: Addr) {
    && t in w.sessions
    && a in w.routes && w.routes[a].token == t && w.routes[a].sessionId == w.sessions[t].id
    && w.routes[a].side == side && w.routes[a].dest == b
    && w.sessions[t].Bound(side) == Some(a) && w.sessions[t].Bound(side.Other()) == Some(b)
  }

  /**
   An accepted lease that leaves both sides bound to different addresses connects each to the
   other, in both directions and as of now; every other route stays as it was.
   */
  lemma LeaseConnects(w: World, src: Addr, id: nat, lease: Option<Lease>, now: nat)
    requires ReplyTo(w.sessions, src, id, lease) == Ack
    ensures var w' := AfterPresent(w, src, id, lease, now);
            var t := lease.value.token;
            var host, client := w'.sessions[t].Bound(HostSide), w'.sessions[t].Bound(ClientSide);
            && (host.Some? && client.Some? && host != client ==>
                  && Connected(w', t, HostSide, host.value, client.value)
                  && Connected(w', t, ClientSide, client.value, host.value)
                  && w'.routes[host.value].lastSeen == now && w'.routes[client.value].lastSeen == now)
            && (forall a | host != Some(a) && client != Some(a) ::
                  (a in w'.routes <==> a in w.routes) && (a in w.routes ==> w'.routes[a] == w.routes[a]))
            && (host.None? || client.None? ==> w'.routes == w.routes)
  {
  }

  // ---------------------------------------------------------------------------
  // Sessions
  // ---------------------------------------------------------------------------

  /** The sessions that have not reached their time to live. */
  ghost function YoungSessions(sessions: map<Token, Session>, ttl: nat, now: nat): set<Token> {
    set t <- sessions | 0 < ttl && now < sessions[t].createdAt + ttl
  }

  lemma UnexpiredAreYoung(sessions: map<Token, Session>, ttl: nat, now: nat)
    ensures Unexpired(sessions, ttl, now).Keys == YoungSessions(sessions, ttl, now)
    ensures |Unexpired(sessions, ttl, now)| == |YoungSessions(sessions, ttl, now)|
    ensures forall t <- Unexpired(sessions, ttl, now) :: t in sessions && Unexpired(sessions, ttl, now)[t] == sessions[t]
  {
  }

  lemma UnissuedUnused(w: World, token: Token)
    requires Inv(w) && token !in w.issued
    ensures token !in w.sessions
  {
    hide SessionsInv;
    hide RoutesInv;
    hide TraceInv;
  }

  lemma OthersStay<K, T>(m: map<K, T>, key: K, v: T)
    requires key !in m
    ensures forall k | k != key :: k in m[key := v] <==> k in m
    ensures forall k <- m :: k in m[key := v] && m[key := v][k] == m[k]
  {
  }

  /** What a request for a session makes of the sessions. */
  lemma CreatedSessions(w: World, token: Token, id: nat, ttl: nat, limit: nat, now: nat)
    ensures var w' := AfterCreate(w, token, id, ttl, limit, now);
            var live := Unexpired(w.sessions, ttl, now);
            && w'.sessions == (if |live| < limit then live[token := NewSession(id, now)] else live)
            && w'.routes == w.routes && w'.trace == w.trace && w'.bound == w.bound
  {
    hide Unexpired;
    hide NewSession;
  }

  /** Asking for a session drops exactly those past their time to live; the rest stay as they are. */
  lemma CreateKeepsYoung(w: World, token: Token, id: nat, ttl: nat, limit: nat, now: nat)
    requires token !in w.issued && Inv(w)
    ensures var after := AfterCreate(w, token, id, ttl, limit, now).sessions;
            var young := YoungSessions(w.sessions, ttl, now);
            && (forall t | t != token :: t in after <==> t in young)
            && (forall t <- young :: t in after && after[t] == w.sessions[t])
  {
    hide Inv;
    hide Unexpired;
    hide NewSession;
    hide YoungSessions;
    UnissuedUnused(w, token);
    CreatedSessions(w, token, id, ttl, limit, now);
    hide AfterCreate;
    UnexpiredAreYoung(w.sessions, ttl, now);
    OthersStay(Unexpired(w.sessions, ttl, now), token, NewSession(id, now));
  }

  /** The new session is there exactly when fewer than the limit are left, bound to no one and with nothing spent. */
  lemma CreateExactly(w: World, token: Token, id: nat, ttl: nat, limit: nat, now: nat)
    requires token !in w.issued && Inv(w)
    ensures var w' := AfterCreate(w, token, id, ttl, limit, now);
            && (token in w'.sessions <==> |YoungSessions(w.sessions, ttl, now)| < limit)
            && (token in w'.sessions ==>
                  var s := w'.sessions[token];
                  && s.id == id && s.createdAt == now && s.bytesSent == 0 && s.lastTick == now
                  && forall side :: s.Bound(side).None? && s.Seen(side) == NewWindow())
  {
    UnissuedUnused(w, token);
    hide Inv;
    UnexpiredAreYoung(w.sessions, ttl, now);
    hide Unexpired;
    hide YoungSessions;
  }

  // ---------------------------------------------------------------------------
  // A session from end to end
  // ---------------------------------------------------------------------------

  /** Two peers that present their leases to a session without bindings are connected. */
  lemma PeersConnect(w: World, t: Token, a: Addr, b: Addr, t1: nat, t2: nat)
    requires Inv(w) && t in w.sessions && a != b && w.clock <= t1 <= t2
    requires forall side :: w.sessions[t].Bound(side).None?
    ensures var id := w.sessions[t].id;
            var w1 := AfterPresent(w, a, id, Some(Lease(Server, t)), t1);
            var w2 := AfterPresent(w1, b, id, Some(Lease(Client, t)), t2);
            && Connected(w2, t, HostSide, a, b) && Connected(w2, t, ClientSide, b, a)
            && Inv(w2) && w2.clock == t2 && w2.trace == w.trace
            && w2.sessions[t].id == id && w2.sessions[t].bytesSent == w.sessions[t].bytesSent
            && (forall side :: w2.sessions[t].Seen(side) == w.sessions[t].Seen(side))
  {
    hide Inv;
    var id := w.sessions[t].id;
    LeaseSides(w.sessions[t], a);
    var w1 := AfterPresent(w, a, id, Some(Lease(Server, t)), t1);
    LeaseBinds(w, a, id, Some(Lease(Server, t)), t1);
    PresentKeepsInv(w, a, id, Some(Lease(Server, t)), t1);
    LeaseSides(w1.sessions[t], b);
    LeaseBinds(w1, b, id, Some(Lease(Client, t)), t2);
    LeaseConnects(w1, b, id, Some(Lease(Client, t)), t2);
    PresentKeepsInv(w1, b, id, Some(Lease(Client, t)), t2);
  }

  /** A packet between connected peers passes if the budget holds it and its number is unseen on that side. */
  lemma ConnectedDeserves(w: World, t: Token, side: Side, a: Addr, b: Addr, len: nat, sq: nat, now: nat)
    requires Inv(w) && Connected(w, t, side, a, b)
    requires Spent(w, t, now) + len <= BANDWIDTH_LIMIT_BPS
    requires Unseen(SequencesOf(w.trace, w.sessions[t].id, side), sq)
    ensures Deserves(w, a, w.sessions[t].id, len, Some(sq), now) && w.routes[a].dest == b
  {
  }

  /** Such a packet leaves for the other end, and the way back stays open. */
  lemma ConnectedPasses(w: World, t: Token, side: Side, a: Addr, b: Addr, len: nat, sq: nat, now: nat)
    requires Inv(w) && w.clock <= now && sq < U64 && a != b
    requires Connected(w, t, side, a, b) && Connected(w, t, side.Other(), b, a)
    requires Spent(w, t, now) + len <= BANDWIDTH_LIMIT_BPS
    requires Unseen(SequencesOf(w.trace, w.sessions[t].id, side), sq)
    ensures var id := w.sessions[t].id;
            var v := Judge(w.sessions, w.routes, a, id, len, Some(sq), now);
            var w' := AfterVerdict(w, a, v, len, Some(sq), now);
            && Inv(w') && w'.clock == now
            && |w'.trace| == |w.trace| + 1 && w.trace <= w'.trace
            && (var f := w'.trace[|w.trace|];
                && f.sessionId == id && f.side == side && f.sq == sq && f.len == len && f.at == now
                && f.src == a && f.dest == b)
            && Connected(w', t, side, a, b) && Connected(w', t, side.Other(), b, a)
            && w'.sessions[t].id == id && w'.sessions[t].bytesSent == Spent(w, t, now) + len
            && w'.sessions[t].Seen(side.Other()) == w.sessions[t].Seen(side.Other())
  {
    hide Inv;
    hide SequencesOf;
    hide ChargesOf;
    hide WindowSum;
    hide Unseen;
    hide Tracks;
    hide Window.Accepts;
    hide Window.Admit;
    var id := w.sessions[t].id;
    ConnectedDeserves(w, t, side, a, b, len, sq, now);
    VerdictExactly(w, a, id, len, Some(sq), now);
    VerdictKeepsInv(w, a, id, len, Some(sq), now);
    SessionFacts(w, t, side);
    hide Judge;
  }

  /** A session that has seen nothing on a side has forwarded nothing from it. */
  lemma NothingSeen(w: World, t: Token, side: Side)
    requires Inv(w) && t in w.sessions && w.sessions[t].Seen(side) == NewWindow()
    ensures SequencesOf(w.trace, w.sessions[t].id, side) == {}
  {
    hide Inv;
    SessionFacts(w, t, side);
  }

  lemma SpentAtMost(w: World, t: Token, now: nat)
    requires Inv(w) && t in w.sessions
    ensures Spent(w, t, now) <= w.sessions[t].bytesSent
  {
    hide Inv;
    SessionFacts(w, t, HostSide);
  }

  /**
   From creation to delivery: in a session with room, a server and a client that present their
   leases reach each other in both directions, whatever the relay did before and even if both
   packets carry the same sequence number.
   */
  lemma SessionCarriesBothWays(w: World, token: Token, id: nat, ttl: nat, limit: nat, a: Addr, b: Addr,
                               m: nat, sq: nat, n: nat, back: nat, at: seq<nat>)
    requires Inv(w) && token !in w.issued && id !in w.issued.Values && a != b
    requires |at| == 5 && w.clock <= at[0] <= at[1] <= at[2] <= at[3] <= at[4]
    requires |Unexpired(w.sessions, ttl, at[0])| < limit
    requires sq < U64 && back < U64 && m + n <= BANDWIDTH_LIMIT_BPS
    ensures var w1 := AfterCreate(w, token, id, ttl, limit, at[0]);
            var w2 := AfterPresent(w1, a, id, Some(Lease(Server, token)), at[1]);
            var w3 := AfterPresent(w2, b, id, Some(Lease(Client, token)), at[2]);
            var w4 := AfterVerdict(w3, a, Judge(w3.sessions, w3.routes, a, id, m, Some(sq), at[3]), m, Some(sq), at[3]);
            var w5 := AfterVerdict(w4, b, Judge(w4.sessions, w4.routes, b, id, n, Some(back), at[4]), n, Some(back), at[4]);
            && |w5.trace| == |w.trace| + 2
            && (var f := w5.trace[|w.trace|]; f.src == a && f.dest == b && f.sq == sq && f.at == at[3])
            && (var f := w5.trace[|w.trace| + 1]; f.src == b && f.dest == a && f.sq == back && f.at == at[4])
  {
    hide Inv;
    hide SequencesOf;
    hide Spent;
    hide Tracks;
    hide AfterVerdict;
    hide AfterPresent;
    var w1 := AfterCreate(w, token, id, ttl, limit, at[0]);
    CreateStepKeepsInv(w, token, id, ttl, limit, at[0]);
    assert w1.sessions[token] == NewSession(id, at[0]);
    PeersConnect(w1, token, a, b, at[1], at[2]);
    var w2 := AfterPresent(w1, a, id, Some(Lease(Server, token)), at[1]);
    var w3 := AfterPresent(w2, b, id, Some(Lease(Client, token)), at[2]);
    NothingSeen(w3, token, HostSide);
    SpentAtMost(w3, token, at[3]);
    ConnectedPasses(w3, token, HostSide, a, b, m, sq, at[3]);
    var w4 := AfterVerdict(w3, a, Judge(w3.sessions, w3.routes, a, id, m, Some(sq), at[3]), m, Some(sq), at[3]);
    NothingSeen(w4, token, ClientSide);
    SpentAtMost(w4, token, at[4]);
    ConnectedPasses(w4, token, ClientSide, b, a, n, back, at[4]);
  }

  // ---------------------------------------------------------------------------
  // How long a route lasts
  // ---------------------------------------------------------------------------

  /** Packet `f` came from the address of this route, through its session. */
  ghost predicate Uses(a: Addr, r: Route, f: Forwarded) { f.src == a && f.sessionId == r.sessionId }

  /** No packet is dated in the future, and a route was in use at least as late as any packet it carried. */
  ghost predicate InUseSince(routes: map<Addr, Route>, trace: seq<Forwarded>, clock: nat) {
    && (forall i | 0 <= i < |trace| :: trace[i].at <= clock)
    && (forall a <- routes :: routes[a].lastSeen <= clock)
    && (forall a, i | a in routes && 0 <= i < |trace| && Uses(a, routes[a], trace[i]) ::
          trace[i].at <= routes[a].lastSeen)
  }

  lemma RenewKeepsUse(routes: map<Addr, Route>, trace: seq<Forwarded>, clock: nat, routes': map<Addr, Route>, now: nat)
    requires InUseSince(routes, trace, clock) && clock <= now
    requires forall a <- routes' :: routes'[a].lastSeen == now || (a in routes && routes'[a] == routes[a])
    ensures InUseSince(routes', trace, now)
  {
  }

  lemma {:induction false} RoutesInUse(steps: seq<Step>, crc: Crc)
    requires Reach(steps, crc).Some?
    ensures var w := Reach(steps, crc).value;
            InUseSince(w.routes, w.trace, w.clock)
  {
    if steps != [] {
      var n := |steps| - 1;
      RoutesInUse(steps[..n], crc);
      var w := Reach(steps[..n], crc).value;
      hide InUseSince;
      hide Reach;
      StepKeepsUse(w, steps[n], crc);
    }
  }

  lemma StepKeepsUse(w: World, step: Step, crc: Crc)
    requires InUseSince(w.routes, w.trace, w.clock) && Enabled(w, step)
    ensures var w' := Next(w, step, crc);
            InUseSince(w'.routes, w'.trace, w'.clock)
  {
    hide InUseSince;
    hide ExtractForwardSequence;
    var w' := Next(w, step, crc);
    if step.Forward? && w'.trace != w.trace {
      var sq := ExtractForwardSequence(step.packet[RELAY_HEADER_SIZE..], crc);
      var v := Judge(w.sessions, w.routes, step.src, step.sessionId, |step.packet|, sq, step.now);
      PacketKeepsUse(w, step.src, v, |step.packet|, sq, step.now);
    } else {
      RenewKeepsUse(w.routes, w.trace, w.clock, w'.routes, step.now);
    }
  }

  lemma PacketKeepsUse(w: World, src: Addr, v: Verdict, len: nat, sq: Option<nat>, now: nat)
    requires InUseSince(w.routes, w.trace, w.clock) && w.clock <= now
    requires Outgoing(w, src, v, len, sq, now) != []
    ensures var w' := AfterVerdict(w, src, v, len, sq, now);
            InUseSince(w'.routes, w'.trace, w'.clock)
  {
    RenewKeepsUse(w.routes, w.trace, w.clock, w.routes, now);
  }

  /**
   After any run, cleaning up drops only routes that carried nothing for more than two minutes:
   a peer whose packet was forwarded within the last two minutes keeps its route.
   */
  lemma BusyRouteStays(steps: seq<Step>, crc: Crc, now: nat, a: Addr, i: nat)
    requires Reach(steps, crc).Some? && Reach(steps, crc).value.clock <= now
    requires var w := Reach(steps, crc).value;
             a in w.routes && i < |w.trace| && Uses(a, w.routes[a], w.trace[i]) && now <= w.trace[i].at + 120 * SECOND
    ensures var w := Reach(steps, crc).value;
            var w' := Next(w, CleanUp(now), crc);
            a in w'.routes && w'.routes[a] == w.routes[a]
  {
    RoutesInUse(steps, crc);
  }

  /** Cleaning up drops every route not renewed for more than two minutes, and no other. */
  lemma CleanUpExactly(w: World, now: nat, crc: Crc)
    requires w.clock <= now
    ensures var w' := Next(w, CleanUp(now), crc);
            && (forall a <- w.routes :: a !in w'.routes <==> w.routes[a].lastSeen + 120 * SECOND < now)
            && (forall a <- w'.routes :: a in w.routes && w'.routes[a] == w.routes[a])
            && w'.sessions == w.sessions && w'.trace == w.trace
  {
  }
}
