/**
 The gateway's blind relay (crates/wavry-gateway/src/relay.rs) as one transition system:
 session creation and expiry, lease presentation, forwarding and route cleanup, in any order.

 The sessions and routes are the source's two maps. Beside them the model keeps the whole
 past: every token ever issued, every address ever bound, every packet ever forwarded.
 `Inv` relates the maps to that past and is kept by every step, so what it says about the
 past holds of every run.
 */
module Relay {
  import opened Common
  import opened SequenceWindows
  import opened PacketCodec
  import opened WindowBudgets

  type Addr = nat
  type Token = string

  /** Time is in nanoseconds. */
  const SECOND: nat := 1_000_000_000
  const BANDWIDTH_LIMIT_BPS: nat := 500 * 1024
  const ROUTE_IDLE_TIMEOUT: nat := 120 * SECOND
  const RELAY_HEADER_SIZE: nat := 20

  datatype Side = HostSide | ClientSide {
    function Other(): Side { if HostSide? then ClientSide else HostSide }
  }

  datatype PeerRole = Server | Client

  datatype Session = Session(
    id: nat,
    hostAddr: Option<Addr>,
    clientAddr: Option<Addr>,
    createdAt: nat,
    bytesSent: nat,
    lastTick: nat,
    hostSeq: Window,
    clientSeq: Window)
  {
    function Bound(side: Side): Option<Addr> { if side.HostSide? then hostAddr else clientAddr }

    function Bind(side: Side, a: Addr): Session {
      if side.HostSide? then this.(hostAddr := Some(a)) else this.(clientAddr := Some(a))
    }

    function Seen(side: Side): Window { if side.HostSide? then hostSeq else clientSeq }

    function WithSeen(side: Side, w: Window): Session {
      if side.HostSide? then this.(hostSeq := w) else this.(clientSeq := w)
    }

    /** The bandwidth counter as of `now`. */
    function Tick(now: nat): Session {
      if now >= lastTick + SECOND then this.(bytesSent := 0, lastTick := now) else this
    }
  }

  datatype Route = Route(token: Token, sessionId: nat, side: Side, dest: Addr, lastSeen: nat)

  /** One packet put on the wire, and the bandwidth window it was charged to. */
  datatype Forwarded = Forwarded(
    sessionId: nat, side: Side, sq: nat, src: Addr, dest: Addr, len: nat, at: nat, window: nat)

  datatype World = World(
    sessions: map<Token, Session>,
    routes: map<Addr, Route>,
    issued: map<Token, nat>,
    bound: map<(nat, Side), Addr>,
    trace: seq<Forwarded>,
    clock: nat)

  // ---------------------------------------------------------------------------
  // What the trace says about one session
  // ---------------------------------------------------------------------------

  ghost predicate Sends(f: Forwarded, id: nat, side: Side, sq: nat) {
    f.sessionId == id && f.side == side && f.sq == sq
  }

  /** Every sequence number forwarded for one side of one session. */
  ghost function SequencesOf(trace: seq<Forwarded>, id: nat, side: Side): set<nat> {
    if trace == [] then {}
    else
      var last := trace[|trace| - 1];
      SequencesOf(trace[..|trace| - 1], id, side)
      + if last.sessionId == id && last.side == side then {last.sq} else {}
  }

  /** The bandwidth charges of one session. */
  ghost function ChargesOf(trace: seq<Forwarded>, id: nat): seq<Charge> {
    if trace == [] then []
    else
      var last := trace[|trace| - 1];
      ChargesOf(trace[..|trace| - 1], id)
      + if last.sessionId == id then [Charge(last.at, last.len, last.window)] else []
  }

  lemma {:induction false} SequencesMember(trace: seq<Forwarded>, id: nat, side: Side, sq: nat)
    ensures sq in SequencesOf(trace, id, side) <==> exists i :: 0 <= i < |trace| && Sends(trace[i], id, side, sq)
  {
    if trace != [] {
      var n := |trace| - 1;
      SequencesMember(trace[..n], id, side, sq);
      if i :| 0 <= i < |trace| && Sends(trace[i], id, side, sq) {
        assert i == n || Sends(trace[..n][i], id, side, sq);
      }
      assert Sends(trace[n], id, side, sq) ==> exists i :: 0 <= i < |trace| && Sends(trace[i], id, side, sq);
      if i :| 0 <= i < n && Sends(trace[..n][i], id, side, sq) {
        assert Sends(trace[i], id, side, sq);
      }
    }
  }

  // ---------------------------------------------------------------------------
  // The invariant
  // ---------------------------------------------------------------------------

  /** No (session, side, sequence number) was ever forwarded twice. */
  ghost predicate ForwardedOnce(trace: seq<Forwarded>) {
    forall i, j | 0 <= i < j < |trace| :: !Sends(trace[i], trace[j].sessionId, trace[j].side, trace[j].sq)
  }

  /** Every packet went from the address bound on its side to the address bound on the other side. */
  ghost predicate ForwardedToPeer(trace: seq<Forwarded>, bound: map<(nat, Side), Addr>) {
    forall i | 0 <= i < |trace| ::
      var f := trace[i];
      && (f.sessionId, f.side) in bound && bound[(f.sessionId, f.side)] == f.src
      && (f.sessionId, f.side.Other()) in bound && bound[(f.sessionId, f.side.Other())] == f.dest
  }

  ghost predicate SessionsMetered(trace: seq<Forwarded>) {
    forall id :: WellSpaced(ChargesOf(trace, id), SECOND) && WithinLimit(ChargesOf(trace, id), BANDWIDTH_LIMIT_BPS)
  }

  ghost predicate SideInv(s: Session, side: Side, bound: map<(nat, Side), Addr>, trace: seq<Forwarded>) {
    && s.Bound(side) == (if (s.id, side) in bound then Some(bound[(s.id, side)]) else None)
    && s.Seen(side).size == DEFAULT_WINDOW_SIZE
    && Tracks(s.Seen(side), SequencesOf(trace, s.id, side))
  }

  ghost predicate SessionInv(s: Session, bound: map<(nat, Side), Addr>, trace: seq<Forwarded>) {
    && SideInv(s, HostSide, bound, trace)
    && SideInv(s, ClientSide, bound, trace)
    && Metering(ChargesOf(trace, s.id), SECOND, BANDWIDTH_LIMIT_BPS, s.lastTick, s.bytesSent)
  }

  ghost predicate RouteInv(a: Addr, r: Route, issued: map<Token, nat>, bound: map<(nat, Side), Addr>) {
    && r.token in issued && r.sessionId == issued[r.token]
    && (r.sessionId, r.side) in bound && bound[(r.sessionId, r.side)] == a
    && (r.sessionId, r.side.Other()) in bound && bound[(r.sessionId, r.side.Other())] == r.dest
  }

  ghost predicate SessionsInv(sessions: map<Token, Session>, bound: map<(nat, Side), Addr>, trace: seq<Forwarded>) {
    forall t <- sessions :: SessionInv(sessions[t], bound, trace)
  }

  ghost predicate RoutesInv(routes: map<Addr, Route>, issued: map<Token, nat>, bound: map<(nat, Side), Addr>) {
    forall a <- routes :: RouteInv(a, routes[a], issued, bound)
  }

  /** Tokens and session ids are issued once, and only issued sessions ever have bound addresses. */
  ghost predicate IdsInv(w: World) {
    && (forall t <- w.sessions :: t in w.issued && w.sessions[t].id == w.issued[t])
    && (forall t, u | t in w.issued && u in w.issued && t != u :: w.issued[t] != w.issued[u])
    && (forall k <- w.bound :: k.0 in w.issued.Values)
  }

  /** What is true of the past of every run. */
  ghost predicate TraceInv(trace: seq<Forwarded>, bound: map<(nat, Side), Addr>) {
    && ForwardedOnce(trace)
    && ForwardedToPeer(trace, bound)
    && SessionsMetered(trace)
  }

  ghost predicate Inv(w: World) {
    && IdsInv(w)
    && SessionsInv(w.sessions, w.bound, w.trace)
    && (forall t <- w.sessions :: w.sessions[t].lastTick <= w.clock)
    && RoutesInv(w.routes, w.issued, w.bound)
    && TraceInv(w.trace, w.bound)
  }

  // ---------------------------------------------------------------------------
  // Leases
  // ---------------------------------------------------------------------------

  /** Can `src` hold this side: it is free or already its own. */
  predicate Holds(s: Session, side: Side, src: Addr) {
    s.Bound(side).None? || s.Bound(side) == Some(src)
  }

  function Preferred(role: PeerRole): Side { if role.Server? then HostSide else ClientSide }

  /** The side a lease ends up on: its own if it can hold it, else the other one if that is free. */
  function LeaseSide(s: Session, role: PeerRole, src: Addr): Option<Side> {
    var side := Preferred(role);
    if Holds(s, side, src) then Some(side)
    else if s.Bound(side.Other()).None? then Some(side.Other())
    else None
  }

  /** The routes after a lease: both directions, once both sides are bound. */
  function RoutesFor(routes: map<Addr, Route>, t: Token, s: Session, now: nat): map<Addr, Route> {
    if s.hostAddr.Some? && s.clientAddr.Some? then
      routes[s.hostAddr.value := Route(t, s.id, HostSide, s.clientAddr.value, now)]
            [s.clientAddr.value := Route(t, s.id, ClientSide, s.hostAddr.value, now)]
    else routes
  }

  lemma BindSession(s: Session, side: Side, src: Addr, bound: map<(nat, Side), Addr>, trace: seq<Forwarded>)
    requires SessionInv(s, bound, trace) && Holds(s, side, src)
    ensures SessionInv(s.Bind(side, src), bound[(s.id, side) := src], trace)
    ensures (s.id, side) in bound ==> bound[(s.id, side)] == src
  {
  }

  lemma BindElsewhere(s: Session, id: nat, side: Side, src: Addr, bound: map<(nat, Side), Addr>, trace: seq<Forwarded>)
    requires SessionInv(s, bound, trace) && s.id != id
    ensures SessionInv(s, bound[(id, side) := src], trace)
  {
  }

  /** A new binding leaves every other session, every route and the whole past as they were. */
  lemma BindingsGrow(w: World, t: Token, side: Side, src: Addr)
    requires Inv(w) && t in w.sessions && Holds(w.sessions[t], side, src)
    ensures var s := w.sessions[t];
            var bound := w.bound[(s.id, side) := src];
            && ((s.id, side) in w.bound ==> w.bound[(s.id, side)] == src)
            && SessionsInv(w.sessions[t := s.Bind(side, src)], bound, w.trace)
            && RoutesInv(w.routes, w.issued, bound)
            && ForwardedToPeer(w.trace, bound)
  {
    hide SessionInv;
    hide ForwardedOnce;
    hide SessionsMetered;
    var s := w.sessions[t];
    var bound := w.bound[(s.id, side) := src];
    assert SessionInv(s, w.bound, w.trace);
    BindSession(s, side, src, w.bound, w.trace);
    forall u <- w.sessions | u != t
      ensures SessionInv(w.sessions[u], bound, w.trace)
    {
      assert SessionInv(w.sessions[u], w.bound, w.trace);
      assert w.sessions[u].id != s.id;
      BindElsewhere(w.sessions[u], s.id, side, src, w.bound, w.trace);
    }
  }

  lemma RoutesForInv(routes: map<Addr, Route>, t: Token, s: Session, now: nat, issued: map<Token, nat>,
                     bound: map<(nat, Side), Addr>)
    requires RoutesInv(routes, issued, bound) && t in issued && issued[t] == s.id
    requires forall side :: s.Bound(side).Some? ==> (s.id, side) in bound && bound[(s.id, side)] == s.Bound(side).value
    ensures RoutesInv(RoutesFor(routes, t, s, now), issued, bound)
  {
  }

  lemma LeaseKeepsInv(w: World, t: Token, side: Side, src: Addr, now: nat)
    requires Inv(w) && t in w.sessions && now >= w.clock
    requires Holds(w.sessions[t], side, src)
    ensures var s := w.sessions[t].Bind(side, src);
            Inv(World(w.sessions[t := s], RoutesFor(w.routes, t, s, now), w.issued,
                      w.bound[(s.id, side) := src], w.trace, now))
    ensures forall k <- w.bound :: w.bound[(w.sessions[t].id, side) := src][k] == w.bound[k]
  {
    hide SessionInv;
    hide RoutesInv;
    hide ForwardedOnce;
    hide ForwardedToPeer;
    hide SessionsMetered;
    var s := w.sessions[t].Bind(side, src);
    var bound := w.bound[(s.id, side) := src];
    BindingsGrow(w, t, side, src);
    assert SessionInv(w.sessions[t := s][t], bound, w.trace);
    BoundAddresses(s, bound, w.trace);
    RoutesForInv(w.routes, t, s, now, w.issued, bound);
    assert w.issued[t] in w.issued.Values;
  }

  lemma BoundAddresses(s: Session, bound: map<(nat, Side), Addr>, trace: seq<Forwarded>)
    requires SessionInv(s, bound, trace)
    ensures forall side :: s.Bound(side).Some? ==> (s.id, side) in bound && bound[(s.id, side)] == s.Bound(side).value
  {
  }

  // ---------------------------------------------------------------------------
  // Forwarding
  // ---------------------------------------------------------------------------

  datatype Verdict = NoRoute | StaleRoute | OverBudget | NoSequence | Replayed | Pass(dest: Addr)

  /** Budget, payload and replay, in that order. */
  function JudgePacket(s: Session, r: Route, len: nat, sq: Option<nat>): Verdict {
    if s.bytesSent + len > BANDWIDTH_LIMIT_BPS then OverBudget
    else if sq.None? then NoSequence
    else if !s.Seen(r.side).Accepts(sq.value) then Replayed
    else Pass(r.dest)
  }

  predicate RouteIsLive(sessions: map<Token, Session>, r: Route, src: Addr, id: nat) {
    r.sessionId == id && r.token in sessions && sessions[r.token].id == id && sessions[r.token].Bound(r.side) == Some(src)
  }

  function Judge(sessions: map<Token, Session>, routes: map<Addr, Route>, src: Addr, id: nat, len: nat,
                 sq: Option<nat>, now: nat): Verdict
  {
    if src !in routes then NoRoute
    else if !RouteIsLive(sessions, routes[src], src, id) then StaleRoute
    else JudgePacket(sessions[routes[src].token].Tick(now), routes[src], len, sq)
  }

  /** Charging and recording one forwarded packet. */
  function Charged(s: Session, side: Side, len: nat, sq: nat): Session {
    s.WithSeen(side, s.Seen(side).Admit(sq)).(bytesSent := s.bytesSent + len)
  }

  /** What a verdict does to the sessions: a refused packet may still start a bandwidth window. */
  function SessionsAfter(sessions: map<Token, Session>, routes: map<Addr, Route>, src: Addr, v: Verdict, len: nat,
                         sq: Option<nat>, now: nat): map<Token, Session>
  {
    if v.NoRoute? || v.StaleRoute? || src !in routes || routes[src].token !in sessions then sessions
    else
      var r := routes[src];
      var s := sessions[r.token].Tick(now);
      sessions[r.token := if v.Pass? && sq.Some? then Charged(s, r.side, len, sq.value) else s]
  }

  /** What a verdict does to the routes: a stale one is dropped, a used one is refreshed. */
  function RoutesAfter(routes: map<Addr, Route>, src: Addr, v: Verdict, now: nat): map<Addr, Route> {
    if v.StaleRoute? then routes - {src}
    else if v.Pass? && src in routes then routes[src := routes[src].(lastSeen := now)]
    else routes
  }

  lemma TickKeepsInv(w: World, t: Token, now: nat)
    requires Inv(w) && t in w.sessions && now >= w.clock
    ensures Inv(w.(sessions := w.sessions[t := w.sessions[t].Tick(now)], clock := now))
  {
    hide Tracks;
    hide Metering;
    hide TraceInv;
    hide RoutesInv;
    var s := w.sessions[t];
    assert SessionInv(s, w.bound, w.trace);
    if now >= s.lastTick + SECOND {
      RollWindow(ChargesOf(w.trace, s.id), SECOND, BANDWIDTH_LIMIT_BPS, s.lastTick, s.bytesSent, now);
    }
    assert SessionInv(s.Tick(now), w.bound, w.trace);
  }

  lemma ProjectionsExtend(trace: seq<Forwarded>, f: Forwarded, id: nat)
    ensures ChargesOf(trace + [f], id)
         == ChargesOf(trace, id) + if f.sessionId == id then [Charge(f.at, f.len, f.window)] else []
    ensures forall side ::
              SequencesOf(trace + [f], id, side)
              == SequencesOf(trace, id, side) + if f.sessionId == id && f.side == side then {f.sq} else {}
  {
    assert (trace + [f])[..|trace|] == trace;
  }

  lemma OtherSessionUntouched(s: Session, bound: map<(nat, Side), Addr>, trace: seq<Forwarded>, f: Forwarded)
    requires SessionInv(s, bound, trace) && f.sessionId != s.id
    ensures SessionInv(s, bound, trace + [f])
  {
    hide Tracks;
    hide Metering;
    ProjectionsExtend(trace, f, s.id);
    assert ChargesOf(trace + [f], s.id) == ChargesOf(trace, s.id);
    assert forall side :: SequencesOf(trace + [f], s.id, side) == SequencesOf(trace, s.id, side);
  }

  /** The session that forwards: both its windows and its counter follow the trace. */
  lemma ForwardingSession(s: Session, bound: map<(nat, Side), Addr>, trace: seq<Forwarded>, f: Forwarded)
    requires SessionInv(s, bound, trace) && f.sessionId == s.id
    requires s.lastTick <= f.at < s.lastTick + SECOND && f.window == s.lastTick
    requires s.bytesSent + f.len <= BANDWIDTH_LIMIT_BPS
    requires f.sq < U64 && s.Seen(f.side).Accepts(f.sq)
    ensures SessionInv(Charged(s, f.side, f.len, f.sq), bound, trace + [f])
    ensures f.sq !in SequencesOf(trace, s.id, f.side)
  {
    hide Tracks;
    hide Metering;
    ProjectionsExtend(trace, f, s.id);
    var seen := SequencesOf(trace, s.id, f.side);
    assert SideInv(s, f.side, bound, trace) && SideInv(s, f.side.Other(), bound, trace);
    AdmitTracks(s.Seen(f.side), seen, f.sq);
    assert After(seen, s.Seen(f.side), f.sq) == SequencesOf(trace + [f], s.id, f.side);
    assert SequencesOf(trace + [f], s.id, f.side.Other()) == SequencesOf(trace, s.id, f.side.Other());
    Spend(ChargesOf(trace, s.id), SECOND, BANDWIDTH_LIMIT_BPS, s.lastTick, s.bytesSent, f.at, f.len);
    AdmitKeepsSize(s.Seen(f.side), f.sq);
    var s' := Charged(s, f.side, f.len, f.sq);
    assert SideInv(s', f.side, bound, trace + [f]);
    assert SideInv(s', f.side.Other(), bound, trace + [f]);
  }

  lemma AdmitKeepsSize(w: Window, sq: nat)
    ensures w.Admit(sq).size == w.size
  {
  }

  lemma TraceExtends(trace: seq<Forwarded>, bound: map<(nat, Side), Addr>, f: Forwarded)
    requires ForwardedOnce(trace) && ForwardedToPeer(trace, bound)
    requires f.sq !in SequencesOf(trace, f.sessionId, f.side)
    requires (f.sessionId, f.side) in bound && bound[(f.sessionId, f.side)] == f.src
    requires (f.sessionId, f.side.Other()) in bound && bound[(f.sessionId, f.side.Other())] == f.dest
    ensures ForwardedOnce(trace + [f]) && ForwardedToPeer(trace + [f], bound)
  {
    SequencesMember(trace, f.sessionId, f.side, f.sq);
    assert forall i | 0 <= i < |trace| :: !Sends(trace[i], f.sessionId, f.side, f.sq);
  }

  lemma MeterExtends(trace: seq<Forwarded>, f: Forwarded)
    requires SessionsMetered(trace)
    requires WellSpaced(ChargesOf(trace + [f], f.sessionId), SECOND)
    requires WithinLimit(ChargesOf(trace + [f], f.sessionId), BANDWIDTH_LIMIT_BPS)
    ensures SessionsMetered(trace + [f])
  {
    hide WellSpaced;
    hide WithinLimit;
    forall id
      ensures WellSpaced(ChargesOf(trace + [f], id), SECOND)
      ensures WithinLimit(ChargesOf(trace + [f], id), BANDWIDTH_LIMIT_BPS)
    {
      ProjectionsExtend(trace, f, id);
      if id != f.sessionId {
        assert WellSpaced(ChargesOf(trace, id), SECOND);
        assert ChargesOf(trace + [f], id) == ChargesOf(trace, id);
      }
    }
  }

  /** `f` is the packet that session `t` would forward from `src` now. */
  ghost predicate Forwards(w: World, src: Addr, t: Token, f: Forwarded) {
    && src in w.routes && w.routes[src].token == t && t in w.sessions
    && var s := w.sessions[t];
       var r := w.routes[src];
       && f == Forwarded(s.id, r.side, f.sq, src, r.dest, f.len, w.clock, s.lastTick)
       && w.clock < s.lastTick + SECOND
       && s.bytesSent + f.len <= BANDWIDTH_LIMIT_BPS
       && f.sq < U64 && s.Seen(r.side).Accepts(f.sq)
  }

  lemma ForwardKeepsSessions(w: World, src: Addr, t: Token, f: Forwarded)
    requires Inv(w) && Forwards(w, src, t, f)
    ensures var s' := Charged(w.sessions[t], f.side, f.len, f.sq);
            && SessionInv(s', w.bound, w.trace + [f])
            && SessionsInv(w.sessions[t := s'], w.bound, w.trace + [f])
            && f.sq !in SequencesOf(w.trace, f.sessionId, f.side)
  {
    hide RoutesInv;
    hide TraceInv;
    hide SessionInv;
    hide SequencesOf;
    var s := w.sessions[t];
    assert SessionInv(s, w.bound, w.trace);
    ForwardingSession(s, w.bound, w.trace, f);
    forall u <- w.sessions | u != t
      ensures SessionInv(w.sessions[u], w.bound, w.trace + [f])
    {
      assert w.sessions[u].id != s.id;
      assert SessionInv(w.sessions[u], w.bound, w.trace);
      OtherSessionUntouched(w.sessions[u], w.bound, w.trace, f);
    }
  }

  lemma ForwardKeepsTrace(w: World, src: Addr, t: Token, f: Forwarded)
    requires Inv(w) && Forwards(w, src, t, f)
    requires SessionInv(Charged(w.sessions[t], f.side, f.len, f.sq), w.bound, w.trace + [f])
    requires f.sq !in SequencesOf(w.trace, f.sessionId, f.side)
    ensures TraceInv(w.trace + [f], w.bound)
    ensures RoutesInv(w.routes[src := w.routes[src].(lastSeen := w.clock)], w.issued, w.bound)
  {
    hide SideInv;
    hide WellSpaced;
    hide WithinLimit;
    hide ForwardedOnce;
    hide ForwardedToPeer;
    hide SessionsMetered;
    hide SessionsInv;
    var r := w.routes[src];
    assert RouteInv(src, r, w.issued, w.bound);
    assert w.sessions[t].id == r.sessionId;
    TraceExtends(w.trace, w.bound, f);
    MeterExtends(w.trace, f);
  }

  /** Forwarding one packet keeps the invariant. */
  lemma ForwardKeepsInv(w: World, src: Addr, t: Token, f: Forwarded)
    requires Inv(w) && Forwards(w, src, t, f)
    ensures Inv(w.(sessions := w.sessions[t := Charged(w.sessions[t], f.side, f.len, f.sq)],
                   routes := w.routes[src := w.routes[src].(lastSeen := w.clock)],
                   trace := w.trace + [f]))
  {
    hide SessionsInv;
    hide SessionInv;
    hide RoutesInv;
    hide TraceInv;
    hide SequencesOf;
    ForwardKeepsSessions(w, src, t, f);
    ForwardKeepsTrace(w, src, t, f);
  }

  lemma {:induction false} NothingForwarded(trace: seq<Forwarded>, id: nat)
    requires forall i | 0 <= i < |trace| :: trace[i].sessionId != id
    ensures ChargesOf(trace, id) == []
    ensures SequencesOf(trace, id, HostSide) == {} && SequencesOf(trace, id, ClientSide) == {}
  {
    if trace != [] {
      NothingForwarded(trace[..|trace| - 1], id);
    }
  }

  function NewSession(id: nat, now: nat): Session {
    Session(id, None, None, now, 0, now, NewWindow(), NewWindow())
  }

  /** A session whose id never appeared starts with nothing seen and nothing spent. */
  lemma NewSessionInv(w: World, id: nat)
    requires IdsInv(w) && TraceInv(w.trace, w.bound) && id !in w.issued.Values
    ensures SessionInv(NewSession(id, w.clock), w.bound, w.trace)
  {
    assert forall i | 0 <= i < |w.trace| :: (w.trace[i].sessionId, w.trace[i].side) in w.bound;
    assert forall i | 0 <= i < |w.trace| :: w.trace[i].sessionId != id;
    NothingForwarded(w.trace, id);
  }

  lemma IssueKeepsIds(w: World, token: Token, id: nat)
    requires IdsInv(w) && token !in w.issued && id !in w.issued.Values
    ensures IdsInv(w.(sessions := w.sessions[token := NewSession(id, w.clock)], issued := w.issued[token := id]))
  {
    var issued := w.issued[token := id];
    assert forall t <- w.issued :: w.issued[t] in w.issued.Values;
    forall k <- w.bound
      ensures k.0 in issued.Values
    {
      var t :| t in w.issued && w.issued[t] == k.0;
      assert issued[t] == k.0;
    }
  }

  lemma IssueKeepsRoutes(routes: map<Addr, Route>, issued: map<Token, nat>, bound: map<(nat, Side), Addr>, token: Token,
                         id: nat)
    requires RoutesInv(routes, issued, bound) && token !in issued
    ensures RoutesInv(routes, issued[token := id], bound)
  {
  }

  lemma CreateKeepsInv(w: World, token: Token, id: nat)
    requires Inv(w) && token !in w.issued && id !in w.issued.Values
    ensures Inv(w.(sessions := w.sessions[token := NewSession(id, w.clock)], issued := w.issued[token := id]))
  {
    hide SessionInv;
    hide TraceInv;
    hide IdsInv;
    hide RoutesInv;
    NewSessionInv(w, id);
    IssueKeepsIds(w, token, id);
    IssueKeepsRoutes(w.routes, w.issued, w.bound, token, id);
  }

  /** Dropping sessions or routes, and the passing of time. */
  lemma ShrinkKeepsInv(w: World, sessions: map<Token, Session>, routes: map<Addr, Route>, now: nat)
    requires Inv(w) && now >= w.clock
    requires forall t <- sessions :: t in w.sessions && sessions[t] == w.sessions[t]
    requires forall a <- routes :: a in w.routes && routes[a] == w.routes[a]
    ensures Inv(w.(sessions := sessions, routes := routes, clock := now))
  {
  }

  // ---------------------------------------------------------------------------
  // Steps and runs
  // ---------------------------------------------------------------------------

  datatype LeaseReply = Ack | Reject(reason: RejectReason)

  datatype RejectReason = InvalidSignature | WrongRelay | SessionFull

  /** A decoded lease payload with a well-formed token. */
  datatype Lease = Lease(role: PeerRole, token: Token)

  datatype Step =
    | Create(token: Token, id: nat, ttl: nat, limit: nat, now: nat)
    | Expire(gone: set<Token>, now: nat)
    | CleanUp(now: nat)
    | Present(src: Addr, sessionId: nat, lease: Option<Lease>, now: nat)
    | Forward(src: Addr, sessionId: nat, packet: Bytes, now: nat)

  /** Time does not go back, tokens and ids are drawn once, and a packet to forward has its relay header. */
  ghost predicate Enabled(w: World, step: Step) {
    && w.clock <= step.now
    && (step.Create? ==> step.token !in w.issued && step.id !in w.issued.Values)
    && (step.Forward? ==> RELAY_HEADER_SIZE <= |step.packet|)
  }

  function Unexpired(sessions: map<Token, Session>, ttl: nat, now: nat): map<Token, Session> {
    map t | t in sessions && SatSub(now, sessions[t].createdAt) < ttl :: sessions[t]
  }

  function InUse(routes: map<Addr, Route>, now: nat): map<Addr, Route> {
    map a | a in routes && SatSub(now, routes[a].lastSeen) <= ROUTE_IDLE_TIMEOUT :: routes[a]
  }

  ghost function AfterCreate(w: World, token: Token, id: nat, ttl: nat, limit: nat, now: nat): World {
    var live := Unexpired(w.sessions, ttl, now);
    if |live| >= limit then w.(sessions := live, clock := now)
    else w.(sessions := live[token := NewSession(id, now)], issued := w.issued[token := id], clock := now)
  }

  function ReplyTo(sessions: map<Token, Session>, src: Addr, sessionId: nat, lease: Option<Lease>): LeaseReply {
    if lease.None? || lease.value.token !in sessions then Reject(InvalidSignature)
    else if sessions[lease.value.token].id != sessionId then Reject(WrongRelay)
    else if LeaseSide(sessions[lease.value.token], lease.value.role, src).None? then Reject(SessionFull)
    else Ack
  }

  ghost function AfterPresent(w: World, src: Addr, sessionId: nat, lease: Option<Lease>, now: nat): World {
    if ReplyTo(w.sessions, src, sessionId, lease) != Ack then w.(clock := now)
    else
      var t := lease.value.token;
      var side := LeaseSide(w.sessions[t], lease.value.role, src).value;
      var s := w.sessions[t].Bind(side, src);
      World(w.sessions[t := s], RoutesFor(w.routes, t, s, now), w.issued,
            w.bound[(s.id, side) := src], w.trace, now)
  }

  /** The packet that leaves, if the verdict lets one through. */
  ghost function Outgoing(w: World, src: Addr, v: Verdict, len: nat, sq: Option<nat>, now: nat): seq<Forwarded> {
    if v.Pass? && sq.Some? && src in w.routes && w.routes[src].token in w.sessions then
      var r := w.routes[src];
      var s := w.sessions[r.token].Tick(now);
      [Forwarded(s.id, r.side, sq.value, src, r.dest, len, now, s.lastTick)]
    else []
  }

  ghost function AfterVerdict(w: World, src: Addr, v: Verdict, len: nat, sq: Option<nat>, now: nat): World {
    World(SessionsAfter(w.sessions, w.routes, src, v, len, sq, now), RoutesAfter(w.routes, src, v, now),
          w.issued, w.bound, w.trace + Outgoing(w, src, v, len, sq, now), now)
  }

  ghost function Next(w: World, step: Step, crc: Crc): World
    requires Enabled(w, step)
  {
    match step
    case Create(token, id, ttl, limit, now) => AfterCreate(w, token, id, ttl, limit, now)
    case Expire(gone, now) => w.(sessions := w.sessions - gone, clock := now)
    case CleanUp(now) => w.(routes := InUse(w.routes, now), clock := now)
    case Present(src, sessionId, lease, now) => AfterPresent(w, src, sessionId, lease, now)
    case Forward(src, sessionId, packet, now) =>
      var sq := ExtractForwardSequence(packet[RELAY_HEADER_SIZE..], crc);
      AfterVerdict(w, src, Judge(w.sessions, w.routes, src, sessionId, |packet|, sq, now), |packet|, sq, now)
  }

  lemma CreateStepKeepsInv(w: World, token: Token, id: nat, ttl: nat, limit: nat, now: nat)
    requires Inv(w) && now >= w.clock && token !in w.issued && id !in w.issued.Values
    ensures Inv(AfterCreate(w, token, id, ttl, limit, now))
  {
    hide Inv;
    var live := Unexpired(w.sessions, ttl, now);
    ShrinkKeepsInv(w, live, w.routes, now);
    CreateKeepsInv(w.(sessions := live, clock := now), token, id);
  }

  lemma PresentKeepsInv(w: World, src: Addr, sessionId: nat, lease: Option<Lease>, now: nat)
    requires Inv(w) && now >= w.clock
    ensures Inv(AfterPresent(w, src, sessionId, lease, now))
    ensures forall k <- w.bound ::
              k in AfterPresent(w, src, sessionId, lease, now).bound
              && AfterPresent(w, src, sessionId, lease, now).bound[k] == w.bound[k]
  {
    hide Inv;
    if ReplyTo(w.sessions, src, sessionId, lease) != Ack {
      ShrinkKeepsInv(w, w.sessions, w.routes, now);
    } else {
      var t := lease.value.token;
      LeaseKeepsInv(w, t, LeaseSide(w.sessions[t], lease.value.role, src).value, src, now);
    }
  }

  lemma VerdictKeepsInv(w: World, src: Addr, id: nat, len: nat, sq: Option<nat>, now: nat)
    requires Inv(w) && now >= w.clock && (sq.Some? ==> sq.value < U64)
    ensures Inv(AfterVerdict(w, src, Judge(w.sessions, w.routes, src, id, len, sq, now), len, sq, now))
  {
    hide Inv;
    var v := Judge(w.sessions, w.routes, src, id, len, sq, now);
    var after := AfterVerdict(w, src, v, len, sq, now);
    if v.NoRoute? || v.StaleRoute? {
      ShrinkKeepsInv(w, w.sessions, RoutesAfter(w.routes, src, v, now), now);
      assert after == w.(routes := RoutesAfter(w.routes, src, v, now), clock := now);
    } else {
      var t := w.routes[src].token;
      var ticked := w.(sessions := w.sessions[t := w.sessions[t].Tick(now)], clock := now);
      TickKeepsInv(w, t, now);
      if v.Pass? {
        var f := Outgoing(w, src, v, len, sq, now)[0];
        ForwardKeepsInv(ticked, src, t, f);
        var s := Charged(ticked.sessions[t], f.side, len, f.sq);
        assert ticked.sessions[t := s] == w.sessions[t := s];
        assert after == ticked.(sessions := ticked.sessions[t := s],
                                routes := ticked.routes[src := ticked.routes[src].(lastSeen := now)],
                                trace := ticked.trace + [f]);
      } else {
        assert after == ticked;
      }
    }
  }

  /** Every step keeps the invariant, and an address once bound stays bound. */
  lemma NextKeepsInv(w: World, step: Step, crc: Crc)
    requires Inv(w) && Enabled(w, step)
    ensures Inv(Next(w, step, crc))
    ensures forall k <- w.bound :: k in Next(w, step, crc).bound && Next(w, step, crc).bound[k] == w.bound[k]
  {
    hide Inv;
    hide AfterPresent;
    match step
    case Create(token, id, ttl, limit, now) => CreateStepKeepsInv(w, token, id, ttl, limit, now);
    case Expire(gone, now) => ShrinkKeepsInv(w, w.sessions - gone, w.routes, now);
    case CleanUp(now) => ShrinkKeepsInv(w, w.sessions, InUse(w.routes, now), now);
    case Present(src, sessionId, lease, now) => PresentKeepsInv(w, src, sessionId, lease, now);
    case Forward(src, sessionId, packet, now) =>
      var payload := packet[RELAY_HEADER_SIZE..];
      SequenceInRange(payload, crc);
      VerdictKeepsInv(w, src, sessionId, |packet|, ExtractForwardSequence(payload, crc), now);
  }

  const START: World := World(map[], map[], map[], map[], [], 0)

  /** Where a run from the empty relay ends, if each of its steps was enabled. */
  ghost function Reach(steps: seq<Step>, crc: Crc): Option<World> {
    if steps == [] then Some(START)
    else
      var n := |steps| - 1;
      match Reach(steps[..n], crc)
      case None => None
      case Some(w) => if Enabled(w, steps[n]) then Some(Next(w, steps[n], crc)) else None
  }

  /** Every run keeps the invariant. */
  lemma {:induction false} RunKeepsInv(steps: seq<Step>, crc: Crc)
    requires Reach(steps, crc).Some?
    ensures Inv(Reach(steps, crc).value)
  {
    hide Next;
    hide Enabled;
    if steps != [] {
      var n := |steps| - 1;
      RunKeepsInv(steps[..n], crc);
      NextKeepsInv(Reach(steps[..n], crc).value, steps[n], crc);
    } else {
      StartInv();
    }
  }

  lemma StartInv()
    ensures Inv(START)
  {
  }

  /** Over any run, an address once bound to a side of a session is never moved. */
  lemma {:induction false} BindingsPersist(steps: seq<Step>, crc: Crc, n: nat, k: (nat, Side))
    requires Reach(steps, crc).Some? && n <= |steps|
    requires Reach(steps[..n], crc).Some? && k in Reach(steps[..n], crc).value.bound
    ensures k in Reach(steps, crc).value.bound
    ensures Reach(steps, crc).value.bound[k] == Reach(steps[..n], crc).value.bound[k]
    decreases |steps|
  {
    hide Next;
    hide Enabled;
    hide Inv;
    if n == |steps| {
      assert steps[..n] == steps;
    } else {
      var m := |steps| - 1;
      assert steps[..m][..n] == steps[..n];
      BindingsPersist(steps[..m], crc, n, k);
      RunKeepsInv(steps[..m], crc);
      NextKeepsInv(Reach(steps[..m], crc).value, steps[m], crc);
    }
  }

  /**
   Over any run, every packet ever forwarded went from the address bound on its own side to
   the address bound on the other side of the same session, and no other packet of that
   session and side carried the same sequence number.
   */
  lemma ForwardedSafely(steps: seq<Step>, crc: Crc, i: nat)
    requires Reach(steps, crc).Some? && i < |Reach(steps, crc).value.trace|
    ensures var w := Reach(steps, crc).value;
            var f := w.trace[i];
            && (f.sessionId, f.side) in w.bound && w.bound[(f.sessionId, f.side)] == f.src
            && (f.sessionId, f.side.Other()) in w.bound && w.bound[(f.sessionId, f.side.Other())] == f.dest
            && forall j | 0 <= j < |w.trace| && j != i :: !Sends(w.trace[j], f.sessionId, f.side, f.sq)
  {
    RunKeepsInv(steps, crc);
  }

  /**
   Over any run, for every session that ever existed: no half-open second, wherever it
   starts, carries more than twice the bandwidth limit.
   */
  lemma BandwidthOverAnySecond(steps: seq<Step>, crc: Crc, id: nat, lo: nat)
    requires Reach(steps, crc).Some?
    ensures IntervalSum(ChargesOf(Reach(steps, crc).value.trace, id), lo, lo + SECOND) <= 2 * BANDWIDTH_LIMIT_BPS
  {
    hide Reach;
    hide Next;
    hide IntervalSum;
    hide WellSpaced;
    hide WithinLimit;
    hide ChargesOf;
    RunKeepsInv(steps, crc);
    var charges := ChargesOf(Reach(steps, crc).value.trace, id);
    assert WellSpaced(charges, SECOND);
    TwiceTheLimit(charges, SECOND, BANDWIDTH_LIMIT_BPS, lo);
  }

  /** Over any run, no accounting window of any session carries more than the bandwidth limit. */
  lemma BandwidthPerWindow(steps: seq<Step>, crc: Crc, id: nat, window: nat)
    requires Reach(steps, crc).Some?
    ensures WindowSum(ChargesOf(Reach(steps, crc).value.trace, id), window) <= BANDWIDTH_LIMIT_BPS
  {
    hide Reach;
    hide Next;
    hide WindowSum;
    hide WellSpaced;
    hide ChargesOf;
    RunKeepsInv(steps, crc);
    assert WithinLimit(ChargesOf(Reach(steps, crc).value.trace, id), BANDWIDTH_LIMIT_BPS);
  }

  /**
   After any run, what a live session remembers as seen is exactly what was forwarded: a
   number the window would refuse as repeated has a forwarded packet behind it, and
   conversely.
   */
  lemma SeenMeansForwarded(steps: seq<Step>, crc: Crc, t: Token, side: Side, sq: nat)
    requires Reach(steps, crc).Some? && t in Reach(steps, crc).value.sessions
    requires Reach(steps, crc).value.sessions[t].Seen(side).highest < sq + WORD
    ensures var w := Reach(steps, crc).value;
            sq in w.sessions[t].Seen(side).seen
            <==> exists i :: 0 <= i < |w.trace| && Sends(w.trace[i], w.sessions[t].id, side, sq)
  {
    hide Reach;
    hide Next;
    hide SequencesOf;
    var w := Reach(steps, crc).value;
    RunKeepsInv(steps, crc);
    assert SessionInv(w.sessions[t], w.bound, w.trace);
    assert SideInv(w.sessions[t], side, w.bound, w.trace);
    SequencesMember(w.trace, w.sessions[t].id, side, sq);
  }

  // ---------------------------------------------------------------------------
  // The relay
  // ---------------------------------------------------------------------------

  class RelayServer {
    var sessions: map<Token, Session>
    var routes: map<Addr, Route>
    const crc: Crc
    ghost var issued: map<Token, nat>
    ghost var bound: map<(nat, Side), Addr>
    ghost var trace: seq<Forwarded>
    ghost var clock: nat

    ghost function State(): World
      reads this
    {
      World(sessions, routes, issued, bound, trace, clock)
    }

    constructor (crc: Crc)
      ensures Inv(State()) && State() == START && this.crc == crc
    {
      this.crc := crc;
      sessions, routes := map[], map[];
      issued, bound, trace, clock := map[], map[], [], 0;
    }

    /** A signaling client asks for a session; token and id are new. */
    method CreateSession(token: Token, id: nat, ttl: nat, limit: nat, now: nat) returns (ok: bool)
      requires Inv(State()) && Enabled(State(), Create(token, id, ttl, limit, now))
      modifies this
      ensures Inv(State()) && State() == Next(old(State()), Create(token, id, ttl, limit, now), crc)
      ensures ok <==> |Unexpired(old(sessions), ttl, now)| < limit
    {
      hide Inv;
      NextKeepsInv(State(), Create(token, id, ttl, limit, now), crc);
      clock := now;
      sessions := map t | t in sessions && SatSub(now, sessions[t].createdAt) < ttl :: sessions[t];
      if |sessions| >= limit {
        return false;
      }
      sessions := sessions[token := NewSession(id, now)];
      issued := issued[token := id];
      return true;
    }

    /** The periodic cleanup may drop any sessions. */
    method ExpireSessions(gone: set<Token>, now: nat)
      requires Inv(State()) && now >= clock
      modifies this
      ensures Inv(State()) && State() == Next(old(State()), Expire(gone, now), crc)
    {
      hide Inv;
      NextKeepsInv(State(), Expire(gone, now), crc);
      sessions := sessions - gone;
      clock := now;
    }

    method CleanupRoutes(now: nat)
      requires Inv(State()) && now >= clock
      modifies this
      ensures Inv(State()) && State() == Next(old(State()), CleanUp(now), crc)
    {
      hide Inv;
      NextKeepsInv(State(), CleanUp(now), crc);
      routes := map a | a in routes && SatSub(now, routes[a].lastSeen) <= ROUTE_IDLE_TIMEOUT :: routes[a];
      clock := now;
    }

    /**
     A lease binds the presenting address to one side and never moves an address already
     bound; once both sides are bound, the two routes point at each other.
     */
    method HandleLease(src: Addr, sessionId: nat, lease: Option<Lease>, now: nat) returns (reply: LeaseReply)
      requires Inv(State()) && now >= clock
      modifies this`sessions, this`routes, this`bound, this`clock
      ensures Inv(State()) && State() == Next(old(State()), Present(src, sessionId, lease, now), crc)
      ensures forall k <- old(bound) :: k in bound && bound[k] == old(bound)[k]
      ensures reply == ReplyTo(old(sessions), src, sessionId, lease)
    {
      hide Inv;
      NextKeepsInv(State(), Present(src, sessionId, lease, now), crc);
      clock := now;
      if lease.None? || lease.value.token !in sessions {
        return Reject(InvalidSignature);
      }
      var t := lease.value.token;
      if sessions[t].id != sessionId {
        return Reject(WrongRelay);
      }
      ghost var side := LeaseSide(sessions[t], lease.value.role, src);
      var session := sessions[t];
      var ok;
      match lease.value.role {
        case Server =>
          session, ok := BindSide(session, HostSide, src);
          if !ok && session.clientAddr.None? {
            session, ok := BindSide(session, ClientSide, src);
          }
        case Client =>
          session, ok := BindSide(session, ClientSide, src);
          if !ok && session.hostAddr.None? {
            session, ok := BindSide(session, HostSide, src);
          }
      }
      if !ok {
        return Reject(SessionFull);
      }
      bound := bound[(session.id, side.value) := src];
      sessions := sessions[t := session];
      if session.hostAddr.Some? && session.clientAddr.Some? {
        var host, client := session.hostAddr.value, session.clientAddr.value;
        routes := routes[host := Route(t, session.id, HostSide, client, now)];
        routes := routes[client := Route(t, session.id, ClientSide, host, now)];
      }
      return Ack;
    }

    /** `bind_host` and `bind_client`. */
    method BindSide(session: Session, side: Side, src: Addr) returns (bound': Session, ok: bool)
      ensures ok <==> Holds(session, side, src)
      ensures bound' == if ok then session.Bind(side, src) else session
    {
      match session.Bound(side) {
        case None => return session.Bind(side, src), true;
        case Some(addr) => return session, addr == src;
      }
    }

    /**
     One packet in, at most one packet out. It goes out exactly when the verdict is Pass,
     and then to the peer bound on the other side; every refusal leaves the replay windows
     and the trace as they were.
     */
    method HandleForward(src: Addr, sessionId: nat, packet: Bytes, now: nat) returns (sentTo: Option<Addr>)
      requires Inv(State()) && now >= clock
      requires |packet| >= RELAY_HEADER_SIZE
      modifies this`sessions, this`routes, this`trace, this`clock
      ensures Inv(State()) && State() == Next(old(State()), Forward(src, sessionId, packet, now), crc)
      ensures if sentTo.Some?
              then |trace| == |old(trace)| + 1 && trace[|old(trace)|].dest == sentTo.value && old(trace) <= trace
              else trace == old(trace)
    {
      hide Inv;
      NextKeepsInv(State(), Forward(src, sessionId, packet, now), crc);
      assert trace + [] == trace;
      hide ExtractForwardSequence;
      if src !in routes {
        clock := now;
        return None;
      }
      var route := routes[src];
      if route.sessionId != sessionId {
        routes := routes - {src};
        clock := now;
        return None;
      }
      if route.token !in sessions {
        routes := routes - {src};
        clock := now;
        return None;
      }
      var session := sessions[route.token];
      if session.id != sessionId || session.Bound(route.side) != Some(src) {
        routes := routes - {src};
        clock := now;
        return None;
      }
      sentTo := ForwardOn(src, packet, now);
    }

    /** The part of forwarding that follows a live route. */
    method ForwardOn(src: Addr, packet: Bytes, now: nat) returns (sentTo: Option<Addr>)
      requires |packet| >= RELAY_HEADER_SIZE && src in routes && routes[src].token in sessions
      modifies this`sessions, this`routes, this`trace, this`clock
      ensures var sq := ExtractForwardSequence(packet[RELAY_HEADER_SIZE..], crc);
              var verdict := JudgePacket(old(sessions)[old(routes)[src].token].Tick(now), old(routes)[src], |packet|, sq);
              && sentTo == (if verdict.Pass? then Some(verdict.dest) else None)
              && State() == AfterVerdict(old(State()), src, verdict, |packet|, sq, now)
    {
      hide ExtractForwardSequence;
      assert trace + [] == trace;
      var route := routes[src];
      var session := sessions[route.token];
      clock := now;
      if SatSub(now, session.lastTick) >= SECOND {
        session := session.(bytesSent := 0, lastTick := now);
      }
      sessions := sessions[route.token := session];
      if session.bytesSent + |packet| > BANDWIDTH_LIMIT_BPS {
        return None;
      }
      var sq := ExtractForwardSequence(packet[RELAY_HEADER_SIZE..], crc);
      if sq.None? {
        return None;
      }
      var seqWindow := session.Seen(route.side);
      if !seqWindow.Accepts(sq.value) {
        return None;
      }
      trace := trace + [Forwarded(session.id, route.side, sq.value, src, route.dest, |packet|, now, session.lastTick)];
      session := session.WithSeen(route.side, seqWindow.Admit(sq.value)).(bytesSent := session.bytesSent + |packet|);
      sessions := sessions[route.token := session];
      routes := routes[src := route.(lastSeen := now)];
      return Some(route.dest);
    }
  }
}
