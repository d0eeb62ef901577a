/** Routing frames to connections: who is active, which address leads where, which
    identifiers are resting, and which frames arrived too early. */
module RouterModel {
  import opened Bits
  import opened Options
  import opened Bytes
  import opened Frames
  import opened Datagrams

  datatype SocketAddr = SocketAddr(ip: nat, port: U16)

  type Cid = U32

  /** What stays fixed: how addresses are hashed and how long an identifier rests. */
  datatype Setup = Setup(hash: SocketAddr -> U64, drainTimeout: nat)

  datatype PendingFrame = PendingFrame(frame: Frame, addr: SocketAddr, arrivalTime: nat)

  /** A frame put into the channel of a connection. */
  datatype Handed = Handed(cid: Cid, frame: Frame, addr: SocketAddr)

  datatype Router = Router(
    /** The active connections, and whether the receiving end of their channel is still there. */
    active: map<Cid, bool>,
    routes: map<SocketAddr, Cid>,
    /** When each resting identifier was retired. */
    draining: map<Cid, nat>,
    pending: map<nat, seq<PendingFrame>>,
    handed: seq<Handed>)

  datatype RoutingResult = Dispatched | ConnectionNotFound | ConnectionDraining | FrameCached

  function DestinationCid(f: Frame): Cid {
    match f
    case SynFrame(h) => h.destinationCid
    case SynAckFrame(h) => h.destinationCid
    case _ => f.header.connectionId
  }

  // --- early frames

  const HIGH_BIT: nat := 0x8000_0000_0000_0000

  /** The address key: the hash with its highest bit set. */
  function AddressKey(s: Setup, addr: SocketAddr): (k: nat)
    ensures HIGH_BIT <= k < U64_LIMIT
  {
    var h := s.hash(addr);
    if h < HIGH_BIT then h + HIGH_BIT else h
  }

  function CacheKey(s: Setup, cid: Cid, addr: SocketAddr): nat {
    if cid != 0 then cid else AddressKey(s, addr)
  }

  /** No identifier shares its key with an address; identifiers have keys of their own. */
  lemma KeysApart(s: Setup, cid: Cid, addr: SocketAddr, other: Cid, otherAddr: SocketAddr)
    requires CacheKey(s, cid, addr) == CacheKey(s, other, otherAddr)
    ensures cid == other
  {
  }

  /** Two early frames share a key exactly if they name the same identifier, or both none and
      their addresses have hashes that agree in all but the highest bit. */
  lemma SameKeyIff(s: Setup, cid: Cid, addr: SocketAddr, other: Cid, otherAddr: SocketAddr)
    ensures CacheKey(s, cid, addr) == CacheKey(s, other, otherAddr)
            <==> cid == other && (cid == 0 ==>
                   s.hash(addr) % 0x8000_0000_0000_0000 == s.hash(otherAddr) % 0x8000_0000_0000_0000)
  {
    KeyKeepsHash(s, addr);
    KeyKeepsHash(s, otherAddr);
    if cid == other == 0 {
      var a, b := AddressKey(s, addr), AddressKey(s, otherAddr);
      assert a == HIGH_BIT + a % HIGH_BIT && b == HIGH_BIT + b % HIGH_BIT;
    }
  }

  lemma KeyKeepsHash(s: Setup, addr: SocketAddr)
    ensures AddressKey(s, addr) % HIGH_BIT == s.hash(addr) % HIGH_BIT
    ensures AddressKey(s, addr) == HIGH_BIT + AddressKey(s, addr) % HIGH_BIT
  {
    var h, k := s.hash(addr), AddressKey(s, addr);
    QuotientAndRemainder(k, HIGH_BIT, 1, k - HIGH_BIT);
    if h < HIGH_BIT { SmallMod(h, HIGH_BIT); }
  }

  function Cached(r: Router, key: nat): seq<PendingFrame> {
    if key in r.pending then r.pending[key] else []
  }

  function Matching(frames: seq<PendingFrame>, addr: SocketAddr): seq<PendingFrame> {
    if frames == [] then []
    else
      var last := frames[|frames| - 1];
      Matching(frames[..|frames| - 1], addr) + if last.addr == addr then [last] else []
  }

  function Others(frames: seq<PendingFrame>, addr: SocketAddr): seq<PendingFrame> {
    if frames == [] then []
    else
      var last := frames[|frames| - 1];
      Others(frames[..|frames| - 1], addr) + if last.addr == addr then [] else [last]
  }

  predicate AnyMatches(frames: seq<PendingFrame>, addr: SocketAddr) {
    exists i :: 0 <= i < |frames| && frames[i].addr == addr
  }

  /** The frames in front of the first match. */
  function BeforeMatch(frames: seq<PendingFrame>, addr: SocketAddr): (b: seq<PendingFrame>)
    ensures |b| <= |frames| && b == frames[..|b|] && !AnyMatches(b, addr)
    ensures |b| < |frames| ==> frames[|b|].addr == addr
  {
    if frames == [] || frames[0].addr == addr then []
    else
      var rest := BeforeMatch(frames[1..], addr);
      assert [frames[0]] + rest == frames[..|rest| + 1];
      [frames[0]] + rest
  }

  function Hand(cid: Cid, frames: seq<PendingFrame>): (h: seq<Handed>)
    ensures |h| == |frames|
  {
    seq(|frames|, i requires 0 <= i < |frames| => Handed(cid, frames[i].frame, frames[i].addr))
  }

  /** A key without frames is not kept. */
  function WithFrames(pending: map<nat, seq<PendingFrame>>, key: nat, frames: seq<PendingFrame>)
    : map<nat, seq<PendingFrame>>
  {
    if frames == [] then pending - {key} else pending[key := frames]
  }

  function WithCached(r: Router, key: nat, frames: seq<PendingFrame>): Router {
    r.(pending := WithFrames(r.pending, key, frames))
  }

  /** Empties the cache under one key towards a connection. Frames from other addresses are
      put back. A closed channel ends the loop at the first match and loses what follows. */
  function ForwardKey(r: Router, cid: Cid, addr: SocketAddr, open: bool, key: nat): Router {
    var frames := Cached(r, key);
    if open then WithCached(r, key, Others(frames, addr)).(handed := r.handed + Hand(cid, Matching(frames, addr)))
    else WithCached(r, key, BeforeMatch(frames, addr))
  }

  function ForwardCached(s: Setup, r: Router, cid: Cid, addr: SocketAddr): Router {
    if cid !in r.active then r
    else
      var open := r.active[cid];
      var r1 := if cid != 0 then ForwardKey(r, cid, addr, open, cid) else r;
      ForwardKey(r1, cid, addr, open, AddressKey(s, addr))
  }

  // --- the operations

  function Unrouted(routes: map<SocketAddr, Cid>, cid: Cid): map<SocketAddr, Cid> {
    map a | a in routes && routes[a] != cid :: routes[a]
  }

  function Remove(r: Router, cid: Cid, now: nat): Router {
    if cid !in r.active then r
    else r.(active := r.active - {cid}, routes := Unrouted(r.routes, cid), draining := r.draining[cid := now])
  }

  function Register(s: Setup, r: Router, cid: Cid, addr: SocketAddr, open: bool, now: nat): Router {
    var r1 := if addr in r.routes && r.routes[addr] != cid then Remove(r, r.routes[addr], now) else r;
    ForwardCached(s, r1.(active := r1.active[cid := open], routes := r1.routes[addr := cid]), cid, addr)
  }

  function UpdateAddress(r: Router, cid: Cid, newAddr: SocketAddr): Router {
    r.(routes := Unrouted(r.routes, cid)[newAddr := cid])
  }

  datatype Outcome = Outcome(router: Router, result: RoutingResult)

  function Send(r: Router, cid: Cid, frame: Frame, addr: SocketAddr, now: nat): Outcome
    requires cid in r.active
  {
    if r.active[cid] then Outcome(r.(handed := r.handed + [Handed(cid, frame, addr)]), Dispatched)
    else Outcome(Remove(r, cid, now), ConnectionNotFound)
  }

  function CacheFrame(s: Setup, r: Router, cid: Cid, frame: Frame, addr: SocketAddr, now: nat): Router {
    var key := CacheKey(s, cid, addr);
    r.(pending := r.pending[key := Cached(r, key) + [PendingFrame(frame, addr, now)]])
  }

  function Dispatch(s: Setup, r: Router, frame: Frame, addr: SocketAddr, now: nat): Outcome {
    var cid := DestinationCid(frame);
    if cid != 0 && cid in r.active then Send(r, cid, frame, addr, now)
    else if addr in r.routes && r.routes[addr] in r.active then Send(r, r.routes[addr], frame, addr, now)
    else
      var r1 := r.(routes := r.routes - {addr});
      if cid in r.draining then Outcome(r1, ConnectionDraining)
      else if frame.PushFrame? then Outcome(CacheFrame(s, r1, cid, frame, addr, now), FrameCached)
      else Outcome(r1, ConnectionNotFound)
  }

  function CleanupDraining(s: Setup, r: Router, now: nat): Router {
    r.(draining := map c | c in r.draining && Elapsed(r.draining[c], now) < s.drainTimeout :: r.draining[c])
  }

  function Recent(frames: seq<PendingFrame>, now: nat, maxAge: nat): seq<PendingFrame> {
    if frames == [] then []
    else
      var last := frames[|frames| - 1];
      Recent(frames[..|frames| - 1], now, maxAge) + if Elapsed(last.arrivalTime, now) < maxAge then [last] else []
  }

  function CleanupFrames(r: Router, now: nat, maxAge: nat): Router {
    r.(pending := map k | k in r.pending && Recent(r.pending[k], now, maxAge) != [] :: Recent(r.pending[k], now, maxAge))
  }

  // --- runs

  datatype Action =
    | FrameArrives(frame: Frame, addr: SocketAddr)
    | Open(cid: Cid, addr: SocketAddr, receiving: bool)
    | Migrate(cid: Cid, addr: SocketAddr)
    | Retire(cid: Cid)
    | EndpointDies(cid: Cid)
    | SweepDraining
    | SweepFrames(maxAge: nat)

  datatype Event = Event(action: Action, now: nat)

  /** New connections come with a freshly generated identifier, and only active connections
      change their address. */
  predicate Allowed(r: Router, a: Action) {
    && (a.Open? ==> a.cid !in r.active && a.cid !in r.draining)
    && (a.Migrate? ==> a.cid in r.active)
  }

  function Step(s: Setup, r: Router, e: Event): Router {
    if !Allowed(r, e.action) then r
    else
      match e.action
      case FrameArrives(frame, addr) => Dispatch(s, r, frame, addr, e.now).router
      case Open(cid, addr, receiving) => Register(s, r, cid, addr, receiving, e.now)
      case Migrate(cid, addr) => UpdateAddress(r, cid, addr)
      case Retire(cid) => Remove(r, cid, e.now)
      case EndpointDies(cid) => if cid in r.active then r.(active := r.active[cid := false]) else r
      case SweepDraining => CleanupDraining(s, r, e.now)
      case SweepFrames(maxAge) => CleanupFrames(r, e.now, maxAge)
  }

  function After(s: Setup, r: Router, events: seq<Event>): Router {
    if events == [] then r else Step(s, After(s, r, events[..|events| - 1]), events[|events| - 1])
  }

  function Fresh(): Router {
    Router(map[], map[], map[], map[], [])
  }

  // --- what every step keeps

  ghost predicate OneAddress(routes: map<SocketAddr, Cid>) {
    forall a, b :: a in routes && b in routes && routes[a] == routes[b] ==> a == b
  }

  ghost predicate RoutesActive(r: Router) {
    forall a :: a in r.routes ==> r.routes[a] in r.active
  }

  ghost predicate Apart(r: Router) {
    forall c :: c in r.active ==> c !in r.draining
  }

  /** Early frames are data frames, filed under their own key. */
  ghost predicate FiledRight(s: Setup, key: nat, frames: seq<PendingFrame>) {
    forall i :: 0 <= i < |frames| ==>
      frames[i].frame.PushFrame? && CacheKey(s, DestinationCid(frames[i].frame), frames[i].addr) == key
  }

  ghost predicate PendingOk(s: Setup, pending: map<nat, seq<PendingFrame>>) {
    forall k :: k in pending ==> pending[k] != [] && FiledRight(s, k, pending[k])
  }

  ghost predicate RoutingOk(r: Router) {
    OneAddress(r.routes) && RoutesActive(r) && Apart(r)
  }

  ghost predicate RouterOk(s: Setup, r: Router) {
    RoutingOk(r) && PendingOk(s, r.pending)
  }

  lemma RemoveKeepsRouting(r: Router, cid: Cid, now: nat)
    requires RoutingOk(r)
    ensures RoutingOk(Remove(r, cid, now))
  {
  }

  /** Forwarding early frames leaves the routing as it is. */
  lemma ForwardIgnoresRouting(s: Setup, r: Router, cid: Cid, addr: SocketAddr)
    ensures var q := ForwardCached(s, r, cid, addr);
            q.active == r.active && q.routes == r.routes && q.draining == r.draining
  {
    hide Matching, Others, BeforeMatch, Hand, WithFrames, AddressKey, Cached;
  }

  /** The identifier is not resting and no other address leads to it. */
  ghost predicate Unclaimed(r: Router, cid: Cid, addr: SocketAddr) {
    cid !in r.draining && forall a :: a in r.routes && r.routes[a] == cid ==> a == addr
  }

  /** Registering a connection keeps the routing sound if and only if its identifier is
      unclaimed, as every freshly generated one is. */
  lemma OpenKeepsRoutingIff(s: Setup, r: Router, cid: Cid, addr: SocketAddr, open: bool, now: nat)
    requires RoutingOk(r)
    ensures RoutingOk(Register(s, r, cid, addr, open, now)) <==> Unclaimed(r, cid, addr)
    ensures cid !in r.active && cid !in r.draining ==> Unclaimed(r, cid, addr)
  {
    hide ForwardCached, RoutingOk, Unclaimed, Remove;
    var r1 := if addr in r.routes && r.routes[addr] != cid then Remove(r, r.routes[addr], now) else r;
    if addr in r.routes {
      RemoveKeepsRouting(r, r.routes[addr], now);
      if r.routes[addr] != cid { OldHolderGoes(r, cid, addr, now); }
    }
    TakingAddressIff(r1, cid, addr, open);
    ForwardIgnoresRouting(s, r1.(active := r1.active[cid := open], routes := r1.routes[addr := cid]), cid, addr);
    RoutingIgnoresPending(r1.(active := r1.active[cid := open], routes := r1.routes[addr := cid]),
                          Register(s, r, cid, addr, open, now));
    FreshIsUnclaimed(r, cid, addr);
  }

  /** Retiring the previous holder of the address makes no difference to the claim. */
  lemma OldHolderGoes(r: Router, cid: Cid, addr: SocketAddr, now: nat)
    requires RoutingOk(r) && addr in r.routes && r.routes[addr] != cid
    ensures Unclaimed(Remove(r, r.routes[addr], now), cid, addr) <==> Unclaimed(r, cid, addr)
  {
    var q := Remove(r, r.routes[addr], now);
    assert forall a :: a in r.routes && r.routes[a] == cid <==> a in q.routes && q.routes[a] == cid;
  }

  lemma TakingAddressIff(r: Router, cid: Cid, addr: SocketAddr, open: bool)
    requires RoutingOk(r)
    ensures RoutingOk(r.(active := r.active[cid := open], routes := r.routes[addr := cid])) <==> Unclaimed(r, cid, addr)
  {
    var q := r.(active := r.active[cid := open], routes := r.routes[addr := cid]);
    assert addr in q.routes && cid in q.active;
    assert forall a :: a in r.routes && r.routes[a] == cid ==> a in q.routes && q.routes[a] == cid;
  }

  lemma RoutingIgnoresPending(r: Router, q: Router)
    requires q.active == r.active && q.routes == r.routes && q.draining == r.draining
    ensures RoutingOk(q) <==> RoutingOk(r)
  {
  }

  lemma FreshIsUnclaimed(r: Router, cid: Cid, addr: SocketAddr)
    requires RoutingOk(r)
    ensures cid !in r.active && cid !in r.draining ==> Unclaimed(r, cid, addr)
  {
  }

  /** Changing an address keeps the routing sound if and only if the connection is active:
      otherwise a route to nowhere is left behind. */
  lemma MigrationKeepsRoutingIff(r: Router, cid: Cid, newAddr: SocketAddr)
    requires RoutingOk(r)
    ensures RoutingOk(UpdateAddress(r, cid, newAddr)) <==> cid in r.active
  {
    assert newAddr in UpdateAddress(r, cid, newAddr).routes;
  }

  lemma {:induction false} PartsFiledRight(s: Setup, key: nat, frames: seq<PendingFrame>, addr: SocketAddr,
                                           now: nat, maxAge: nat)
    requires FiledRight(s, key, frames)
    ensures FiledRight(s, key, Others(frames, addr)) && FiledRight(s, key, Recent(frames, now, maxAge))
    decreases |frames|
  {
    hide CacheKey;
    if frames != [] { PartsFiledRight(s, key, frames[..|frames| - 1], addr, now, maxAge); }
  }

  lemma ForwardKeepsPending(s: Setup, r: Router, cid: Cid, addr: SocketAddr, open: bool, key: nat)
    requires PendingOk(s, r.pending)
    ensures PendingOk(s, ForwardKey(r, cid, addr, open, key).pending)
  {
    hide CacheKey, Others, BeforeMatch, Matching;
    PartsFiledRight(s, key, Cached(r, key), addr, 0, 0);
    assert BeforeMatch(Cached(r, key), addr) == Cached(r, key)[..|BeforeMatch(Cached(r, key), addr)|];
  }

  lemma OpenKeepsPending(s: Setup, r: Router, cid: Cid, addr: SocketAddr, open: bool, now: nat)
    requires PendingOk(s, r.pending)
    ensures PendingOk(s, Register(s, r, cid, addr, open, now).pending)
  {
    hide PendingOk, ForwardKey;
    var r1 := if addr in r.routes && r.routes[addr] != cid then Remove(r, r.routes[addr], now) else r;
    var r2 := r1.(active := r1.active[cid := open], routes := r1.routes[addr := cid]);
    var r3 := if cid != 0 then ForwardKey(r2, cid, addr, open, cid) else r2;
    ForwardKeepsPending(s, r2, cid, addr, open, cid);
    ForwardKeepsPending(s, r3, cid, addr, open, AddressKey(s, addr));
  }

  lemma CachingKeepsOk(s: Setup, r: Router, cid: Cid, frame: Frame, addr: SocketAddr, now: nat)
    requires RouterOk(s, r) && frame.PushFrame? && DestinationCid(frame) == cid
    ensures RouterOk(s, CacheFrame(s, r, cid, frame, addr, now))
  {
    hide AddressKey, DestinationCid;
  }

  lemma SendKeepsOk(s: Setup, r: Router, cid: Cid, frame: Frame, addr: SocketAddr, now: nat)
    requires RouterOk(s, r) && cid in r.active
    ensures RouterOk(s, Send(r, cid, frame, addr, now).router)
  {
    hide PendingOk, Remove;
    RemoveKeepsRouting(r, cid, now);
    RemoveIgnoresPending(r, cid, now);
  }

  lemma RemoveIgnoresPending(r: Router, cid: Cid, now: nat)
    ensures Remove(r, cid, now).pending == r.pending
  {
  }

  lemma ForgetRouteKeepsRouting(r: Router, addr: SocketAddr)
    requires RoutingOk(r)
    ensures RoutingOk(r.(routes := r.routes - {addr}))
  {
  }

  lemma DispatchKeepsOk(s: Setup, r: Router, frame: Frame, addr: SocketAddr, now: nat)
    requires RouterOk(s, r)
    ensures RouterOk(s, Dispatch(s, r, frame, addr, now).router)
  {
    hide CacheKey, DestinationCid, Send, PendingOk, OneAddress, RoutesActive, Apart;
    var cid := DestinationCid(frame);
    if cid != 0 && cid in r.active {
      SendKeepsOk(s, r, cid, frame, addr, now);
    } else if addr in r.routes && r.routes[addr] in r.active {
      SendKeepsOk(s, r, r.routes[addr], frame, addr, now);
    } else {
      ForgetRouteKeepsRouting(r, addr);
      if frame.PushFrame? { CachingKeepsOk(s, r.(routes := r.routes - {addr}), cid, frame, addr, now); }
    }
  }

  lemma SweepKeepsPending(s: Setup, r: Router, now: nat, maxAge: nat)
    requires PendingOk(s, r.pending)
    ensures PendingOk(s, CleanupFrames(r, now, maxAge).pending)
  {
    hide Recent, CacheKey;
    forall k | k in r.pending
      ensures FiledRight(s, k, Recent(r.pending[k], now, maxAge))
    {
      PartsFiledRight(s, k, r.pending[k], SocketAddr(0, 0), now, maxAge);
    }
  }

  lemma StepKeepsOk(s: Setup, r: Router, e: Event)
    requires RouterOk(s, r)
    ensures RouterOk(s, Step(s, r, e))
  {
    hide Dispatch, Register, CleanupFrames, PendingOk;
    if Allowed(r, e.action) {
      match e.action
      case FrameArrives(frame, addr) => DispatchKeepsOk(s, r, frame, addr, e.now);
      case Open(cid, addr, receiving) =>
        OpenKeepsRoutingIff(s, r, cid, addr, receiving, e.now);
        OpenKeepsPending(s, r, cid, addr, receiving, e.now);
      case Migrate(cid, addr) => MigrationKeepsRoutingIff(r, cid, addr);
      case Retire(cid) => RemoveKeepsRouting(r, cid, e.now);
      case EndpointDies(_) =>
      case SweepDraining =>
      case SweepFrames(maxAge) =>
        SweepKeepsPending(s, r, e.now, maxAge);
        SweepIgnoresRouting(r, e.now, maxAge);
    }
  }

  lemma SweepIgnoresRouting(r: Router, now: nat, maxAge: nat)
    ensures CleanupFrames(r, now, maxAge) == r.(pending := CleanupFrames(r, now, maxAge).pending)
  {
  }

  /** Over every run: an identifier is the target of at most one address, every route leads to
      an active connection, and no active identifier is resting. */
  lemma {:induction false} RunKeepsOk(s: Setup, events: seq<Event>)
    ensures RouterOk(s, After(s, Fresh(), events))
    decreases |events|
  {
    hide Step;
    if events != [] {
      RunKeepsOk(s, events[..|events| - 1]);
      StepKeepsOk(s, After(s, Fresh(), events[..|events| - 1]), events[|events| - 1]);
    }
  }

  // --- what the operations on routes come to

  /** Whether an address leads to a connection. */
  predicate LeadsTo(r: Router, addr: SocketAddr, cid: Cid) {
    addr in r.routes && r.routes[addr] == cid
  }

  /** A new connection takes over its address. Whoever had it is no longer active and rests;
      all other connections keep their activity, their channel and their address. */
  lemma OpenTakesAddress(s: Setup, r: Router, cid: Cid, addr: SocketAddr, open: bool, now: nat, other: Cid)
    requires RoutingOk(r) && Unclaimed(r, cid, addr) && other != cid
    ensures var q := Register(s, r, cid, addr, open, now);
            && cid in q.active && q.active[cid] == open
            && (forall a :: LeadsTo(q, a, cid) <==> a == addr)
            && (LeadsTo(r, addr, other) ==> other !in q.active && other in q.draining && q.draining[other] == now)
            && (!LeadsTo(r, addr, other) ==>
                  && (other in q.active <==> other in r.active)
                  && (other in r.active ==> q.active[other] == r.active[other])
                  && (other in q.draining <==> other in r.draining)
                  && forall a :: LeadsTo(q, a, other) <==> LeadsTo(r, a, other))
  {
    hide ForwardCached;
    var r1 := if addr in r.routes && r.routes[addr] != cid then Remove(r, r.routes[addr], now) else r;
    var r2 := r1.(active := r1.active[cid := open], routes := r1.routes[addr := cid]);
    ForwardIgnoresRouting(s, r2, cid, addr);
    assert forall a :: LeadsTo(r, a, cid) ==> a == addr;
  }

  /** After an address update exactly the new address leads to the connection; other
      connections keep theirs unless it is that very address. */
  lemma MigrationMovesRoute(r: Router, cid: Cid, newAddr: SocketAddr, other: Cid)
    requires other != cid
    ensures var q := UpdateAddress(r, cid, newAddr);
            && q.active == r.active && q.draining == r.draining
            && q.pending == r.pending && q.handed == r.handed
            && (forall a :: LeadsTo(q, a, cid) <==> a == newAddr)
            && (forall a :: LeadsTo(q, a, other) <==> LeadsTo(r, a, other) && a != newAddr)
  {
  }

  /** A removed connection is no longer active and no address leads to it; others are as
      before. An unknown identifier changes nothing. */
  lemma RemovalUnroutes(r: Router, cid: Cid, now: nat, other: Cid)
    requires RoutingOk(r) && other != cid
    ensures var q := Remove(r, cid, now);
            && q.active == r.active - {cid} && (forall a :: !LeadsTo(q, a, cid))
            && (forall a :: LeadsTo(q, a, other) <==> LeadsTo(r, a, other))
            && q.pending == r.pending && q.handed == r.handed
            && (cid in r.active ==> q.draining == r.draining[cid := now])
            && (cid !in r.active ==> q == r)
  {
  }

  lemma RemovalForgetsRoutes(r: Router, cid: Cid, now: nat)
    requires cid in r.active
    ensures forall a, c :: LeadsTo(Remove(r, cid, now), a, c) <==> LeadsTo(r, a, c) && c != cid
  {
  }

  lemma {:induction false} RecentAre(frames: seq<PendingFrame>, now: nat, maxAge: nat)
    ensures forall f :: f in Recent(frames, now, maxAge) <==> f in frames && Elapsed(f.arrivalTime, now) < maxAge
    ensures multiset(Recent(frames, now, maxAge)) <= multiset(frames)
    decreases |frames|
  {
    if frames != [] {
      var n := |frames| - 1;
      RecentAre(frames[..n], now, maxAge);
      assert frames == frames[..n] + [frames[n]];
    }
  }

  /** What a sweep keeps of a list are the recent frames, at ascending positions. */
  ghost predicate IsRecentPick(picks: seq<nat>, part: seq<PendingFrame>, frames: seq<PendingFrame>, now: nat,
                               maxAge: nat) {
    && |picks| == |part|
    && (forall i, j :: 0 <= i < j < |picks| ==> picks[i] < picks[j])
    && (forall i :: 0 <= i < |picks| ==> picks[i] < |frames| && part[i] == frames[picks[i]])
    && (forall k :: 0 <= k < |frames| ==> (k in picks <==> Elapsed(frames[k].arrivalTime, now) < maxAge))
  }

  lemma {:induction false} RecentKeepsOrder(frames: seq<PendingFrame>, now: nat, maxAge: nat) returns (picks: seq<nat>)
    ensures IsRecentPick(picks, Recent(frames, now, maxAge), frames, now, maxAge)
    decreases |frames|
  {
    if frames == [] {
      return [];
    }
    var n := |frames| - 1;
    var before := RecentKeepsOrder(frames[..n], now, maxAge);
    picks := if Elapsed(frames[n].arrivalTime, now) < maxAge then before + [n] else before;
    OneRecentMore(before, Recent(frames[..n], now, maxAge), frames, now, maxAge);
  }

  lemma OneRecentMore(picks: seq<nat>, part: seq<PendingFrame>, frames: seq<PendingFrame>, now: nat, maxAge: nat)
    requires frames != [] && IsRecentPick(picks, part, frames[..|frames| - 1], now, maxAge)
    ensures var last := frames[|frames| - 1];
            if Elapsed(last.arrivalTime, now) < maxAge
            then IsRecentPick(picks + [|frames| - 1], part + [last], frames, now, maxAge)
            else IsRecentPick(picks, part + [], frames, now, maxAge)
  {
    hide Elapsed;
    var n := |frames| - 1;
    assert n !in picks && part + [] == part;
    assert forall k :: 0 <= k < n ==> frames[..n][k] == frames[k];
  }

  /** A sweep drops exactly the early frames that have reached the age limit, and keeps the
      others in order. */
  lemma SweepKeepsRecentIff(r: Router, now: nat, maxAge: nat, key: nat, f: PendingFrame)
    ensures var q := CleanupFrames(r, now, maxAge);
            && (f in Cached(q, key) <==> f in Cached(r, key) && Elapsed(f.arrivalTime, now) < maxAge)
            && exists picks :: IsRecentPick(picks, Cached(q, key), Cached(r, key), now, maxAge)
  {
    RecentAre(Cached(r, key), now, maxAge);
    var picks := RecentKeepsOrder(Cached(r, key), now, maxAge);
    assert Cached(CleanupFrames(r, now, maxAge), key) == Recent(Cached(r, key), now, maxAge);
  }

  /** A sweep of the pool releases exactly the identifiers that have rested long enough, and
      touches nothing else. */
  lemma DrainingSweepIff(s: Setup, r: Router, now: nat)
    ensures var q := CleanupDraining(s, r, now);
            && q.active == r.active && q.routes == r.routes && q.pending == r.pending && q.handed == r.handed
            && (forall c :: c in q.draining
                  <==> c in r.draining && s.drainTimeout > 0 && now < r.draining[c] + s.drainTimeout)
            && forall c :: c in q.draining ==> q.draining[c] == r.draining[c]
  {
  }

  // --- identifiers rest before they are used again

  ghost predicate Resting(r: Router, cid: Cid, start: nat) {
    cid !in r.active && cid in r.draining && r.draining[cid] == start
  }

  /** However a connection ends, its identifier starts to rest at that moment. */
  lemma EndingStartsRest(s: Setup, r: Router, e: Event, cid: Cid)
    requires RouterOk(s, r) && cid in r.active && cid !in Step(s, r, e).active
    ensures Resting(Step(s, r, e), cid, e.now)
  {
    hide ForwardCached, CacheFrame, DestinationCid, Unrouted;
    if e.action.Open? && Allowed(r, e.action) {
      var a := e.action;
      var r1 := if a.addr in r.routes && r.routes[a.addr] != a.cid then Remove(r, r.routes[a.addr], e.now) else r;
      ForwardIgnoresRouting(s, r1.(active := r1.active[a.cid := a.receiving], routes := r1.routes[a.addr := a.cid]),
                            a.cid, a.addr);
    } else if e.action.FrameArrives? {
      DispatchEndsOne(s, r, e.action.frame, e.action.addr, e.now, cid);
    }
  }

  lemma DispatchEndsOne(s: Setup, r: Router, frame: Frame, addr: SocketAddr, now: nat, cid: Cid)
    requires cid in r.active
    ensures var q := Dispatch(s, r, frame, addr, now).router;
            cid in q.active || Resting(q, cid, now)
  {
    hide CacheKey, DestinationCid, Send, Resting;
    var own := DestinationCid(frame);
    if own in r.active { SendEndsOne(r, own, frame, addr, now, cid); }
    if addr in r.routes && r.routes[addr] in r.active { SendEndsOne(r, r.routes[addr], frame, addr, now, cid); }
  }

  lemma SendEndsOne(r: Router, target: Cid, frame: Frame, addr: SocketAddr, now: nat, cid: Cid)
    requires cid in r.active && target in r.active
    ensures var q := Send(r, target, frame, addr, now).router;
            cid in q.active || Resting(q, cid, now)
  {
    hide Unrouted;
  }

  /** A sweep that comes no earlier than the end of the rest. */
  predicate Releases(s: Setup, e: Event, start: nat) {
    e.action.SweepDraining? && Elapsed(start, e.now) >= s.drainTimeout
  }

  /** Of everything that can happen, a sweep after the rest period is what ends the rest of
      an identifier, and nothing else. */
  lemma RestEndsIff(s: Setup, r: Router, e: Event, cid: Cid, start: nat)
    requires Resting(r, cid, start)
    ensures !Resting(Step(s, r, e), cid, start) <==> Releases(s, e, start)
    ensures Releases(s, e, start) ==> cid !in Step(s, r, e).draining && cid !in Step(s, r, e).active
  {
    hide ForwardCached, CacheFrame, DestinationCid, Unrouted;
    if e.action.Open? && Allowed(r, e.action) {
      var a := e.action;
      var r1 := if a.addr in r.routes && r.routes[a.addr] != a.cid then Remove(r, r.routes[a.addr], e.now) else r;
      ForwardIgnoresRouting(s, r1.(active := r1.active[a.cid := a.receiving], routes := r1.routes[a.addr := a.cid]),
                            a.cid, a.addr);
    } else if e.action.FrameArrives? {
      DispatchKeepsResting(s, r, e.action.frame, e.action.addr, e.now, cid, start);
    }
  }

  lemma DispatchKeepsResting(s: Setup, r: Router, frame: Frame, addr: SocketAddr, now: nat, cid: Cid, start: nat)
    requires Resting(r, cid, start)
    ensures Resting(Dispatch(s, r, frame, addr, now).router, cid, start)
  {
    hide CacheKey, DestinationCid;
  }

  ghost predicate NeverReleased(s: Setup, events: seq<Event>, start: nat) {
    forall i :: 0 <= i < |events| ==> !Releases(s, events[i], start)
  }

  lemma {:induction false} RunKeepsResting(s: Setup, r: Router, events: seq<Event>, cid: Cid, start: nat)
    requires Resting(r, cid, start) && NeverReleased(s, events, start)
    ensures Resting(After(s, r, events), cid, start)
    decreases |events|
  {
    hide Step, Resting;
    if events != [] {
      RunKeepsResting(s, r, events[..|events| - 1], cid, start);
      RestEndsIff(s, After(s, r, events[..|events| - 1]), events[|events| - 1], cid, start);
    }
  }

  /** An identifier whose connection has ended is not active again, and cannot be generated
      again, in any run without a sweep after the rest period. */
  lemma EndedIsNotReissued(s: Setup, before: seq<Event>, e: Event, after: seq<Event>, cid: Cid)
    requires var r := After(s, Fresh(), before); cid in r.active && cid !in Step(s, r, e).active
    requires NeverReleased(s, after, e.now)
    ensures var q := After(s, Step(s, After(s, Fresh(), before), e), after);
            cid !in q.active && cid in q.draining
  {
    hide Step, RouterOk, After;
    RunKeepsOk(s, before);
    EndingStartsRest(s, After(s, Fresh(), before), e, cid);
    RunKeepsResting(s, Step(s, After(s, Fresh(), before), e), after, cid, e.now);
  }

  /** So an identifier in use again, or free to be generated again, was released in between
      by a sweep that came at least the rest period after its connection had ended. */
  lemma ReissueFollowsSweep(s: Setup, before: seq<Event>, e: Event, after: seq<Event>, cid: Cid)
    requires var r := After(s, Fresh(), before); cid in r.active && cid !in Step(s, r, e).active
    requires var q := After(s, Step(s, After(s, Fresh(), before), e), after); cid in q.active || cid !in q.draining
    ensures exists i :: 0 <= i < |after| && Releases(s, after[i], e.now)
  {
    hide Step, After;
    if NeverReleased(s, after, e.now) { EndedIsNotReissued(s, before, e, after, cid); }
  }

  // --- where a frame goes

  /** The one connection a frame is meant for, by its own identifier or else by its address. */
  function Target(r: Router, frame: Frame, addr: SocketAddr): Option<Cid> {
    var cid := DestinationCid(frame);
    if cid != 0 && cid in r.active then Some(cid)
    else if addr in r.routes then Some(r.routes[addr])
    else None
  }

  /** A frame is handed to the connection it is meant for exactly if that one still receives,
      and to no other; otherwise the connection ends and rests, with its route gone. Without
      such a connection the frame is refused if its identifier is resting, kept if it is a data
      frame, and dropped otherwise. */
  lemma DispatchGoesToTarget(s: Setup, r: Router, frame: Frame, addr: SocketAddr, now: nat)
    requires RouterOk(s, r)
    ensures var o := Dispatch(s, r, frame, addr, now);
            var q := o.router;
            match Target(r, frame, addr)
            case Some(cid) =>
              && cid in r.active && q.pending == r.pending
              && q.handed == r.handed + (if r.active[cid] then [Handed(cid, frame, addr)] else [])
              && (r.active[cid] ==>
                    && o.result == Dispatched && q.active == r.active && q.routes == r.routes
                    && q.draining == r.draining)
              && (!r.active[cid] ==>
                    && o.result == ConnectionNotFound && q.active == r.active - {cid}
                    && q.draining == r.draining[cid := now]
                    && forall a, c :: LeadsTo(q, a, c) <==> LeadsTo(r, a, c) && c != cid)
            case None =>
              && q.handed == r.handed && q.active == r.active && q.routes == r.routes && q.draining == r.draining
              && (o.result == ConnectionDraining <==> DestinationCid(frame) in r.draining)
              && (o.result == ConnectionNotFound <==> !frame.PushFrame? && DestinationCid(frame) !in r.draining)
              && (o.result == FrameCached <==> frame.PushFrame? && DestinationCid(frame) !in r.draining)
              && (o.result != FrameCached ==> q.pending == r.pending)
              && (o.result == FrameCached ==>
                    forall k :: Cached(q, k) == Cached(r, k)
                      + if k == CacheKey(s, DestinationCid(frame), addr) then [PendingFrame(frame, addr, now)] else [])
  {
    hide PendingOk, AddressKey, DestinationCid, Unrouted;
    if Target(r, frame, addr).None? {
      assert r.routes - {addr} == r.routes;
    } else if Target(r, frame, addr).value in r.active {
      RemovalForgetsRoutes(r, Target(r, frame, addr).value, now);
    }
    assert r.handed + [] == r.handed;
    assert forall k :: Cached(r, k) + [] == Cached(r, k);
  }

  /** Every frame made for a peer leads, once decoded, to the peer's identifier. */
  lemma FramesNameTheirPeer(cid: Cid, seqNo: U32, next: U32, window: U16, timestamp: U32, payload: Buf,
                            ranges: seq<SackRange>, data: U64, version: U8, source: U32)
    ensures forall f :: f in [NewPush(cid, seqNo, next, window, timestamp, payload),
                              NewAck(cid, next, window, ranges, timestamp),
                              NewPing(cid, seqNo, next, window, timestamp), NewFin(cid, seqNo, timestamp, next, window),
                              NewPathChallenge(cid, seqNo, timestamp, data),
                              NewPathResponse(cid, seqNo, timestamp, data),
                              NewSyn(version, source, cid), NewSynAck(version, source, cid)]
              ==> DestinationCid(f) == cid
  {
    hide EncodeRanges;
  }

  /** A data frame, read from a datagram by the peer's router, is handed to the connection it
      was made for and to no other, whatever address it comes from. */
  lemma DataReachesItsConnection(s: Setup, r: Router, addr: SocketAddr, now: nat, cid: Cid, seqNo: U32, next: U32,
                                 window: U16, timestamp: U32, payload: Buf, rest: Buf)
    requires RouterOk(s, r) && cid != 0 && cid in r.active && r.active[cid] && |payload| < 0x1_0000
    ensures var d := Decode(Encode(NewPush(cid, seqNo, next, window, timestamp, payload)) + rest);
            && d.Some? && d.value.frame.PushFrame? && d.value.frame.payload == payload
            && Dispatch(s, r, d.value.frame, addr, now)
               == Outcome(r.(handed := r.handed + [Handed(cid, d.value.frame, addr)]), Dispatched)
  {
    hide Decode, Encode, RouterOk;
    NewPushIsRead(cid, seqNo, next, window, timestamp, payload, rest);
    SmallMod(|payload|, 0x1_0000);
    assert payload[..|payload|] == payload;
  }

  /** A connection can be reached by its own identifier from any address if and only if that
      identifier is not zero; the generator does not rule zero out. */
  lemma ReachableFromAnywhereIff(r: Router, cid: Cid)
    requires RoutingOk(r) && cid in r.active
    ensures cid != 0 <==> forall frame: Frame, addr: SocketAddr ::
        DestinationCid(frame) == cid ==> Target(r, frame, addr) == Some(cid)
  {
    if cid == 0 {
      var frame := PingFrame(ShortHeader(Ping, 0, 0, 0, 0, 0, 0));
      assert DestinationCid(frame) == cid;
      var a, b := SocketAddr(0, 0), SocketAddr(0, 1);
      var elsewhere := if a in r.routes && r.routes[a] == cid then b else a;
      assert Target(r, frame, elsewhere) != Some(cid);
    }
  }

  // --- early frames on registration

  lemma {:induction false} PartsSplitFrames(frames: seq<PendingFrame>, addr: SocketAddr)
    ensures multiset(Matching(frames, addr)) + multiset(Others(frames, addr)) == multiset(frames)
    ensures forall f :: f in Matching(frames, addr) <==> f in frames && f.addr == addr
    ensures forall f :: f in Others(frames, addr) <==> f in frames && f.addr != addr
    decreases |frames|
  {
    if frames != [] {
      var n := |frames| - 1;
      PartsSplitFrames(frames[..n], addr);
      assert frames == frames[..n] + [frames[n]];
      PartsUnfold(frames, addr);
      hide Matching, Others;
    }
  }

  lemma PartsUnfold(frames: seq<PendingFrame>, addr: SocketAddr)
    requires frames != []
    ensures var before, last := frames[..|frames| - 1], frames[|frames| - 1];
            if last.addr == addr
            then Matching(frames, addr) == Matching(before, addr) + [last] && Others(frames, addr) == Others(before, addr)
            else Matching(frames, addr) == Matching(before, addr) && Others(frames, addr) == Others(before, addr) + [last]
  {
  }

  /** `part` is what the list holds at ascending positions, and these are exactly the ones
      whose frame came from the address, or exactly the others. */
  ghost predicate KeepsOrder(part: seq<PendingFrame>, frames: seq<PendingFrame>, addr: SocketAddr, matching: bool) {
    exists picks: seq<nat> :: IsPick(picks, part, frames, addr, matching)
  }

  ghost predicate IsPick(picks: seq<nat>, part: seq<PendingFrame>, frames: seq<PendingFrame>, addr: SocketAddr,
                         matching: bool) {
    && |picks| == |part|
    && (forall i, j :: 0 <= i < j < |picks| ==> picks[i] < picks[j])
    && (forall i :: 0 <= i < |picks| ==> picks[i] < |frames| && part[i] == frames[picks[i]])
    && (forall k :: 0 <= k < |frames| ==> (k in picks <==> (frames[k].addr == addr <==> matching)))
  }

  /** Frames forwarded and frames put back keep the order in which they arrived. */
  lemma {:induction false} PartsKeepOrder(frames: seq<PendingFrame>, addr: SocketAddr)
    ensures KeepsOrder(Matching(frames, addr), frames, addr, true)
    ensures KeepsOrder(Others(frames, addr), frames, addr, false)
    decreases |frames|
  {
    if frames == [] {
      assert IsPick([], [], frames, addr, true) && IsPick([], [], frames, addr, false);
    } else {
      var n := |frames| - 1;
      PartsKeepOrder(frames[..n], addr);
      OnePickMore(Matching(frames[..n], addr), frames, addr, true);
      OnePickMore(Others(frames[..n], addr), frames, addr, false);
    }
  }

  lemma OnePickMore(part: seq<PendingFrame>, frames: seq<PendingFrame>, addr: SocketAddr, matching: bool)
    requires frames != [] && KeepsOrder(part, frames[..|frames| - 1], addr, matching)
    ensures var last := frames[|frames| - 1];
            KeepsOrder(part + if (last.addr == addr) == matching then [last] else [], frames, addr, matching)
  {
    hide IsPick;
    var n := |frames| - 1;
    var picks :| IsPick(picks, part, frames[..n], addr, matching);
    PickOneMore(picks, part, frames, addr, matching);
    assert part + [] == part;
  }

  lemma PickOneMore(picks: seq<nat>, part: seq<PendingFrame>, frames: seq<PendingFrame>, addr: SocketAddr,
                    matching: bool)
    requires frames != [] && IsPick(picks, part, frames[..|frames| - 1], addr, matching)
    ensures var n := |frames| - 1;
            if (frames[n].addr == addr) == matching
            then IsPick(picks + [n], part + [frames[n]], frames, addr, matching)
            else IsPick(picks, part, frames, addr, matching)
  {
    var n := |frames| - 1;
    var before := frames[..n];
    assert forall k :: 0 <= k < n ==> before[k] == frames[k];
    var longer := picks + [n];
    assert n !in picks;
    assert forall k :: k in longer <==> k in picks || k == n;
  }

  predicate CheckedKey(s: Setup, cid: Cid, addr: SocketAddr, key: nat) {
    (cid != 0 && key == cid) || key == AddressKey(s, addr)
  }

  lemma ForwardedUnderKeys(s: Setup, r: Router, cid: Cid, addr: SocketAddr)
    requires cid in r.active && r.active[cid]
    ensures var q := ForwardCached(s, r, cid, addr);
            && q.handed == r.handed + (if cid != 0 then Hand(cid, Matching(Cached(r, cid), addr)) else [])
                                    + Hand(cid, Matching(Cached(r, AddressKey(s, addr)), addr))
            && forall k :: Cached(q, k)
                 == if CheckedKey(s, cid, addr, k) then Others(Cached(r, k), addr) else Cached(r, k)
  {
    hide Matching, Others, Hand, AddressKey, BeforeMatch;
    assert r.handed + [] == r.handed;
  }

  /** Registering a connection with an open channel hands it the early frames cached under its
      identifier and then those under its address, each once and in order of arrival, as far
      as they came from its address. All other frames stay cached, in order, also those whose
      address has the same hash. */
  lemma OpenForwardsExactly(s: Setup, r: Router, cid: Cid, addr: SocketAddr, now: nat)
    ensures var q := Register(s, r, cid, addr, true, now);
            && q.handed == r.handed + (if cid != 0 then Hand(cid, Matching(Cached(r, cid), addr)) else [])
                                    + Hand(cid, Matching(Cached(r, AddressKey(s, addr)), addr))
            && forall k :: Cached(q, k)
                 == if CheckedKey(s, cid, addr, k) then Others(Cached(r, k), addr) else Cached(r, k)
  {
    hide ForwardCached, Matching, Others, Hand, AddressKey, Unrouted;
    var r1 := if addr in r.routes && r.routes[addr] != cid then Remove(r, r.routes[addr], now) else r;
    var r2 := r1.(active := r1.active[cid := true], routes := r1.routes[addr := cid]);
    ForwardedUnderKeys(s, r2, cid, addr);
    assert r2.pending == r.pending;
    assert forall k :: Cached(r2, k) == Cached(r, k);
  }

  /** An early frame is for a connection if it came from its address and names either its
      identifier or none. */
  predicate IsFor(f: PendingFrame, cid: Cid, addr: SocketAddr) {
    f.addr == addr && (DestinationCid(f.frame) == cid || DestinationCid(f.frame) == 0)
  }

  /** After such a registration no early frame for the connection is left anywhere in the
      cache, and every other one is still where it was. */
  lemma NothingForItIsLeft(s: Setup, r: Router, cid: Cid, addr: SocketAddr, now: nat, key: nat, f: PendingFrame)
    requires RouterOk(s, r) && f in Cached(r, key)
    ensures f in Cached(Register(s, r, cid, addr, true, now), key) <==> !IsFor(f, cid, addr)
  {
    hide Register, Others, RoutingOk;
    OpenForwardsExactly(s, r, cid, addr, now);
    PartsSplitFrames(Cached(r, key), addr);
    var i :| 0 <= i < |Cached(r, key)| && Cached(r, key)[i] == f;
    assert CacheKey(s, DestinationCid(f.frame), f.addr) == key;
  }

  lemma HandIs(cid: Cid, frames: seq<PendingFrame>, h: Handed)
    ensures h in Hand(cid, frames)
            <==> h.cid == cid && exists f :: f in frames && f.frame == h.frame && f.addr == h.addr
  {
    if h.cid == cid && exists f :: f in frames && f.frame == h.frame && f.addr == h.addr {
      var f :| f in frames && f.frame == h.frame && f.addr == h.addr;
      var i :| 0 <= i < |frames| && frames[i] == f;
      assert Hand(cid, frames)[i] == h;
    }
  }

  /** What a new connection is handed in such a registration are exactly the early frames for
      it, wherever they were cached. */
  lemma HandedAreForIt(s: Setup, r: Router, cid: Cid, addr: SocketAddr, now: nat, h: Handed)
    requires RouterOk(s, r)
    ensures var q := Register(s, r, cid, addr, true, now);
            && r.handed <= q.handed
            && (h in q.handed[|r.handed|..]
                <==> h.cid == cid && h.addr == addr
                     && exists key, f :: f in Cached(r, key) && IsFor(f, cid, addr) && f.frame == h.frame)
  {
    hide Register, Matching, Hand, Others, RouterOk, CheckedKey, AddressKey, Cached, IsFor, CacheKey, DestinationCid;
    var q := Register(s, r, cid, addr, true, now);
    OpenForwardsExactly(s, r, cid, addr, now);
    var own, byAddr := Cached(r, cid), Cached(r, AddressKey(s, addr));
    MatchingIsHanded(cid, own, addr, h);
    MatchingIsHanded(cid, byAddr, addr, h);
    var more := (if cid != 0 then Hand(cid, Matching(own, addr)) else []) + Hand(cid, Matching(byAddr, addr));
    assert q.handed == r.handed + more;
    assert q.handed[|r.handed|..] == more;
    forall key, f | f in Cached(r, key)
      ensures IsFor(f, cid, addr) <==> f.addr == addr && ((cid != 0 && key == cid) || key == AddressKey(s, addr))
    {
      FiledUnderItsKey(s, r, key, f);
      KeysOfConnection(s, cid, addr, f, key);
    }
  }

  lemma MatchingIsHanded(cid: Cid, frames: seq<PendingFrame>, addr: SocketAddr, h: Handed)
    ensures h in Hand(cid, Matching(frames, addr))
            <==> h.cid == cid && h.addr == addr && exists f :: f in frames && f.addr == addr && f.frame == h.frame
  {
    hide Matching, Hand;
    PartsSplitFrames(frames, addr);
    HandIs(cid, Matching(frames, addr), h);
  }

  lemma FiledUnderItsKey(s: Setup, r: Router, key: nat, f: PendingFrame)
    requires RouterOk(s, r) && f in Cached(r, key)
    ensures CacheKey(s, DestinationCid(f.frame), f.addr) == key
  {
    var i :| 0 <= i < |Cached(r, key)| && Cached(r, key)[i] == f;
  }

  lemma KeysOfConnection(s: Setup, cid: Cid, addr: SocketAddr, f: PendingFrame, key: nat)
    requires CacheKey(s, DestinationCid(f.frame), f.addr) == key
    ensures IsFor(f, cid, addr) <==> f.addr == addr && ((cid != 0 && key == cid) || key == AddressKey(s, addr))
  {
  }

  /** With a channel that is already closed nothing is handed over, and early frames are lost
      if and only if one of them came from the address of the connection. */
  lemma ClosedLosesIff(s: Setup, r: Router, cid: Cid, addr: SocketAddr, now: nat)
    ensures var q := Register(s, r, cid, addr, false, now);
            && q.handed == r.handed
            && forall k :: Cached(q, k) == Cached(r, k)
                 <==> !(CheckedKey(s, cid, addr, k) && AnyMatches(Cached(r, k), addr))
  {
    hide ForwardCached, AddressKey, Unrouted;
    var r1 := if addr in r.routes && r.routes[addr] != cid then Remove(r, r.routes[addr], now) else r;
    var r2 := r1.(active := r1.active[cid := false], routes := r1.routes[addr := cid]);
    ClosedKeepsFront(s, r2, cid, addr);
    assert r2.pending == r.pending;
    var q := Register(s, r, cid, addr, false, now);
    forall k
      ensures Cached(q, k) == Cached(r, k) <==> !(CheckedKey(s, cid, addr, k) && AnyMatches(Cached(r, k), addr))
    {
      assert Cached(r2, k) == Cached(r, k);
      FrontIsAllIff(Cached(r, k), addr);
    }
  }

  lemma FrontIsAllIff(frames: seq<PendingFrame>, addr: SocketAddr)
    ensures BeforeMatch(frames, addr) == frames <==> !AnyMatches(frames, addr)
  {
    var b := BeforeMatch(frames, addr);
    if |b| == |frames| { assert frames[..|b|] == frames; }
  }

  lemma ClosedKeepsFront(s: Setup, r: Router, cid: Cid, addr: SocketAddr)
    requires cid in r.active && !r.active[cid]
    ensures var q := ForwardCached(s, r, cid, addr);
            && q.handed == r.handed
            && forall k :: Cached(q, k)
                 == if CheckedKey(s, cid, addr, k) then BeforeMatch(Cached(r, k), addr) else Cached(r, k)
  {
    hide BeforeMatch, AddressKey, Matching, Others, Hand;
  }
}
