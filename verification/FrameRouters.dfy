/** The frame router and the pool of resting identifiers. */
module FrameRouters {
  import opened Bits
  import opened Options
  import opened Frames
  import opened RouterModel

  class DrainingPool {
    var cids: map<Cid, nat>
    const timeout: nat

    constructor (timeout: nat)
      ensures cids == map[] && this.timeout == timeout
    {
      cids := map[];
      this.timeout := timeout;
    }

    method Insert(cid: Cid, now: nat)
      modifies this
      ensures cids == old(cids)[cid := now]
    {
      cids := cids[cid := now];
    }

    predicate Contains(cid: Cid)
      reads this
    {
      cid in cids
    }

    method Cleanup(now: nat)
      modifies this
      ensures cids == map c | c in old(cids) && Elapsed(old(cids)[c], now) < timeout :: old(cids)[c]
    {
      if |cids| == 0 {
        assert cids == map[];
        return;
      }
      cids := map c | c in cids && Elapsed(cids[c], now) < timeout :: cids[c];
    }
  }

  class FrameRouter {
    var activeConnections: map<Cid, bool>
    var addressRouting: map<SocketAddr, Cid>
    const drainingPool: DrainingPool
    var pendingFrames: map<nat, seq<PendingFrame>>
    /** The frames sent into the channels of the connections, in order. */
    var handed: seq<Handed>
    const setup: Setup

    ghost function Model(): Router
      reads this, drainingPool
    {
      Router(activeConnections, addressRouting, drainingPool.cids, pendingFrames, handed)
    }

    ghost predicate Valid()
      reads this, drainingPool
    {
      drainingPool.timeout == setup.drainTimeout && RouterOk(setup, Model())
    }

    constructor (setup: Setup, pool: DrainingPool)
      requires pool.cids == map[] && pool.timeout == setup.drainTimeout
      ensures Valid() && Model() == Fresh() && this.setup == setup && drainingPool == pool
    {
      this.setup := setup;
      drainingPool := pool;
      activeConnections, addressRouting, pendingFrames, handed := map[], map[], map[], [];
    }

    method GetCacheKey(cid: Cid, remoteAddr: SocketAddr) returns (key: nat)
      ensures key == CacheKey(setup, cid, remoteAddr) && key < U64_LIMIT
      ensures key < U32_LIMIT <==> cid != 0
      ensures cid != 0 ==> key == cid
      ensures cid == 0 ==>
          key >= 0x8000_0000_0000_0000
          && key % 0x8000_0000_0000_0000 == setup.hash(remoteAddr) % 0x8000_0000_0000_0000
    {
      KeyKeepsHash(setup, remoteAddr);
      if cid != 0 {
        key := cid;
      } else {
        key := AddressKey(setup, remoteAddr);
      }
    }

    /** Drops the first route found to a connection. There is at most one. */
    method Unroute(cid: Cid)
      requires OneAddress(addressRouting)
      modifies this`addressRouting
      ensures addressRouting == Unrouted(old(addressRouting), cid)
    {
      if addr :| addr in addressRouting && addressRouting[addr] == cid {
        addressRouting := addressRouting - {addr};
      }
    }

    method RemoveConnectionByCid(cid: Cid, now: nat)
      requires Valid()
      modifies this, drainingPool
      ensures Valid() && Model() == Remove(old(Model()), cid, now)
    {
      RemoveKeepsRouting(Model(), cid, now);
      hide OneAddress, PendingOk, Unrouted;
      if cid !in activeConnections {
        return;
      }
      activeConnections := activeConnections - {cid};
      Unroute(cid);
      drainingPool.Insert(cid, now);
    }

    method UpdateConnectionAddress(cid: Cid, newAddr: SocketAddr)
      requires Valid()
      modifies this`addressRouting
      ensures Model() == UpdateAddress(old(Model()), cid, newAddr)
      ensures Valid() <==> cid in activeConnections
    {
      MigrationKeepsRoutingIff(Model(), cid, newAddr);
      hide OneAddress, RoutingOk, PendingOk, Unrouted;
      RoutingHasOneAddress(Model());
      Unroute(cid);
      addressRouting := addressRouting[newAddr := cid];
    }

    method CacheEarlyFrame(cid: Cid, frame: Frame, remoteAddr: SocketAddr, now: nat)
      modifies this`pendingFrames
      ensures Model() == CacheFrame(setup, old(Model()), cid, frame, remoteAddr, now)
    {
      var cacheKey := GetCacheKey(cid, remoteAddr);
      var frames := if cacheKey in pendingFrames then pendingFrames[cacheKey] else [];
      pendingFrames := pendingFrames[cacheKey := frames + [PendingFrame(frame, remoteAddr, now)]];
    }

    /** Sends into the channel of an active connection, or removes it if nobody receives. */
    method SendTo(cid: Cid, frame: Frame, remoteAddr: SocketAddr, now: nat) returns (result: RoutingResult)
      requires Valid() && cid in activeConnections
      modifies this, drainingPool
      ensures Valid()
      ensures Outcome(Model(), result) == Send(old(Model()), cid, frame, remoteAddr, now)
    {
      hide RouterOk, Remove;
      if !activeConnections[cid] {
        RemoveConnectionByCid(cid, now);
        return ConnectionNotFound;
      }
      SendingKeepsOk(setup, Model(), handed + [Handed(cid, frame, remoteAddr)]);
      handed := handed + [Handed(cid, frame, remoteAddr)];
      result := Dispatched;
    }

    method DispatchFrame(frame: Frame, remoteAddr: SocketAddr, now: nat) returns (result: RoutingResult)
      requires Valid()
      modifies this, drainingPool
      ensures Valid()
      ensures Outcome(Model(), result) == Dispatch(setup, old(Model()), frame, remoteAddr, now)
    {
      hide RouterOk, Send, CacheFrame, DestinationCid;
      DispatchKeepsOk(setup, Model(), frame, remoteAddr, now);
      var cid := DestinationCid(frame);
      if cid != 0 && cid in activeConnections {
        result := SendTo(cid, frame, remoteAddr, now);
        return;
      }
      if remoteAddr in addressRouting {
        var existingCid := addressRouting[remoteAddr];
        if existingCid in activeConnections {
          result := SendTo(existingCid, frame, remoteAddr, now);
          return;
        }
        addressRouting := addressRouting - {remoteAddr};
      }
      assert addressRouting == old(addressRouting) - {remoteAddr};
      if drainingPool.Contains(cid) {
        result := ConnectionDraining;
      } else if frame.PushFrame? {
        CacheEarlyFrame(cid, frame, remoteAddr, now);
        result := FrameCached;
      } else {
        result := ConnectionNotFound;
      }
    }

    method RegisterConnection(cid: Cid, remoteAddr: SocketAddr, receiving: bool, now: nat)
      requires Valid()
      modifies this, drainingPool
      ensures Valid() <==> Unclaimed(old(Model()), cid, remoteAddr)
      ensures Model() == Register(setup, old(Model()), cid, remoteAddr, receiving, now)
    {
      hide RouterOk, ForwardCached, Remove, Unclaimed;
      OpenKeepsOkIff(setup, Model(), cid, remoteAddr, receiving, now);
      if remoteAddr in addressRouting {
        var oldCid := addressRouting[remoteAddr];
        if oldCid != cid {
          RemoveConnectionByCid(oldCid, now);
        }
      }
      activeConnections := activeConnections[cid := receiving];
      addressRouting := addressRouting[remoteAddr := cid];
      ForwardCachedFrames(cid, remoteAddr);
    }

    method ForwardCachedFrames(cid: Cid, remoteAddr: SocketAddr)
      modifies this`pendingFrames, this`handed
      ensures Model() == RouterModel.ForwardCached(setup, old(Model()), cid, remoteAddr)
    {
      hide ForwardKey, AddressKey;
      if cid !in activeConnections {
        return;
      }
      if cid != 0 {
        ForwardUnder(cid, cid, remoteAddr);
      }
      ForwardUnder(AddressKey(setup, remoteAddr), cid, remoteAddr);
    }

    /** The frames under one key: each is sent, put back, or, when sending fails, the reason
        to stop. */
    method ForwardUnder(cacheKey: nat, cid: Cid, remoteAddr: SocketAddr)
      requires cid in activeConnections
      modifies this`pendingFrames, this`handed
      ensures Model() == ForwardKey(old(Model()), cid, remoteAddr, activeConnections[cid], cacheKey)
    {
      hide Matching, Others, BeforeMatch, Hand;
      NothingToForward(Model(), cid, remoteAddr, activeConnections[cid], cacheKey);
      if cacheKey !in pendingFrames {
        return;
      }
      var frames := pendingFrames[cacheKey];
      ghost var before, handedBefore := pendingFrames, handed;
      pendingFrames := pendingFrames - {cacheKey};
      assert handed + [] == handed;
      ghost var stopped := false;
      for i := 0 to |frames|
        invariant pendingFrames == WithFrames(before, cacheKey, Others(frames[..i], remoteAddr))
        invariant !stopped
        invariant handed == handedBefore + Hand(cid, Matching(frames[..i], remoteAddr))
        invariant !activeConnections[cid] ==> !AnyMatches(frames[..i], remoteAddr)
      {
        PartsOneMore(cid, frames, remoteAddr, i);
        if frames[i].addr == remoteAddr {
          if activeConnections[cid] {
            handed := handed + [Handed(cid, frames[i].frame, frames[i].addr)];
          } else {
            StopsAtMatch(frames, remoteAddr, i);
            NoMatchSoFar(cid, frames[..i], remoteAddr);
            stopped := true;
            break;
          }
        } else {
          var kept := if cacheKey in pendingFrames then pendingFrames[cacheKey] else [];
          OneMorePutBack(before, cacheKey, Others(frames[..i], remoteAddr), frames[i]);
          pendingFrames := pendingFrames[cacheKey := kept + [frames[i]]];
        }
      }
      assert frames[..|frames|] == frames;
      if !activeConnections[cid] && !stopped {
        NoMatchSoFar(cid, frames, remoteAddr);
        FrontIsAllIff(frames, remoteAddr);
      }
    }

    method CleanupExpiredFrames(maxAge: nat, now: nat)
      modifies this`pendingFrames
      ensures Model() == CleanupFrames(old(Model()), now, maxAge)
    {
      hide Recent, Swept, CleanupFrames;
      var rest, expiredKeys: set<nat> := pendingFrames.Keys, {};
      ghost var before, model := pendingFrames, Model();
      SweepStarts(before, now, maxAge);
      assert before.Keys - rest == {};
      while rest != {}
        invariant rest <= before.Keys
        invariant Swept(before, pendingFrames, before.Keys - rest, expiredKeys, now, maxAge)
        decreases |rest|
      {
        var cacheKey :| cacheKey in rest;
        SweepOneMore(before, pendingFrames, before.Keys - rest, expiredKeys, cacheKey, now, maxAge);
        var frames := Retain(pendingFrames[cacheKey], maxAge, now);
        pendingFrames := pendingFrames[cacheKey := frames];
        if frames == [] {
          expiredKeys := expiredKeys + {cacheKey};
        }
        assert before.Keys - (rest - {cacheKey}) == before.Keys - rest + {cacheKey};
        rest := rest - {cacheKey};
      }
      assert before.Keys - rest == before.Keys;
      SweepEnds(model, pendingFrames, expiredKeys, now, maxAge);
      pendingFrames := pendingFrames - expiredKeys;
    }

    method CleanupDrainingPool(now: nat)
      requires drainingPool.timeout == setup.drainTimeout
      modifies drainingPool
      ensures Model() == CleanupDraining(setup, old(Model()), now)
    {
      drainingPool.Cleanup(now);
    }

    predicate ConnectionExists(cid: Cid)
      reads this
    {
      cid in activeConnections
    }

    predicate IsDraining(cid: Cid)
      reads this, drainingPool
    {
      drainingPool.Contains(cid)
    }
  }

  /** Draws identifiers until one is neither active nor resting, here from a list of what the
      random source will yield. */
  method GenerateUniqueConnectionId(router: FrameRouter, draws: seq<Cid>) returns (cid: Option<Cid>)
    ensures cid.Some? ==>
        cid.value !in router.activeConnections && cid.value !in router.drainingPool.cids
        && exists i :: 0 <= i < |draws| && draws[i] == cid.value && AllTaken(router, draws[..i])
    ensures cid.None? ==> AllTaken(router, draws)
  {
    for i := 0 to |draws|
      invariant AllTaken(router, draws[..i])
    {
      var candidateCid := draws[i];
      if !router.ConnectionExists(candidateCid) && !router.IsDraining(candidateCid) {
        return Some(candidateCid);
      }
      assert draws[..i + 1] == draws[..i] + [draws[i]];
    }
    assert draws[..|draws|] == draws;
    cid := None;
  }

  predicate AllTaken(router: FrameRouter, draws: seq<Cid>)
    reads router, router.drainingPool
  {
    forall i :: 0 <= i < |draws| ==> draws[i] in router.activeConnections || draws[i] in router.drainingPool.cids
  }

  /** Some keys have been swept, the others not yet; those left without frames are noted. */
  ghost predicate Swept(before: map<nat, seq<PendingFrame>>, m: map<nat, seq<PendingFrame>>, done: set<nat>,
                        expired: set<nat>, now: nat, maxAge: nat) {
    && m.Keys == before.Keys
    && (forall k :: k in before ==> m[k] == if k in done then Recent(before[k], now, maxAge) else before[k])
    && (forall k :: k in expired <==> k in done && k in before && m[k] == [])
  }

  lemma SweepStarts(before: map<nat, seq<PendingFrame>>, now: nat, maxAge: nat)
    ensures Swept(before, before, {}, {}, now, maxAge)
  {
  }

  lemma SweepOneMore(before: map<nat, seq<PendingFrame>>, m: map<nat, seq<PendingFrame>>, done: set<nat>,
                     expired: set<nat>, key: nat, now: nat, maxAge: nat)
    requires Swept(before, m, done, expired, now, maxAge) && key in before && key !in done
    ensures key in m && m[key] == before[key]
    ensures var frames := Recent(m[key], now, maxAge);
            Swept(before, m[key := frames], done + {key}, if frames == [] then expired + {key} else expired, now, maxAge)
  {
    hide Recent;
  }

  lemma SweepEnds(r: Router, m: map<nat, seq<PendingFrame>>, expired: set<nat>, now: nat, maxAge: nat)
    requires Swept(r.pending, m, r.pending.Keys, expired, now, maxAge)
    ensures r.(pending := m - expired) == CleanupFrames(r, now, maxAge)
  {
    hide Recent;
  }

  method Retain(frames: seq<PendingFrame>, maxAge: nat, now: nat) returns (kept: seq<PendingFrame>)
    ensures kept == Recent(frames, now, maxAge)
  {
    kept := [];
    for i := 0 to |frames|
      invariant kept == Recent(frames[..i], now, maxAge)
    {
      assert frames[..i + 1][..i] == frames[..i];
      if Elapsed(frames[i].arrivalTime, now) < maxAge {
        kept := kept + [frames[i]];
      }
    }
    assert frames[..|frames|] == frames;
  }

  lemma OneMorePutBack(before: map<nat, seq<PendingFrame>>, key: nat, frames: seq<PendingFrame>, f: PendingFrame)
    ensures var m := WithFrames(before, key, frames);
            && (if key in m then m[key] else []) == frames
            && m[key := frames + [f]] == WithFrames(before, key, frames + [f])
  {
  }

  lemma NothingToForward(r: Router, cid: Cid, addr: SocketAddr, open: bool, key: nat)
    ensures key !in r.pending ==> ForwardKey(r, cid, addr, open, key) == r
    ensures Others([], addr) == [] && Hand(cid, Matching([], addr)) == [] && !AnyMatches([], addr)
  {
    if key !in r.pending {
      assert r.pending - {key} == r.pending;
      assert r.handed + [] == r.handed;
    }
  }

  lemma PartsOneMore(cid: Cid, frames: seq<PendingFrame>, addr: SocketAddr, i: nat)
    requires i < |frames|
    ensures var f := frames[i];
            var matching := Matching(frames[..i], addr);
            && (f.addr == addr ==>
                  && Others(frames[..i + 1], addr) == Others(frames[..i], addr)
                  && Hand(cid, Matching(frames[..i + 1], addr)) == Hand(cid, matching) + [Handed(cid, f.frame, f.addr)])
            && (f.addr != addr ==>
                  && Others(frames[..i + 1], addr) == Others(frames[..i], addr) + [f]
                  && Hand(cid, Matching(frames[..i + 1], addr)) == Hand(cid, matching))
            && (AnyMatches(frames[..i + 1], addr) <==> AnyMatches(frames[..i], addr) || f.addr == addr)
  {
    var longer := frames[..i + 1];
    assert longer[..i] == frames[..i] && longer[i] == frames[i];
    if AnyMatches(frames[..i], addr) {
      var j :| 0 <= j < i && frames[..i][j].addr == addr;
      assert longer[j].addr == addr;
    }
    if AnyMatches(longer, addr) && frames[i].addr != addr {
      var j :| 0 <= j < i + 1 && longer[j].addr == addr;
      assert frames[..i][j].addr == addr;
    }
  }

  lemma StopsAtMatch(frames: seq<PendingFrame>, addr: SocketAddr, i: nat)
    requires i < |frames| && frames[i].addr == addr && !AnyMatches(frames[..i], addr)
    ensures BeforeMatch(frames, addr) == frames[..i]
  {
    var b := BeforeMatch(frames, addr);
    assert forall j :: 0 <= j < i ==> frames[..i][j] == frames[j] && frames[j].addr != addr;
    assert forall j :: 0 <= j < |b| ==> b[j] == frames[j] && frames[j].addr != addr;
  }

  lemma {:induction false} NoMatchSoFar(cid: Cid, frames: seq<PendingFrame>, addr: SocketAddr)
    requires !AnyMatches(frames, addr)
    ensures Others(frames, addr) == frames && Hand(cid, Matching(frames, addr)) == []
    decreases |frames|
  {
    if frames != [] {
      var n := |frames| - 1;
      PartsOneMore(cid, frames, addr, n);
      assert frames[..n + 1] == frames;
      NoMatchSoFar(cid, frames[..n], addr);
    }
  }

  lemma RoutingHasOneAddress(r: Router)
    requires RoutingOk(r)
    ensures OneAddress(r.routes)
  {
  }

  lemma SendingKeepsOk(s: Setup, r: Router, handed: seq<Handed>)
    requires RouterOk(s, r)
    ensures RouterOk(s, r.(handed := handed))
  {
  }

  lemma OpenKeepsOkIff(s: Setup, r: Router, cid: Cid, addr: SocketAddr, open: bool, now: nat)
    requires RouterOk(s, r)
    ensures RouterOk(s, Register(s, r, cid, addr, open, now)) <==> Unclaimed(r, cid, addr)
  {
    OpenKeepsRoutingIff(s, r, cid, addr, open, now);
    OpenKeepsPending(s, r, cid, addr, open, now);
  }
}
