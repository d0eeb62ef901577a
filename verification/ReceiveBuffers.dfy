/** The incoming stream: packets held back until they are next, and what is acknowledged. */
module ReceiveBuffers {
  import opened Bits
  import opened Bytes
  import opened Options
  import opened Datagrams

  datatype PacketOrFin = Push(payload: Buf) | Fin

  /** The state of a receive buffer, apart from its capacity. */
  datatype Recv = Recv(nextSequence: nat, received: map<nat, PacketOrFin>, finReached: bool)

  /** Only numbers that are still due are held back, and none once the stream has ended. */
  ghost predicate RecvOk(r: Recv) {
    && (forall n :: n in r.received ==> r.nextSequence <= n < U32_LIMIT)
    && (r.finReached ==> r.received == map[])
  }

  predicate Accepts(r: Recv, n: nat) {
    !r.finReached && r.nextSequence <= n && n !in r.received
  }

  function Accept(r: Recv, n: nat, packet: PacketOrFin): Recv {
    if Accepts(r, n) then r.(received := r.received[n := packet]) else r
  }

  /** What reassembly hands to the reader, and the state it leaves. */
  datatype Delivery = Delivery(payloads: seq<Buf>, fin: bool, recv: Recv)

  function Drain(r: Recv): Delivery
    decreases |r.received|
  {
    if r.nextSequence !in r.received then Delivery([], false, r)
    else
      match r.received[r.nextSequence]
      case Push(payload) =>
        var rest := Drain(Popped(r));
        Delivery([payload] + rest.payloads, rest.fin, rest.recv)
      case Fin => Delivery([], true, Recv(r.nextSequence + 1, map[], true))
  }

  function Popped(r: Recv): (p: Recv)
    requires r.nextSequence in r.received
    ensures |p.received| < |r.received|
  {
    assert (r.received - {r.nextSequence}).Keys == r.received.Keys - {r.nextSequence};
    Recv(r.nextSequence + 1, r.received - {r.nextSequence}, r.finReached)
  }

  function Reassembled(r: Recv): Delivery {
    if r.finReached then Delivery([], false, r) else Drain(r)
  }

  /** What is held from a number on. */
  function From(received: map<nat, PacketOrFin>, stop: nat): map<nat, PacketOrFin> {
    map n | n in received && stop <= n :: received[n]
  }

  /** The unbroken run of data packets from the next number on. */
  ghost predicate Holds(r: Recv, payloads: seq<Buf>) {
    forall i :: 0 <= i < |payloads| ==> HoldsAt(r, r.nextSequence + i, payloads[i])
  }

  predicate HoldsAt(r: Recv, n: nat, payload: Buf) {
    n in r.received && r.received[n] == Push(payload)
  }

  /** A delivery takes exactly that run. The end of the stream is seen if and only if it is
      what stops the run; everything beyond an ordinary gap is kept. */
  ghost predicate TakesRun(r: Recv, d: Delivery) {
    var stop := r.nextSequence + |d.payloads|;
    && Holds(r, d.payloads)
    && (d.fin <==> stop in r.received)
    && (d.fin ==> r.received[stop] == Fin && d.recv == Recv(stop + 1, map[], true))
    && (!d.fin ==> d.recv == Recv(stop, From(r.received, stop), false))
  }

  lemma {:induction false} DrainTakesRun(r: Recv)
    requires RecvOk(r) && !r.finReached
    ensures TakesRun(r, Drain(r))
    decreases |r.received|
  {
    hide TakesRun;
    PopKeepsOk(r);
    if r.nextSequence !in r.received {
      EmptyRun(r);
    } else {
      match r.received[r.nextSequence]
      case Push(payload) =>
        DrainTakesRun(Popped(r));
        LongerRun(r, payload, Drain(Popped(r)));
      case Fin =>
        EmptyRun(r);
    }
  }

  lemma PopKeepsOk(r: Recv)
    requires RecvOk(r)
    ensures r.nextSequence in r.received ==> RecvOk(Popped(r))
  {
  }

  lemma EmptyRun(r: Recv)
    requires RecvOk(r) && !r.finReached
    ensures r.nextSequence !in r.received ==> TakesRun(r, Delivery([], false, r))
    ensures r.nextSequence in r.received && r.received[r.nextSequence] == Fin ==>
        TakesRun(r, Delivery([], true, Recv(r.nextSequence + 1, map[], true)))
  {
    var kept := From(r.received, r.nextSequence);
    assert forall n :: n in r.received <==> n in kept;
    assert kept == r.received;
  }

  lemma PoppedAbove(r: Recv, stop: nat)
    requires r.nextSequence in r.received && stop > r.nextSequence
    ensures stop in r.received <==> stop in Popped(r).received
    ensures From(r.received, stop) == From(Popped(r).received, stop)
  {
    var before, after := From(r.received, stop), From(Popped(r).received, stop);
    assert forall n :: n in before <==> n in after;
    assert forall n :: n in before ==> before[n] == after[n];
  }

  lemma LongerRun(r: Recv, payload: Buf, rest: Delivery)
    requires RecvOk(r) && r.nextSequence in r.received && r.received[r.nextSequence] == Push(payload)
    requires TakesRun(Popped(r), rest)
    ensures TakesRun(r, Delivery([payload] + rest.payloads, rest.fin, rest.recv))
  {
    var p, payloads := Popped(r), [payload] + rest.payloads;
    forall i | 0 <= i < |payloads|
      ensures HoldsAt(r, r.nextSequence + i, payloads[i])
    {
      if i > 0 {
        var before := rest.payloads[i - 1];
        assert HoldsAt(p, p.nextSequence + (i - 1), before);
      }
    }
    var stop := r.nextSequence + |payloads|;
    assert stop > r.nextSequence && stop == p.nextSequence + |rest.payloads|;
    PoppedAbove(r, stop);
  }

  /** What is left over is a proper state again. */
  lemma ReassemblyKeepsOk(r: Recv)
    requires RecvOk(r)
    ensures RecvOk(Reassembled(r).recv)
  {
    if !r.finReached { DrainTakesRun(r); }
  }

  // --- what is acknowledged

  predicate InRange(n: nat, g: SackRange) {
    g.start <= n <= g.end
  }

  ghost predicate Acked(ranges: seq<SackRange>, n: nat) {
    exists i :: 0 <= i < |ranges| && InRange(n, ranges[i])
  }

  /** Ascending, disjoint and with a gap between neighbours. */
  ghost predicate Canonical(ranges: seq<SackRange>) {
    && (forall i :: 0 <= i < |ranges| ==> ranges[i].start <= ranges[i].end)
    && (forall i, j :: 0 <= i < j < |ranges| ==> ranges[i].end + 1 < ranges[j].start)
  }

  ghost predicate Describes(ranges: seq<SackRange>, keys: set<nat>) {
    Canonical(ranges) && forall n :: n in keys <==> Acked(ranges, n)
  }

  /** There is only one way to describe a set of numbers by such ranges. */
  lemma {:induction false} RangesAreUnique(a: seq<SackRange>, b: seq<SackRange>, keys: set<nat>)
    requires Describes(a, keys) && Describes(b, keys)
    ensures a == b
    decreases |a|
  {
    EmptyIffNone(a, keys);
    EmptyIffNone(b, keys);
    if a != [] {
      FirstRange(a, b, keys);
      FirstRange(b, a, keys);
      DropFirstRange(a, keys);
      DropFirstRange(b, keys);
      RangesAreUnique(a[1..], b[1..], keys - set n | n in keys && InRange(n, a[0]));
      assert a == [a[0]] + a[1..] && b == [b[0]] + b[1..];
    }
  }

  lemma EmptyIffNone(a: seq<SackRange>, keys: set<nat>)
    requires Describes(a, keys)
    ensures a == [] <==> keys == {}
  {
    if a != [] { assert InRange(a[0].start, a[0]); assert a[0].start in keys; }
  }

  lemma GapAfterFirst(b: seq<SackRange>)
    requires b != [] && Canonical(b)
    ensures !Acked(b, b[0].end + 1)
  {
  }

  lemma FirstRange(a: seq<SackRange>, b: seq<SackRange>, keys: set<nat>)
    requires a != [] && b != [] && Describes(a, keys) && Describes(b, keys)
    ensures a[0].start >= b[0].start
    ensures a[0].start == b[0].start ==> a[0].end <= b[0].end
  {
    assert InRange(a[0].start, a[0]);
    assert Acked(b, a[0].start);
    GapAfterFirst(b);
    assert !Acked(a, b[0].end + 1);
    assert !InRange(b[0].end + 1, a[0]);
  }

  lemma DropFirstRange(a: seq<SackRange>, keys: set<nat>)
    requires a != [] && Describes(a, keys)
    ensures Describes(a[1..], keys - set n | n in keys && InRange(n, a[0]))
  {
    var fewer := keys - set n | n in keys && InRange(n, a[0]);
    forall n
      ensures n in fewer <==> Acked(a[1..], n)
    {
      if n in fewer {
        var i :| 0 <= i < |a| && InRange(n, a[i]);
        assert a[1..][i - 1] == a[i];
      }
      if Acked(a[1..], n) {
        var i :| 0 <= i < |a| - 1 && InRange(n, a[1..][i]);
        assert InRange(n, a[i + 1]);
      }
    }
  }

  ghost predicate IsSmallest(m: nat, s: set<nat>) {
    m in s && forall n :: n in s ==> m <= n
  }

  function Smallest(s: set<nat>): (m: nat)
    requires s != {}
    ensures IsSmallest(m, s)
  {
    SmallestExists(s);
    var m :| m in s && forall n :: n in s ==> m <= n;
    m
  }

  lemma {:induction false} SmallestExists(s: set<nat>)
    requires s != {}
    ensures exists m :: IsSmallest(m, s)
    decreases s
  {
    var x :| x in s;
    var rest := s - {x};
    if rest == {} {
      assert forall n :: n in s ==> n == x by { assert forall n :: n in s ==> n in rest || n == x; }
      assert IsSmallest(x, s);
    } else {
      SmallestExists(rest);
      var m :| IsSmallest(m, rest);
      SmallerOfTwo(s, rest, x, m);
    }
  }

  lemma SmallerOfTwo(s: set<nat>, rest: set<nat>, x: nat, m: nat)
    requires x in s && rest == s - {x} && IsSmallest(m, rest)
    ensures IsSmallest(if x <= m then x else m, s)
  {
    forall n | n in s
      ensures (if x <= m then x else m) <= n
    {
      if n != x { assert n in rest; }
    }
  }

  // --- the buffer

  class ReceiveBuffer {
    var nextSequence: nat
    var received: map<nat, PacketOrFin>
    const capacity: nat
    var finReached: bool

    ghost function Model(): Recv
      reads this
    {
      Recv(nextSequence, received, finReached)
    }

    ghost predicate Valid()
      reads this
    {
      RecvOk(Model())
    }

    constructor (capacityPackets: nat)
      ensures Valid() && Model() == Recv(0, map[], false) && capacity == capacityPackets
    {
      nextSequence := 0;
      received := map[];
      capacity := capacityPackets;
      finReached := false;
    }

    /** The free capacity, cut off to 16 bits: it is what the peer is told exactly when it
        fits. Accepting packets never looks at it. */
    method WindowSize() returns (size: nat)
      ensures size < U16_LIMIT
      ensures var free := if |received| <= capacity then capacity - |received| else 0;
              size <= free && (size == free <==> free < U16_LIMIT) && (free - size) % 0x1_0000 == 0
    {
      var free := if |received| <= capacity then capacity - |received| else 0;
      size := free % U16_LIMIT;
      if free < U16_LIMIT { SmallMod(free, U16_LIMIT); }
      assert free - size == free / U16_LIMIT * U16_LIMIT;
    }

    method IsEmpty() returns (empty: bool)
      ensures empty <==> forall n :: n !in received
    {
      empty := received == map[];
    }

    method ReceivePush(sequenceNumber: nat, payload: Buf) returns (accepted: bool)
      requires Valid() && sequenceNumber < U32_LIMIT
      modifies this
      ensures Valid()
      ensures accepted <==> Accepts(old(Model()), sequenceNumber)
      ensures accepted <==> !old(finReached) && old(nextSequence) <= sequenceNumber && sequenceNumber !in old(received)
      ensures Model() == Accept(old(Model()), sequenceNumber, Push(payload))
      ensures accepted ==> received == old(received)[sequenceNumber := Push(payload)]
    {
      if finReached || sequenceNumber < nextSequence {
        return false;
      }
      if sequenceNumber in received {
        return false;
      }
      received := received[sequenceNumber := Push(payload)];
      accepted := true;
    }

    method ReceiveFin(sequenceNumber: nat) returns (accepted: bool)
      requires Valid() && sequenceNumber < U32_LIMIT
      modifies this
      ensures Valid()
      ensures accepted <==> Accepts(old(Model()), sequenceNumber)
      ensures accepted <==> !old(finReached) && old(nextSequence) <= sequenceNumber && sequenceNumber !in old(received)
      ensures Model() == Accept(old(Model()), sequenceNumber, Fin)
      ensures accepted ==> received == old(received)[sequenceNumber := Fin]
    {
      if finReached || sequenceNumber < nextSequence {
        return false;
      }
      if sequenceNumber in received {
        return false;
      }
      received := received[sequenceNumber := Fin];
      accepted := true;
    }

    /** Removes the packet with the smallest number if that number is the next one. */
    method TryPopNextContiguous() returns (packet: Option<PacketOrFin>)
      requires Valid() && (nextSequence in received ==> nextSequence + 1 < U32_LIMIT)
      modifies this`nextSequence, this`received
      ensures Valid()
      ensures packet.None? ==> Model() == old(Model()) && nextSequence !in received
      ensures packet.Some? ==>
          && old(nextSequence) in old(received) && packet.value == old(received)[old(nextSequence)]
          && Model() == Popped(old(Model()))
    {
      if received != map[] {
        assert received.Keys != {} by { var n :| n in received; }
        var first := Smallest(received.Keys);
        if first == nextSequence {
          packet := Some(received[first]);
          nextSequence := nextSequence + 1;
          received := received - {first};
          return;
        }
      }
      packet := None;
    }

    /** Stepping past the last number of the number space would overflow, so the run that is
        taken must stop short of it. */
    method Reassemble() returns (data: Option<seq<Buf>>, finSeen: bool)
      requires Valid() && (nextSequence in received ==> Reassembled(Model()).recv.nextSequence < U32_LIMIT)
      modifies this
      ensures Valid()
      ensures var d := Reassembled(old(Model()));
              && Model() == d.recv && finSeen == d.fin
              && data == if d.payloads == [] then None else Some(d.payloads)
    {
      hide RecvOk, Drain;
      if finReached {
        return None, false;
      }
      var reassembled: seq<Buf> := [];
      finSeen := false;
      ghost var goal := Drain(Model());
      while true
        invariant Valid() && !finReached && !finSeen
        invariant nextSequence in received ==> goal.recv.nextSequence < U32_LIMIT
        invariant var d := Drain(Model());
                  goal.payloads == reassembled + d.payloads && goal.fin == d.fin && goal.recv == d.recv
        decreases |received|
      {
        DrainUnfolds(Model());
        if nextSequence in received { DrainAdvances(Model()); }
        var packet := TryPopNextContiguous();
        if packet.None? {
          assert goal == Delivery(reassembled, false, Model());
          break;
        }
        match packet.value {
          case Push(payload) =>
            assert reassembled + ([payload] + Drain(Model()).payloads)
                == reassembled + [payload] + Drain(Model()).payloads;
            reassembled := reassembled + [payload];
          case Fin =>
            finSeen := true;
            finReached := true;
            received := map[];
            EndedIsOk(nextSequence);
            assert goal == Delivery(reassembled, true, Model());
            break;
        }
      }
      data := if reassembled == [] then None else Some(reassembled);
    }

    /** The held-back numbers as ranges, from a single pass in ascending order. */
    method GetSackRanges() returns (ranges: seq<SackRange>)
      requires Valid()
      ensures Describes(ranges, received.Keys)
    {
      hide Describes, Canonical;
      ranges := [];
      var currentRange: Option<SackRange> := None;
      var rest := received.Keys;
      ghost var all: seq<SackRange>, done: set<nat> := [], {};
      NothingToDescribe();
      while rest != {}
        invariant rest <= received.Keys && done == received.Keys - rest
        invariant all == ranges + if currentRange.None? then [] else [currentRange.value]
        invariant currentRange.None? ==> ranges == []
        invariant Describes(all, done)
        invariant forall n :: n in rest && all != [] ==> n > all[|all| - 1].end
        decreases |rest|
      {
        var n := Smallest(rest);
        assert n in received;
        assert done + {n} == received.Keys - (rest - {n});
        match currentRange {
          case Some(range) =>
            assert range == all[|all| - 1];
            assert range.end + 1 < U32_LIMIT;
            if n == range.end + 1 {
              RangeGrows(ranges, range, done, n);
              currentRange := Some(SackRange(range.start, n));
              all := ranges + [currentRange.value];
            } else {
              NewRange(all, done, n);
              ranges := ranges + [range];
              currentRange := Some(SackRange(n, n));
              all := all + [SackRange(n, n)];
            }
          case None =>
            NewRange(all, done, n);
            currentRange := Some(SackRange(n, n));
            all := all + [SackRange(n, n)];
        }
        rest, done := rest - {n}, done + {n};
      }
      assert done == received.Keys;
      if currentRange.Some? {
        ranges := ranges + [currentRange.value];
      }
    }
  }

  lemma DrainUnfolds(r: Recv)
    ensures r.nextSequence !in r.received ==> Drain(r) == Delivery([], false, r)
    ensures r.nextSequence in r.received ==>
        match r.received[r.nextSequence]
        case Push(payload) =>
          var rest := Drain(Popped(r));
          Drain(r) == Delivery([payload] + rest.payloads, rest.fin, rest.recv)
        case Fin => Drain(r) == Delivery([], true, Recv(r.nextSequence + 1, map[], true))
  {
  }

  lemma {:induction false} DrainNotBehind(r: Recv)
    ensures Drain(r).recv.nextSequence >= r.nextSequence
    decreases |r.received|
  {
    if r.nextSequence in r.received && r.received[r.nextSequence].Push? { DrainNotBehind(Popped(r)); }
  }

  lemma DrainAdvances(r: Recv)
    requires r.nextSequence in r.received
    ensures Drain(r).recv.nextSequence > r.nextSequence
  {
    if r.received[r.nextSequence].Push? { DrainNotBehind(Popped(r)); }
  }

  lemma EndedIsOk(n: nat)
    ensures RecvOk(Recv(n, map[], true))
  {
  }

  lemma NothingToDescribe()
    ensures Describes([], {})
  {
  }

  lemma RangeGrows(ranges: seq<SackRange>, range: SackRange, done: set<nat>, n: nat)
    requires Describes(ranges + [range], done) && n == range.end + 1 < U32_LIMIT
    ensures Describes(ranges + [SackRange(range.start, n)], done + {n})
  {
    var before, after := ranges + [range], ranges + [SackRange(range.start, n)];
    assert before[|ranges|] == range && after[|ranges|] == SackRange(range.start, n);
    assert forall i :: 0 <= i < |ranges| ==> before[i] == after[i];
    forall k
      ensures k in done + {n} <==> Acked(after, k)
    {
      if Acked(before, k) {
        var i :| 0 <= i < |before| && InRange(k, before[i]);
        assert InRange(k, after[i]);
      }
      if k == n { assert InRange(k, after[|ranges|]); }
      if Acked(after, k) && k != n {
        var i :| 0 <= i < |after| && InRange(k, after[i]);
        assert InRange(k, before[i]);
      }
    }
  }

  lemma NewRange(ranges: seq<SackRange>, done: set<nat>, n: nat)
    requires Describes(ranges, done) && n < U32_LIMIT
    requires ranges != [] ==> ranges[|ranges| - 1].end + 1 < n
    ensures Describes(ranges + [SackRange(n, n)], done + {n})
  {
    var after := ranges + [SackRange(n, n)];
    assert after[|ranges|] == SackRange(n, n);
    forall i | 0 <= i < |ranges|
      ensures after[i] == ranges[i] && ranges[i].end + 1 < n
    {
      var last := |ranges| - 1;
      if i < last { assert ranges[i].end + 1 < ranges[last].start; }
    }
    forall k
      ensures k in done + {n} <==> Acked(after, k)
    {
      if Acked(ranges, k) {
        var i :| 0 <= i < |ranges| && InRange(k, ranges[i]);
        assert InRange(k, after[i]);
      }
      if k == n { assert InRange(k, after[|ranges|]); }
      if Acked(after, k) && k != n {
        var i :| 0 <= i < |after| && InRange(k, after[i]);
        assert InRange(k, ranges[i]);
      }
    }
  }
}
