/** The stream over real datagrams: what is sent is encoded, several frames to a datagram, and
    the receiver acts on the frames it decodes. Every such run is a run of the pipeline, so
    all that holds of the pipeline holds of the wire. */
module WirePipeline {
  import opened Bits
  import opened Bytes
  import opened Options
  import opened Sequences
  import Frames
  import opened Datagrams
  import opened Packetizers
  import opened ReceiveBuffers
  import opened StreamPipeline

  /** One transmission of a number, with the header fields of that moment. */
  datatype Item = Item(n: nat, context: Context, challengeData: Frames.U64)

  function FrameOf(s: Sent, n: Frames.U32, c: Context, challengeData: Frames.U64): Frames.Frame {
    match s
    case Data(payload) =>
      Frames.NewPush(c.peerCid, n, c.recvNextSequence, c.localWindowSize, c.timestamp, payload)
    case Finish(_, _) => Frames.NewFin(c.peerCid, n, c.timestamp, c.recvNextSequence, c.localWindowSize)
    case Challenge => Frames.NewPathChallenge(c.peerCid, n, c.timestamp, challengeData)
  }

  /** Only what has been sent can be carried. */
  predicate CanCarry(sent: seq<Sent>, items: seq<Item>) {
    forall i :: 0 <= i < |items| ==> items[i].n < |sent| && items[i].n < U32_LIMIT
  }

  function FramesOf(sent: seq<Sent>, items: seq<Item>): (fs: seq<Frames.Frame>)
    requires CanCarry(sent, items)
    ensures |fs| == |items|
    ensures forall i :: 0 <= i < |fs| ==>
        fs[i] == FrameOf(sent[items[i].n], items[i].n, items[i].context, items[i].challengeData)
  {
    seq(|items|, i requires 0 <= i < |items| =>
      FrameOf(sent[items[i].n], items[i].n, items[i].context, items[i].challengeData))
  }

  // --- the receiver

  function Take(p: Pipe, n: nat, packet: PacketOrFin): Pipe {
    if Accepts(p.recv, n) then p.(recv := Accept(p.recv, n, packet), arrived := p.arrived + {n}) else p
  }

  /** Data and the end of the stream go to the receive buffer under the number in their
      header; no other frame does. */
  function OnFrame(p: Pipe, f: Frames.Frame): Pipe {
    match f
    case PushFrame(header, payload) => Take(p, header.sequenceNumber, Push(payload))
    case FinFrame(header) => Take(p, header.sequenceNumber, Fin)
    case _ => p
  }

  function OnFrames(p: Pipe, fs: seq<Frames.Frame>): Pipe {
    if fs == [] then p else OnFrame(OnFrames(p, fs[..|fs| - 1]), fs[|fs| - 1])
  }

  function OnDatagram(p: Pipe, datagram: Buf): Pipe {
    OnFrames(p, DecodeAll(datagram))
  }

  // --- runs over the wire

  /** Anything but an arrival happens at one end; what arrives are datagrams. */
  datatype WireAction = Local(action: Action) | Datagram(items: seq<Item>)

  function WireStep(p: Pipe, w: WireAction): Pipe {
    match w
    case Local(a) => if a.Arrive? then p else Step(p, a)
    case Datagram(items) =>
      if CanCarry(p.sent, items) then OnDatagram(p, EncodeAll(FramesOf(p.sent, items))) else p
  }

  function WireAfter(p: Pipe, ws: seq<WireAction>): Pipe {
    if ws == [] then p else WireStep(WireAfter(p, ws[..|ws| - 1]), ws[|ws| - 1])
  }

  /** No payload is longer than the payload size. */
  ghost predicate PayloadsFit(sent: seq<Sent>, maxPayloadSize: nat) {
    forall i :: 0 <= i < |sent| && sent[i].Data? ==> |sent[i].payload| <= maxPayloadSize
  }

  lemma StepKeepsFit(p: Pipe, a: Action)
    requires p.maxPayloadSize > 0 && PayloadsFit(p.sent, p.maxPayloadSize)
    ensures PayloadsFit(Step(p, a).sent, p.maxPayloadSize)
  {
    hide Chunks, Join, Drain, FrameCount;
    if a.Packetize? {
      ChunksAreFront(p.blocks, p.maxPayloadSize, a.permit);
      var chunks := Chunks(p.blocks, p.maxPayloadSize, a.permit).chunks;
      assert forall i :: 0 <= i < |chunks| ==> chunks[i] in chunks;
    }
  }

  // --- one frame, one datagram, one run

  lemma FrameArrives(p: Pipe, n: nat, c: Context, challengeData: Frames.U64)
    requires n < |p.sent| && n < U32_LIMIT
    ensures OnFrame(p, FrameOf(p.sent[n], n, c, challengeData)) == Step(p, Arrive(n))
  {
  }

  lemma FrameIsSafe(s: Sent, n: Frames.U32, c: Context, challengeData: Frames.U64)
    requires s.Data? ==> |s.payload| < U16_LIMIT
    ensures Frames.WireSafe(FrameOf(s, n, c, challengeData))
  {
    if s.Data? {
      Frames.NewPushSafeIff(c.peerCid, n, c.recvNextSequence, c.localWindowSize, c.timestamp, s.payload);
    }
  }

  function Arrivals(items: seq<Item>): (actions: seq<Action>)
    ensures |actions| == |items| && forall i :: 0 <= i < |items| ==> actions[i] == Arrive(items[i].n)
  {
    seq(|items|, i requires 0 <= i < |items| => Arrive(items[i].n))
  }

  lemma ArrivalKeepsSent(p: Pipe, n: nat)
    ensures Step(p, Arrive(n)).sent == p.sent
  {
  }

  lemma {:induction false} FramesArrive(p: Pipe, items: seq<Item>)
    requires CanCarry(p.sent, items)
    ensures OnFrames(p, FramesOf(p.sent, items)) == After(p, Arrivals(items))
    ensures After(p, Arrivals(items)).sent == p.sent
    decreases |items|
  {
    hide Step, OnFrame, FrameOf;
    if items != [] {
      var k := |items| - 1;
      FramesArrive(p, items[..k]);
      assert FramesOf(p.sent, items)[..k] == FramesOf(p.sent, items[..k]);
      assert Arrivals(items)[..k] == Arrivals(items[..k]);
      var before := After(p, Arrivals(items[..k]));
      FrameArrives(before, items[k].n, items[k].context, items[k].challengeData);
      ArrivalKeepsSent(before, items[k].n);
    }
  }

  /** A datagram does what the arrival of its numbers does, one after the other. */
  lemma DatagramArrives(p: Pipe, items: seq<Item>)
    requires PayloadsFit(p.sent, p.maxPayloadSize) && p.maxPayloadSize < U16_LIMIT && CanCarry(p.sent, items)
    ensures OnDatagram(p, EncodeAll(FramesOf(p.sent, items))) == After(p, Arrivals(items))
  {
    hide EncodeAll, DecodeAll, OnFrames, After, FrameOf;
    var fs := FramesOf(p.sent, items);
    forall i | 0 <= i < |fs|
      ensures Frames.WireSafe(fs[i])
    {
      FrameIsSafe(p.sent[items[i].n], items[i].n, items[i].context, items[i].challengeData);
    }
    DatagramRoundTrip(fs);
    FramesArrive(p, items);
  }

  lemma StepKeepsSetup(p: Pipe, a: Action)
    ensures Step(p, a).capacity == p.capacity && Step(p, a).maxPayloadSize == p.maxPayloadSize
  {
  }

  lemma StepIsReachable(p: Pipe, a: Action)
    requires Reachable(p)
    ensures Reachable(Step(p, a))
  {
    hide Step;
    StepKeepsSetup(p, a);
    var start := Fresh(p.capacity, p.maxPayloadSize);
    var actions :| p == After(start, actions);
    assert (actions + [a])[..|actions|] == actions;
    assert Step(p, a) == After(start, actions + [a]);
  }

  lemma {:induction false} RunIsReachable(p: Pipe, actions: seq<Action>)
    requires Reachable(p) && p.maxPayloadSize > 0 && PayloadsFit(p.sent, p.maxPayloadSize)
    ensures var q := After(p, actions);
            && Reachable(q) && q.capacity == p.capacity && q.maxPayloadSize == p.maxPayloadSize
            && PayloadsFit(q.sent, q.maxPayloadSize)
    decreases |actions|
  {
    hide Step, Reachable, PayloadsFit;
    if actions != [] {
      var before := After(p, actions[..|actions| - 1]);
      RunIsReachable(p, actions[..|actions| - 1]);
      StepIsReachable(before, actions[|actions| - 1]);
      StepKeepsSetup(before, actions[|actions| - 1]);
      StepKeepsFit(before, actions[|actions| - 1]);
    }
  }

  /** Every run over the wire leads to a state that the pipeline reaches. */
  lemma {:induction false} WireRunIsReachable(capacity: nat, maxPayloadSize: nat, ws: seq<WireAction>)
    requires 0 < maxPayloadSize < U16_LIMIT
    ensures var q := WireAfter(Fresh(capacity, maxPayloadSize), ws);
            && Reachable(q) && q.capacity == capacity && q.maxPayloadSize == maxPayloadSize
            && PayloadsFit(q.sent, maxPayloadSize)
    decreases |ws|
  {
    hide Step, OnDatagram, PayloadsFit, EncodeAll;
    var start := Fresh(capacity, maxPayloadSize);
    if ws == [] {
      FreshFits(capacity, maxPayloadSize);
    } else {
      var before, last := WireAfter(start, ws[..|ws| - 1]), ws[|ws| - 1];
      WireRunIsReachable(capacity, maxPayloadSize, ws[..|ws| - 1]);
      hide Reachable;
      match last
      case Local(a) =>
        StepIsReachable(before, a);
        StepKeepsSetup(before, a);
        StepKeepsFit(before, a);
      case Datagram(items) =>
        if CanCarry(before.sent, items) {
          DatagramArrives(before, items);
          RunIsReachable(before, Arrivals(items));
        }
    }
  }

  lemma FreshFits(capacity: nat, maxPayloadSize: nat)
    ensures var start := Fresh(capacity, maxPayloadSize);
            Reachable(start) && PayloadsFit(start.sent, maxPayloadSize)
  {
    assert After(Fresh(capacity, maxPayloadSize), []) == Fresh(capacity, maxPayloadSize);
  }

  /** Whatever datagrams the network loses, repeats or reorders, and however frames are put
      together in them, the bytes delivered are a prefix of the bytes accepted. */
  lemma WireDeliversPrefix(capacity: nat, maxPayloadSize: nat, ws: seq<WireAction>)
    requires 0 < maxPayloadSize < U16_LIMIT
    ensures var q := WireAfter(Fresh(capacity, maxPayloadSize), ws);
            PipeOk(q) && Join(q.delivered) <= q.accepted
  {
    hide Reachable, PipeOk, WireAfter, Join;
    WireRunIsReachable(capacity, maxPayloadSize, ws);
    var q := WireAfter(Fresh(capacity, maxPayloadSize), ws);
    ReachableIsOk(q);
    DeliveredIsPrefix(q);
  }
}
