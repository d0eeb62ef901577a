/** The reliable stream from one end to the other: bytes are written, cut into numbered
    packets, carried by a network that loses, repeats and reorders them, and put together
    again. A run is any list of steps; retransmission is the network delivering again
    something sent before. */
module StreamPipeline {
  import opened Bits
  import opened Bytes
  import opened Options
  import opened Sequences
  import opened Datagrams
  import Frames
  import opened SendBuffers
  import opened Packetizers
  import opened ReceiveBuffers

  /** What a sequence number was spent on. For the end of the stream: what had been accepted
      from the writer by then, and the bytes of it that were still waiting to be cut. */
  datatype Sent = Data(payload: Buf) | Finish(stream: Buf, waiting: Buf) | Challenge

  datatype Pipe = Pipe(
    capacity: nat,
    maxPayloadSize: nat,
    /** Every byte accepted from the writer. */
    accepted: Buf,
    blocks: seq<Buf>,
    /** Everything sent, by sequence number. */
    sent: seq<Sent>,
    recv: Recv,
    /** Every number the receive buffer has accepted. */
    arrived: set<nat>,
    /** Every payload handed to the reader. */
    delivered: seq<Buf>,
    finReports: nat)

  function Fresh(capacity: nat, maxPayloadSize: nat): Pipe {
    Pipe(capacity, maxPayloadSize, [], [], [], Recv(0, map[], false), {}, [], 0)
  }

  datatype Action =
    | Write(buf: Buf)
    | Packetize(permit: nat)
    | SendFin
    | SendChallenge
    | Arrive(n: nat)
    | Reassemble

  function Datas(chunks: seq<Buf>): (d: seq<Sent>)
    ensures |d| == |chunks| && forall i :: 0 <= i < |d| ==> d[i] == Data(chunks[i])
  {
    seq(|chunks|, i requires 0 <= i < |chunks| => Data(chunks[i]))
  }

  /** The packet a number arrives as. Path challenges carry a number too, but never enter
      the receive buffer. */
  function Received(s: Sent): Option<PacketOrFin> {
    match s
    case Data(payload) => Some(Push(payload))
    case Finish(_, _) => Some(Fin)
    case Challenge => None
  }

  /** The numbers left: the counter itself must stay a 32-bit value. */
  predicate CanNumber(p: Pipe, count: nat) {
    |p.sent| + count < U32_LIMIT
  }

  /** One step. A step that would run out of numbers, or deliver what was never sent, does
      not happen. */
  function Step(p: Pipe, a: Action): Pipe {
    match a
    case Write(buf) =>
      p.(accepted := p.accepted + buf[..Accepted(p.capacity, |Join(p.blocks)|, buf)],
         blocks := AfterWrite(p.blocks, p.capacity, |Join(p.blocks)|, buf))
    case Packetize(permit) =>
      var c := Chunks(p.blocks, p.maxPayloadSize, permit);
      if CanNumber(p, |c.chunks|) then p.(sent := p.sent + Datas(c.chunks), blocks := c.blocks) else p
    case SendFin =>
      if CanNumber(p, 1) then p.(sent := p.sent + [Finish(p.accepted, Join(p.blocks))]) else p
    case SendChallenge =>
      if CanNumber(p, 1) then p.(sent := p.sent + [Challenge]) else p
    case Arrive(n) =>
      if n < |p.sent| && Received(p.sent[n]).Some? && Accepts(p.recv, n)
      then p.(recv := Accept(p.recv, n, Received(p.sent[n]).value), arrived := p.arrived + {n})
      else p
    case Reassemble =>
      var d := Reassembled(p.recv);
      p.(recv := d.recv, delivered := p.delivered + d.payloads, finReports := p.finReports + if d.fin then 1 else 0)
  }

  function After(p: Pipe, actions: seq<Action>): Pipe {
    if actions == [] then p else Step(After(p, actions[..|actions| - 1]), actions[|actions| - 1])
  }

  // --- the bytes behind the numbers

  function PayloadOf(s: Sent): Buf {
    if s.Data? then s.payload else []
  }

  /** The bytes carried by all data packets, in number order. */
  function Stream(sent: seq<Sent>): Buf {
    if sent == [] then [] else Stream(sent[..|sent| - 1]) + PayloadOf(sent[|sent| - 1])
  }

  lemma {:induction false} StreamAppend(a: seq<Sent>, b: seq<Sent>)
    ensures Stream(a + b) == Stream(a) + Stream(b)
    decreases |b|
  {
    hide PayloadOf;
    if b == [] {
      assert a + b == a;
    } else {
      var fewer, last := b[..|b| - 1], PayloadOf(b[|b| - 1]);
      StreamAppend(a, fewer);
      assert (a + b)[..|a + b| - 1] == a + fewer;
      assert Stream(a) + (Stream(fewer) + last) == Stream(a) + Stream(fewer) + last;
    }
  }

  lemma {:induction false} StreamOfDatas(chunks: seq<Buf>)
    ensures Stream(Datas(chunks)) == Join(chunks)
    decreases |chunks|
  {
    if chunks != [] {
      var n := |chunks| - 1;
      StreamOfDatas(chunks[..n]);
      assert Datas(chunks)[..n] == Datas(chunks[..n]);
      assert chunks == chunks[..n] + [chunks[n]];
      JoinPush(chunks[..n], chunks[n]);
    }
  }

  lemma StreamOfOne(s: Sent)
    ensures Stream([s]) == PayloadOf(s)
  {
    assert [s][..0] == [];
  }

  // --- what every step keeps

  /** The writer's side: nothing accepted is lost, doubled or moved; each end of the stream
      records what it cut off. */
  ghost predicate SenderOk(p: Pipe) {
    && p.maxPayloadSize > 0
    && |p.sent| < U32_LIMIT
    && |Join(p.blocks)| <= p.capacity
    && Stream(p.sent) + Join(p.blocks) == p.accepted
    && FinishesOk(p.sent)
    && NoEmptyData(p.sent)
  }

  ghost predicate FinishesOk(sent: seq<Sent>) {
    forall i :: 0 <= i < |sent| && sent[i].Finish? ==> sent[i].stream == Stream(sent[..i]) + sent[i].waiting
  }

  ghost predicate NoEmptyData(sent: seq<Sent>) {
    forall i :: 0 <= i < |sent| && sent[i].Data? ==> sent[i].payload != []
  }

  /** What is held back is what was sent under that number. */
  ghost predicate HeldWasSent(sent: seq<Sent>, received: map<nat, PacketOrFin>) {
    forall n :: n in received ==> n < |sent| && Received(sent[n]) == Some(received[n])
  }

  /** The reader has the payloads of the first numbers, each once and in order. */
  ghost predicate InOrder(sent: seq<Sent>, delivered: seq<Buf>) {
    && |delivered| <= |sent|
    && forall i :: 0 <= i < |delivered| ==> sent[i] == Data(delivered[i])
  }

  /** Where reassembly stands: at the number after the last delivered, one further once the
      end of the stream, which must be what that number was, has been reported. */
  ghost predicate ReaderOk(p: Pipe) {
    && InOrder(p.sent, p.delivered)
    && (!p.recv.finReached ==> p.finReports == 0 && p.recv.nextSequence == |p.delivered|)
    && (p.recv.finReached ==>
          && p.finReports == 1 && p.recv.nextSequence == |p.delivered| + 1
          && |p.delivered| < |p.sent| && p.sent[|p.delivered|].Finish?)
  }

  ghost predicate Passed(r: Recv, n: nat) {
    n < r.nextSequence || n in r.received
  }

  ghost predicate ArrivalsOk(p: Pipe) {
    && (forall n :: Passed(p.recv, n) ==> n in p.arrived)
    && (!p.recv.finReached ==> forall n :: n in p.arrived ==> Passed(p.recv, n))
  }

  ghost predicate PipeOk(p: Pipe) {
    && SenderOk(p)
    && RecvOk(p.recv)
    && HeldWasSent(p.sent, p.recv.received)
    && ReaderOk(p)
    && ArrivalsOk(p)
  }

  lemma FreshIsOk(capacity: nat, maxPayloadSize: nat)
    requires maxPayloadSize > 0
    ensures PipeOk(Fresh(capacity, maxPayloadSize))
  {
  }

  /** A write is taken as far as there is room, and all of it if there is. */
  lemma WriteTakesWhatFits(p: Pipe, buf: Buf)
    requires PipeOk(p)
    ensures var q := Step(p, Write(buf));
            var n := |q.accepted| - |p.accepted|;
            && 0 <= n <= |buf| && q.accepted == p.accepted + buf[..n]
            && Join(q.blocks) == Join(p.blocks) + buf[..n]
            && (n < |buf| ==> |Join(q.blocks)| == p.capacity)
  {
    hide Join, AfterWrite, Accepted;
    RoomIsKept(p);
    WriteFillsRoom(p.blocks, p.capacity, buf);
  }

  lemma RoomIsKept(p: Pipe)
    requires PipeOk(p)
    ensures |Join(p.blocks)| <= p.capacity
  {
  }

  lemma WriteKeepsSender(p: Pipe, buf: Buf)
    requires SenderOk(p)
    ensures SenderOk(Step(p, Write(buf)))
  {
    hide Stream, FinishesOk, NoEmptyData;
    JoinPush(p.blocks, buf[..Accepted(p.capacity, |Join(p.blocks)|, buf)]);
    hide Join;
    var n := Accepted(p.capacity, |Join(p.blocks)|, buf);
    if |Join(p.blocks)| >= p.capacity {
      assert buf[..n] == [];
    } else {
      assert Stream(p.sent) + (Join(p.blocks) + buf[..n]) == p.accepted + buf[..n];
    }
  }

  lemma AppendKeepsFinishes(sent: seq<Sent>, more: seq<Sent>)
    requires FinishesOk(sent) && NoEmptyData(sent) && NoEmptyData(more)
    requires forall i :: 0 <= i < |more| && more[i].Finish? ==> more[i].stream == Stream(sent + more[..i]) + more[i].waiting
    ensures FinishesOk(sent + more) && NoEmptyData(sent + more)
  {
    hide Stream;
    var all := sent + more;
    forall i | 0 <= i < |all| && all[i].Finish?
      ensures all[i].stream == Stream(all[..i]) + all[i].waiting
    {
      if i < |sent| {
        assert all[..i] == sent[..i];
      } else {
        assert all[..i] == sent + more[..i - |sent|] && all[i] == more[i - |sent|];
      }
    }
  }

  lemma PacketizeKeepsSender(p: Pipe, permit: nat)
    requires SenderOk(p)
    ensures SenderOk(Step(p, Packetize(permit)))
  {
    hide Stream, Join, Chunks, FinishesOk, NoEmptyData, FrameCount;
    var c := Chunks(p.blocks, p.maxPayloadSize, permit);
    ChunksAreFront(p.blocks, p.maxPayloadSize, permit);
    StreamAppend(p.sent, Datas(c.chunks));
    StreamOfDatas(c.chunks);
    DatasNotEmpty(c.chunks, p.maxPayloadSize);
    AppendKeepsFinishes(p.sent, Datas(c.chunks));
    assert Stream(p.sent) + (Join(c.chunks) + Join(c.blocks)) == Stream(p.sent) + Join(c.chunks) + Join(c.blocks);
  }

  lemma DatasNotEmpty(chunks: seq<Buf>, maxSize: nat)
    requires Sized(chunks, maxSize)
    ensures NoEmptyData(Datas(chunks))
  {
  }

  lemma NumberingKeepsSender(p: Pipe, s: Sent)
    requires SenderOk(p) && CanNumber(p, 1)
    requires s == Challenge || s == Finish(p.accepted, Join(p.blocks))
    ensures SenderOk(p.(sent := p.sent + [s]))
  {
    hide Stream, Join, FinishesOk;
    StreamAppend(p.sent, [s]);
    StreamOfOne(s);
    assert Stream(p.sent) + [] == Stream(p.sent);
    assert p.sent + [s][..0] == p.sent;
    AppendKeepsFinishes(p.sent, [s]);
  }

  lemma SendingKeepsReader(p: Pipe, more: seq<Sent>)
    requires HeldWasSent(p.sent, p.recv.received) && ReaderOk(p)
    ensures HeldWasSent(p.sent + more, p.recv.received)
    ensures InOrder(p.sent + more, p.delivered)
    ensures |p.delivered| < |p.sent| ==> (p.sent + more)[|p.delivered|] == p.sent[|p.delivered|]
  {
  }

  lemma ArrivalKeepsOk(p: Pipe, n: nat)
    requires PipeOk(p)
    ensures PipeOk(Step(p, Arrive(n)))
  {
    hide SenderOk, ReaderOk;
    var q := Step(p, Arrive(n));
    SenderIgnoresReader(p, q);
    assert ReaderOk(q) by { ReaderIgnoresArrivals(p, q); }
    if q != p {
      forall k: nat
        ensures Passed(q.recv, k) <==> k == n || Passed(p.recv, k)
      {
      }
      NumbersAreWords(p);
      ArrivalIsHeld(p.sent, p.recv, n);
      assert forall k :: k in q.arrived <==> k == n || k in p.arrived;
      assert ArrivalsOk(q);
    }
  }

  lemma NumbersAreWords(p: Pipe)
    requires SenderOk(p)
    ensures |p.sent| < U32_LIMIT
  {
  }

  lemma ArrivalIsHeld(sent: seq<Sent>, r: Recv, n: nat)
    requires n < |sent| < U32_LIMIT && Received(sent[n]).Some? && Accepts(r, n)
    requires RecvOk(r) && HeldWasSent(sent, r.received)
    ensures var q := Accept(r, n, Received(sent[n]).value);
            RecvOk(q) && HeldWasSent(sent, q.received)
  {
    var q := Accept(r, n, Received(sent[n]).value);
    forall k | k in q.received
      ensures q.nextSequence <= k < U32_LIMIT && k < |sent| && Received(sent[k]) == Some(q.received[k])
    {
      if k != n { assert k in r.received; }
    }
  }

  lemma ReaderIgnoresArrivals(p: Pipe, q: Pipe)
    requires q == p.(recv := q.recv, arrived := q.arrived)
    requires q.recv == p.recv.(received := q.recv.received)
    ensures ReaderOk(p) == ReaderOk(q)
  {
  }

  lemma SenderIgnoresReader(p: Pipe, q: Pipe)
    requires q == p.(recv := q.recv, arrived := q.arrived, delivered := q.delivered, finReports := q.finReports)
    ensures SenderOk(p) == SenderOk(q)
  {
    hide Stream, Join, FinishesOk, NoEmptyData;
  }

  lemma RunIsInOrder(sent: seq<Sent>, delivered: seq<Buf>, r: Recv, payloads: seq<Buf>)
    requires InOrder(sent, delivered) && HeldWasSent(sent, r.received)
    requires Holds(r, payloads) && r.nextSequence == |delivered|
    ensures InOrder(sent, delivered + payloads)
  {
    var all := delivered + payloads;
    if payloads != [] {
      var last := |payloads| - 1;
      assert HoldsAt(r, r.nextSequence + last, payloads[last]);
    }
    forall i | 0 <= i < |all|
      ensures sent[i] == Data(all[i])
    {
      if i >= |delivered| {
        var payload := payloads[i - |delivered|];
        assert HoldsAt(r, r.nextSequence + (i - |delivered|), payload);
        assert Received(sent[i]) == Some(Push(payload));
      }
    }
  }

  lemma ReassemblyKeepsReader(p: Pipe)
    requires PipeOk(p) && !p.recv.finReached
    ensures ReaderOk(Step(p, Reassemble)) && HeldWasSent(p.sent, Reassembled(p.recv).recv.received)
  {
    hide SenderOk, Drain, ArrivalsOk, RecvOk, Holds, InOrder;
    DrainTakesRun(p.recv);
    RunIsInOrder(p.sent, p.delivered, p.recv, Drain(p.recv).payloads);
  }

  lemma ReassemblyKeepsArrivals(p: Pipe)
    requires PipeOk(p) && !p.recv.finReached
    ensures ArrivalsOk(Step(p, Reassemble))
  {
    hide SenderOk, Drain, ReaderOk, HeldWasSent;
    var d := Drain(p.recv);
    DrainTakesRun(p.recv);
    forall n: nat | Passed(d.recv, n)
      ensures n in p.arrived
    {
      if p.recv.nextSequence <= n < p.recv.nextSequence + |d.payloads| {
        var payload := d.payloads[n - p.recv.nextSequence];
        assert HoldsAt(p.recv, p.recv.nextSequence + (n - p.recv.nextSequence), payload);
      }
      assert Passed(p.recv, n);
    }
  }

  lemma StepKeepsOk(p: Pipe, a: Action)
    requires PipeOk(p)
    ensures PipeOk(Step(p, a))
  {
    hide SenderOk, RecvOk, HeldWasSent, InOrder;
    match a
    case Write(buf) => WriteKeepsSender(p, buf);
    case Packetize(permit) =>
      PacketizeKeepsSender(p, permit);
      SendingKeepsReader(p, Datas(Chunks(p.blocks, p.maxPayloadSize, permit).chunks));
    case SendFin =>
      if CanNumber(p, 1) { NumberingKeepsSender(p, Finish(p.accepted, Join(p.blocks))); }
      SendingKeepsReader(p, [Finish(p.accepted, Join(p.blocks))]);
    case SendChallenge =>
      if CanNumber(p, 1) { NumberingKeepsSender(p, Challenge); }
      SendingKeepsReader(p, [Challenge]);
    case Arrive(n) => ArrivalKeepsOk(p, n);
    case Reassemble =>
      SenderIgnoresReader(p, Step(p, Reassemble));
      ReassemblyKeepsOk(p.recv);
      if !p.recv.finReached {
        ReassemblyKeepsReader(p);
        ReassemblyKeepsArrivals(p);
      } else {
        assert p.delivered + [] == p.delivered;
      }
  }

  lemma {:induction false} RunKeepsOk(p: Pipe, actions: seq<Action>)
    requires PipeOk(p)
    ensures PipeOk(After(p, actions))
    decreases |actions|
  {
    if actions != [] {
      RunKeepsOk(p, actions[..|actions| - 1]);
      StepKeepsOk(After(p, actions[..|actions| - 1]), actions[|actions| - 1]);
    }
  }

  // --- safety over whole runs

  /** Some run from a fresh connection leads here. */
  ghost predicate Reachable(p: Pipe) {
    exists actions :: p == After(Fresh(p.capacity, p.maxPayloadSize), actions)
  }

  lemma ReachableIsOk(p: Pipe)
    requires Reachable(p) && p.maxPayloadSize > 0
    ensures PipeOk(p)
  {
    var actions :| p == After(Fresh(p.capacity, p.maxPayloadSize), actions);
    FreshIsOk(p.capacity, p.maxPayloadSize);
    RunKeepsOk(Fresh(p.capacity, p.maxPayloadSize), actions);
  }

  lemma {:induction false} DeliveredIsStream(sent: seq<Sent>, delivered: seq<Buf>)
    requires InOrder(sent, delivered)
    ensures Join(delivered) == Stream(sent[..|delivered|])
    decreases |delivered|
  {
    if delivered != [] {
      var n := |delivered| - 1;
      DeliveredIsStream(sent, delivered[..n]);
      assert delivered == delivered[..n] + [delivered[n]];
      JoinPush(delivered[..n], delivered[n]);
      assert sent[..n + 1][..n] == sent[..n];
    }
  }

  /** The reader never sees anything but a prefix of what the writer wrote. */
  lemma DeliveredIsPrefix(p: Pipe)
    requires Reachable(p) && p.maxPayloadSize > 0
    ensures Join(p.delivered) <= p.accepted
  {
    hide Stream, Join;
    ReachableIsOk(p);
    DeliveredIsStream(p.sent, p.delivered);
    var n := |p.delivered|;
    assert p.sent == p.sent[..n] + p.sent[n..];
    StreamAppend(p.sent[..n], p.sent[n..]);
  }

  /** Every delivered payload is the payload of its own number: no number is delivered twice
      or out of turn, and none that was a path challenge or the end of the stream. */
  lemma EachNumberOnce(p: Pipe, i: nat)
    requires Reachable(p) && p.maxPayloadSize > 0 && i < |p.delivered|
    ensures i < |p.sent| && p.sent[i] == Data(p.delivered[i])
  {
    ReachableIsOk(p);
  }

  /** The end of the stream is reported at most once. By then the reader has exactly the data
      numbered below it, which is all that had been accepted when it was numbered if and only
      if nothing was waiting in the send buffer at that moment. */
  lemma EndOfStream(p: Pipe)
    requires Reachable(p) && p.maxPayloadSize > 0
    ensures p.finReports <= 1
    ensures p.finReports == 1 ==>
        var end := |p.delivered|;
        && end < |p.sent| && p.sent[end].Finish?
        && Join(p.delivered) == Stream(p.sent[..end])
        && (Join(p.delivered) == p.sent[end].stream <==> p.sent[end].waiting == [])
  {
    hide Stream, Join;
    ReachableIsOk(p);
    DeliveredIsStream(p.sent, p.delivered);
    if p.finReports == 1 {
      var end := |p.delivered|;
      assert p.sent[end].stream == Stream(p.sent[..end]) + p.sent[end].waiting;
      if p.sent[end].waiting == [] { assert Stream(p.sent[..end]) + [] == Stream(p.sent[..end]); }
    }
  }

  /** Closing cuts what the windows permit and then numbers the end of the stream: nothing is
      left behind if and only if the permit covers every frame the buffered data needs. */
  lemma ClosingLosesNothingIff(p: Pipe, permit: nat)
    requires PipeOk(p) && CanNumber(p, |Chunks(p.blocks, p.maxPayloadSize, permit).chunks| + 1)
    ensures var q := Step(Step(p, Packetize(permit)), SendFin);
            var end := q.sent[|q.sent| - 1];
            && end.Finish? && end.stream == q.accepted
            && (end.waiting == [] <==> permit >= FrameCount(p.blocks, p.maxPayloadSize))
  {
    hide Chunks, FrameCount, Join, Stream, PipeOk;
    PayloadSizePositive(p);
    CuttingEmptiesIff(p.blocks, p.maxPayloadSize, permit);
  }

  lemma PayloadSizePositive(p: Pipe)
    requires PipeOk(p)
    ensures p.maxPayloadSize > 0
  {
  }

  /** What one step can never take back. */
  ghost predicate Continues(p: Pipe, q: Pipe) {
    && p.sent <= q.sent
    && p.delivered <= q.delivered
    && p.accepted <= q.accepted
    && (p.recv.finReached ==> q.recv.finReached && q.delivered == p.delivered && q.finReports == p.finReports)
  }

  lemma StepContinues(p: Pipe, a: Action)
    ensures Continues(p, Step(p, a))
  {
    hide Join, Drain, Chunks;
    if a.Reassemble? && p.recv.finReached { assert p.delivered + [] == p.delivered; }
  }

  lemma {:induction false} RunContinues(p: Pipe, actions: seq<Action>)
    ensures Continues(p, After(p, actions))
    decreases |actions|
  {
    hide Step;
    if actions != [] {
      RunContinues(p, actions[..|actions| - 1]);
      StepContinues(After(p, actions[..|actions| - 1]), actions[|actions| - 1]);
    }
  }

  /** Once the end of the stream has been reported, nothing is delivered or reported again. */
  lemma NothingAfterEnd(p: Pipe, actions: seq<Action>)
    requires Reachable(p) && p.maxPayloadSize > 0 && p.finReports == 1
    ensures After(p, actions).delivered == p.delivered && After(p, actions).finReports == 1
  {
    ReachableIsOk(p);
    RunContinues(p, actions);
  }

  /** A path challenge takes a number that never enters the receive buffer, so the stream
      stops there: nothing numbered above it is ever delivered, whatever happens next. */
  lemma ChallengeBlocksStream(p: Pipe, c: nat, actions: seq<Action>)
    requires PipeOk(p) && c < |p.sent| && p.sent[c].Challenge?
    ensures var q := After(p, actions);
            |q.delivered| <= c && (q.finReports == 1 ==> |q.delivered| < c)
  {
    hide SenderOk, ArrivalsOk, RecvOk, HeldWasSent, InOrder, Step, After;
    RunKeepsOk(p, actions);
    RunContinues(p, actions);
    var q := After(p, actions);
    assert q.sent[c] == p.sent[c];
    OnlyDataDelivered(q.sent, q.delivered, c);
  }

  lemma OnlyDataDelivered(sent: seq<Sent>, delivered: seq<Buf>, c: nat)
    requires InOrder(sent, delivered) && c < |sent| && !sent[c].Data?
    ensures |delivered| <= c
  {
  }

  // --- what an acknowledgement says

  ghost predicate Acknowledged(r: Recv, ranges: seq<SackRange>, n: nat) {
    n < r.nextSequence || Acked(ranges, n)
  }

  /** Until the end of the stream is processed, next number and ranges name exactly the
      accepted numbers. */
  lemma AckIsExact(p: Pipe, ranges: seq<SackRange>)
    requires PipeOk(p) && !p.recv.finReached && Describes(ranges, p.recv.received.Keys)
    ensures forall n: nat :: n in p.arrived <==> Acknowledged(p.recv, ranges, n)
  {
    hide SenderOk, HeldWasSent, ReaderOk, Canonical;
    AcknowledgedIsPassed(p.recv, ranges);
  }

  lemma AcknowledgedIsPassed(r: Recv, ranges: seq<SackRange>)
    requires Describes(ranges, r.received.Keys)
    ensures forall n: nat :: Acknowledged(r, ranges, n) <==> Passed(r, n)
  {
    forall n: nat
      ensures Acknowledged(r, ranges, n) <==> Passed(r, n)
    {
      assert Acked(ranges, n) <==> n in r.received.Keys;
    }
  }

  /** The unbroken run of data held ends with the end of the stream, at number `e`. */
  ghost predicate EndsAt(r: Recv, e: nat) {
    && r.nextSequence <= e && e in r.received && r.received[e] == Fin
    && forall k :: r.nextSequence <= k < e ==> k in r.received && r.received[k].Push?
  }

  lemma EndIsDrained(r: Recv, e: nat)
    requires RecvOk(r) && !r.finReached
    ensures EndsAt(r, e) <==> Drain(r).fin && e == r.nextSequence + |Drain(r).payloads|
  {
    hide Drain;
    DrainTakesRun(r);
    var d := Drain(r);
    var stop := r.nextSequence + |d.payloads|;
    forall k | r.nextSequence <= k < stop
      ensures k in r.received && r.received[k].Push?
    {
      assert HoldsAt(r, r.nextSequence + (k - r.nextSequence), d.payloads[k - r.nextSequence]);
    }
  }

  /** A reassembly leaves the acknowledgement exact if and only if it does not reach the end of
      the stream while numbers beyond it are held: those are thrown away. */
  lemma AckStaysExactIff(p: Pipe, ranges: seq<SackRange>)
    requires PipeOk(p) && !p.recv.finReached && Describes(ranges, Step(p, Reassemble).recv.received.Keys)
    ensures var q := Step(p, Reassemble);
            (forall n: nat :: n in q.arrived <==> Acknowledged(q.recv, ranges, n))
            <==> (forall e: nat, n: nat :: EndsAt(p.recv, e) && n in p.recv.received ==> n <= e)
  {
    hide SenderOk, HeldWasSent, ReaderOk, Canonical, Drain, EndsAt;
    var q, d := Step(p, Reassemble), Drain(p.recv);
    var stop := p.recv.nextSequence + |d.payloads|;
    DrainTakesRun(p.recv);
    forall e: nat
      ensures EndsAt(p.recv, e) <==> d.fin && e == stop
    {
      EndIsDrained(p.recv, e);
    }
    AcknowledgedIsPassed(q.recv, ranges);
    if d.fin {
      ArrivedIffPassed(p, stop);
      assert EndsAt(p.recv, stop);
      assert forall n: nat :: Passed(q.recv, n) <==> n <= stop;
      assert (forall n: nat :: n in p.arrived <==> Passed(q.recv, n)) <==> forall n: nat :: n in p.recv.received ==> n <= stop;
    } else {
      ReassemblyKeepsArrivals(p);
    }
  }

  /** Before a reassembly that reaches the end at `stop`, the arrived numbers not above `stop`
      are all the numbers not above it. */
  lemma ArrivedIffPassed(p: Pipe, stop: nat)
    requires PipeOk(p) && !p.recv.finReached && Drain(p.recv).fin
    requires stop == p.recv.nextSequence + |Drain(p.recv).payloads|
    ensures forall n: nat :: n <= stop ==> n in p.arrived
    ensures forall n: nat :: n > stop ==> (n in p.arrived <==> n in p.recv.received)
  {
    hide SenderOk, HeldWasSent, ReaderOk, Drain;
    DrainTakesRun(p.recv);
    var d := Drain(p.recv);
    forall n: nat
      ensures n <= stop ==> Passed(p.recv, n)
      ensures n > stop ==> (Passed(p.recv, n) <==> n in p.recv.received)
    {
      if p.recv.nextSequence <= n < stop {
        assert HoldsAt(p.recv, p.recv.nextSequence + (n - p.recv.nextSequence), d.payloads[n - p.recv.nextSequence]);
      }
    }
  }

  /** After the end nothing more is accepted or acknowledged, so what was lost stays lost. */
  lemma {:induction false} EndIsFinal(p: Pipe, actions: seq<Action>)
    requires p.recv.finReached
    ensures After(p, actions).recv == p.recv && After(p, actions).arrived == p.arrived
    decreases |actions|
  {
    hide Chunks, Join, Drain;
    if actions != [] { EndIsFinal(p, actions[..|actions| - 1]); }
  }

  /** What the peer reads from an acknowledgement frame tells it exactly which numbers have
      been accepted, as long as the ranges fit into one frame. */
  lemma AckTellsPeer(p: Pipe, ranges: seq<SackRange>, peerCid: Frames.U32, windowSize: Frames.U16,
                     timestamp: Frames.U32)
    requires PipeOk(p) && !p.recv.finReached && Describes(ranges, p.recv.received.Keys)
    requires p.recv.nextSequence < U32_LIMIT && |ranges| <= 8191
    ensures var d := Frames.Decode(Frames.Encode(NewAck(peerCid, p.recv.nextSequence, windowSize, ranges, timestamp)));
            && d.Some? && d.value.frame.AckFrame?
            && forall n: nat :: n in p.arrived <==>
                 n < d.value.frame.header.recvNextSequence || Acked(DecodeRanges(d.value.frame.payload), n)
  {
    hide PipeOk, Describes, Acked;
    AckIsExact(p, ranges);
    AckReadsBack(peerCid, p.recv.nextSequence, windowSize, ranges, timestamp);
    assert forall n: nat :: Acknowledged(p.recv, ranges, n) <==> n < p.recv.nextSequence || Acked(ranges, n);
  }

  /** Such a loss is possible: data numbered after the end arrives first. */
  lemma EndForgetsLaterData(b: Byte)
    ensures var p := After(Fresh(1, 1), [SendFin, Write([b]), Packetize(1), Arrive(1), Arrive(0), Reassemble]);
            1 in p.arrived && !Passed(p.recv, 1)
  {
    hide Step, After, Passed;
    var p0 := Fresh(1, 1);
    var p1 := Step(p0, SendFin);
    SixSteps(p0, SendFin, Write([b]), Packetize(1), Arrive(1), Arrive(0), Reassemble);
    OneByteIsCut(p1, b);
    LaterDataIsForgotten(Step(Step(p1, Write([b])), Packetize(1)), b);
  }

  lemma OneByteIsCut(p: Pipe, b: Byte)
    requires p == Step(Fresh(1, 1), SendFin)
    ensures Step(Step(p, Write([b])), Packetize(1))
            == Fresh(1, 1).(accepted := [b], sent := [Finish([], []), Data([b])])
  {
    assert Join<Byte>([]) == [] && [b][..1] == [b];
    assert p == Fresh(1, 1).(sent := [Finish([], [])]);
    assert Step(p, Write([b])) == p.(accepted := [b], blocks := [[b]]);
    assert NextChunk([[b]], 1) == Cut(Some([b]), []);
    assert Chunks([[b]], 1, 1) == Chunking([[b]], []);
  }

  lemma LaterDataIsForgotten(p: Pipe, b: Byte)
    requires p.sent == [Finish([], []), Data([b])] && p.recv == Recv(0, map[], false) && p.arrived == {}
    ensures var q := Step(Step(Step(p, Arrive(1)), Arrive(0)), Reassemble);
            1 in q.arrived && !Passed(q.recv, 1)
  {
    assert Step(p, Arrive(1)).recv == Recv(0, map[1 := Push([b])], false);
    assert Step(Step(p, Arrive(1)), Arrive(0)).recv == Recv(0, map[1 := Push([b]), 0 := Fin], false);
  }

  lemma SixSteps(p: Pipe, a: Action, b: Action, c: Action, d: Action, e: Action, f: Action)
    ensures After(p, [a, b, c, d, e, f]) == Step(Step(Step(Step(Step(Step(p, a), b), c), d), e), f)
  {
    hide Step;
    FourSteps(p, a, b, c, d);
    assert [a, b, c, d, e, f][..5] == [a, b, c, d, e] && [a, b, c, d, e][..4] == [a, b, c, d];
    assert After(p, [a, b, c, d, e]) == Step(After(p, [a, b, c, d]), e);
  }

  // --- runs that show what can go wrong

  /** The end of the stream is numbered while a byte is waiting: the reader is told that the
      stream has ended and never sees the byte. */
  lemma EndCanOvertakeData(b: Byte, actions: seq<Action>)
    ensures var p := After(Fresh(1, 1), [Write([b]), SendFin, Arrive(0), Reassemble]);
            p.accepted == [b] && p.finReports == 1 && After(p, actions).delivered == []
  {
    hide Step, After;
    FourSteps(Fresh(1, 1), Write([b]), SendFin, Arrive(0), Reassemble);
    WriteOne(Fresh(1, 1), b);
    EndWithByteWaiting(Step(Fresh(1, 1), Write([b])), b);
    RunContinues(After(Fresh(1, 1), [Write([b]), SendFin, Arrive(0), Reassemble]), actions);
  }

  lemma WriteOne(p: Pipe, b: Byte)
    requires p.capacity == 1 && p.blocks == []
    ensures Step(p, Write([b])) == p.(accepted := p.accepted + [b], blocks := [[b]])
  {
    assert Join<Byte>([]) == [] && [b][..1] == [b];
  }

  lemma EndWithByteWaiting(p: Pipe, b: Byte)
    requires p == Fresh(1, 1).(accepted := [b], blocks := [[b]])
    ensures var q := Step(Step(Step(p, SendFin), Arrive(0)), Reassemble);
            q.accepted == [b] && q.finReports == 1 && q.delivered == [] && q.recv.finReached
  {
    assert Step(Step(p, SendFin), Arrive(0)).recv == Recv(0, map[0 := Fin], false);
  }

  /** A byte numbered after a path challenge arrives and is acknowledged, but is never
      delivered, whatever happens next. */
  lemma ChallengeCanStallData(b: Byte, actions: seq<Action>)
    ensures var p := After(Fresh(1, 1), [SendChallenge, Write([b]), Packetize(1), Arrive(1)]);
            && p.accepted == [b] && p.sent == [Challenge, Data([b])] && 1 in p.arrived
            && After(p, actions).delivered == []
  {
    hide Step, After, PipeOk;
    var p := After(Fresh(1, 1), [SendChallenge, Write([b]), Packetize(1), Arrive(1)]);
    FourSteps(Fresh(1, 1), SendChallenge, Write([b]), Packetize(1), Arrive(1));
    ByteBehindChallenge(b);
    FreshIsOk(1, 1);
    RunKeepsOk(Fresh(1, 1), [SendChallenge, Write([b]), Packetize(1), Arrive(1)]);
    ChallengeBlocksStream(p, 0, actions);
  }

  lemma ByteBehindChallenge(b: Byte)
    ensures var p := Step(Step(Step(Step(Fresh(1, 1), SendChallenge), Write([b])), Packetize(1)), Arrive(1));
            p.accepted == [b] && p.sent == [Challenge, Data([b])] && 1 in p.arrived
  {
    var p1 := Step(Fresh(1, 1), SendChallenge);
    assert p1 == Fresh(1, 1).(sent := [Challenge]);
    WriteOne(p1, b);
    assert NextChunk([[b]], 1) == Cut(Some([b]), []);
    assert Chunks([[b]], 1, 1) == Chunking([[b]], []);
  }

  lemma FourSteps(p: Pipe, a: Action, b: Action, c: Action, d: Action)
    ensures After(p, [a, b, c, d]) == Step(Step(Step(Step(p, a), b), c), d)
  {
    hide Step;
    assert [a, b, c, d][..3] == [a, b, c] && [a, b, c][..2] == [a, b] && [a, b][..1] == [a] && [a][..0] == [];
    assert After(p, [a]) == Step(p, a);
    assert After(p, [a, b]) == Step(After(p, [a]), b);
    assert After(p, [a, b, c]) == Step(After(p, [a, b]), c);
  }

  // --- how much is delivered

  /** Everything the network is able to bring has come. */
  ghost predicate AllArrived(p: Pipe) {
    forall n: nat :: n < |p.sent| && !p.sent[n].Challenge? ==> n in p.arrived
  }

  /** The first number that is not data. */
  function FirstStop(sent: seq<Sent>): (n: nat)
    ensures n <= |sent| && (forall i :: 0 <= i < n ==> sent[i].Data?) && (n < |sent| ==> !sent[n].Data?)
  {
    if sent == [] || !sent[0].Data? then 0 else 1 + FirstStop(sent[1..])
  }

  /** A number that was sent, other than that of a path challenge, has been accepted once the
      network has brought it, unless the stream has ended. */
  lemma ArrivalIsAccepted(p: Pipe, n: nat)
    requires PipeOk(p) && !p.recv.finReached && n < |p.sent| && !p.sent[n].Challenge?
    ensures n in Step(p, Arrive(n)).arrived
  {
    hide SenderOk, RecvOk, HeldWasSent, ReaderOk;
    assert Passed(p.recv, n) ==> n in p.arrived;
  }

  /** At some point of the run the network brought this number, already sent by then. */
  ghost predicate Brought(p: Pipe, actions: seq<Action>, n: nat) {
    exists i :: 0 <= i < |actions| && actions[i] == Arrive(n) && n < |After(p, actions[..i]).sent|
  }

  lemma ArrivedStays(p: Pipe, a: Action)
    ensures p.arrived <= Step(p, a).arrived
    ensures Step(p, a).recv.finReached || !p.recv.finReached
  {
    hide Chunks, Join, Drain;
  }

  lemma BroughtBefore(p: Pipe, actions: seq<Action>, n: nat)
    requires actions != [] && Brought(p, actions, n)
    ensures var k := |actions| - 1;
            Brought(p, actions[..k], n) || (actions[k] == Arrive(n) && n < |After(p, actions[..k]).sent|)
  {
    hide After;
    var k := |actions| - 1;
    var i :| 0 <= i < |actions| && actions[i] == Arrive(n) && n < |After(p, actions[..i]).sent|;
    if i < k { assert actions[..k][..i] == actions[..i] && actions[..k][i] == Arrive(n); }
  }

  /** Whatever else happens and in whatever order, a number once brought has been accepted. */
  lemma {:induction false} BroughtIsAccepted(p: Pipe, actions: seq<Action>, n: nat)
    requires PipeOk(p) && Brought(p, actions, n)
    requires !After(p, actions).recv.finReached
    requires n < |After(p, actions).sent| && !After(p, actions).sent[n].Challenge?
    ensures n in After(p, actions).arrived
    decreases |actions|
  {
    hide PipeOk, Step, Brought;
    assert actions != [] by { NothingBrought(p, n); }
    var k := |actions| - 1;
    var before, a := After(p, actions[..k]), actions[k];
    BroughtBefore(p, actions, n);
    RunKeepsOk(p, actions[..k]);
    ArrivedStays(before, a);
    StepContinues(before, a);
    if n < |before.sent| { assert before.sent[n] == After(p, actions).sent[n]; }
    if Brought(p, actions[..k], n) {
      BroughtWasSent(p, actions[..k], n);
      BroughtIsAccepted(p, actions[..k], n);
    } else {
      ArrivalIsAccepted(before, n);
    }
  }

  lemma NothingBrought(p: Pipe, n: nat)
    ensures !Brought(p, [], n)
  {
  }

  lemma BroughtWasSent(p: Pipe, actions: seq<Action>, n: nat)
    requires Brought(p, actions, n)
    ensures n < |After(p, actions).sent|
  {
    hide After;
    var i :| 0 <= i < |actions| && actions[i] == Arrive(n) && n < |After(p, actions[..i]).sent|;
    PrefixContinues(p, actions, i);
  }

  lemma {:induction false} PrefixContinues(p: Pipe, actions: seq<Action>, i: nat)
    requires i <= |actions|
    ensures After(p, actions[..i]).sent <= After(p, actions).sent
    decreases |actions|
  {
    hide Step;
    if i == |actions| {
      assert actions[..i] == actions;
    } else {
      var k := |actions| - 1;
      assert actions[..k][..i] == actions[..i];
      PrefixContinues(p, actions[..k], i);
      StepContinues(After(p, actions[..k]), actions[k]);
    }
  }

  /** The network has brought everything sent, at least once. */
  ghost predicate AllBrought(p: Pipe, actions: seq<Action>) {
    forall n: nat :: n < |After(p, actions).sent| && !After(p, actions).sent[n].Challenge? ==> Brought(p, actions, n)
  }

  lemma AllBroughtHasArrived(p: Pipe, actions: seq<Action>)
    requires PipeOk(p) && AllBrought(p, actions) && !After(p, actions).recv.finReached
    ensures AllArrived(After(p, actions))
  {
    hide PipeOk, After, Brought;
    var q := After(p, actions);
    forall n: nat | n < |q.sent| && !q.sent[n].Challenge?
      ensures n in q.arrived
    {
      BroughtIsAccepted(p, actions, n);
    }
  }

  /** Progress, over every run in which the network brings each number at least once, among
      losses, repetitions and in any order: one reassembly later the reader has all data up to
      the first number that is not data, and has been told of the end exactly if that is what
      this number is. */
  lemma FairRunDelivers(p: Pipe, actions: seq<Action>)
    requires PipeOk(p) && AllBrought(p, actions)
    ensures var q := Step(After(p, actions), Reassemble);
            var stop := FirstStop(q.sent);
            && |q.delivered| == stop && InOrder(q.sent, q.delivered)
            && (q.finReports == 1 <==> stop < |q.sent| && q.sent[stop].Finish?)
  {
    hide PipeOk, After, Step, FirstStop, AllBrought, AllArrived;
    var before := After(p, actions);
    RunKeepsOk(p, actions);
    ReassemblyKeepsSent(before);
    if before.recv.finReached {
      EndedIsComplete(before);
    } else {
      AllBroughtHasArrived(p, actions);
      ReassemblyDeliversAll(before);
    }
  }

  lemma ReassemblyKeepsSent(p: Pipe)
    ensures var q := Step(p, Reassemble);
            q.sent == p.sent && q.blocks == p.blocks && q.accepted == p.accepted
    ensures p.recv.finReached ==> Step(p, Reassemble) == p
  {
    if p.recv.finReached { assert p.delivered + [] == p.delivered; }
  }

  /** Once the end has been reported, everything below it has been delivered. */
  lemma EndedIsComplete(p: Pipe)
    requires PipeOk(p) && p.recv.finReached
    ensures var stop := FirstStop(p.sent);
            && |p.delivered| == stop && InOrder(p.sent, p.delivered)
            && p.finReports == 1 && stop < |p.sent| && p.sent[stop].Finish?
  {
    hide SenderOk, RecvOk, HeldWasSent, ArrivalsOk, FirstStop;
    assert InOrder(p.sent, p.delivered);
  }

  /** Then the reader has got all that was cut from the stream if and only if no data was
      numbered after a path challenge or after the end. */
  lemma FairRunDeliversAllIff(p: Pipe, actions: seq<Action>)
    requires PipeOk(p) && AllBrought(p, actions)
    ensures var q := Step(After(p, actions), Reassemble);
            Join(q.delivered) + Join(q.blocks) == q.accepted
            <==> forall i, j :: 0 <= i < j < |q.sent| && !q.sent[i].Data? ==> !q.sent[j].Data?
  {
    hide PipeOk, After, Step, FirstStop, AllBrought, Join, Stream, InOrder;
    var q := Step(After(p, actions), Reassemble);
    FairRunDelivers(p, actions);
    RunKeepsOk(p, actions);
    StepKeepsOk(After(p, actions), Reassemble);
    DeliveredAllIff(q);
  }

  /** Once everything has arrived, reassembly delivers all data up to the first number that is
      not data, and reports the end of the stream if that is what it is. */
  lemma ReassemblyDeliversAll(p: Pipe)
    requires PipeOk(p) && !p.recv.finReached && AllArrived(p)
    ensures var q := Step(p, Reassemble);
            var stop := FirstStop(p.sent);
            && |q.delivered| == stop && InOrder(p.sent, q.delivered)
            && (q.finReports == 1 <==> stop < |p.sent| && p.sent[stop].Finish?)
  {
    hide SenderOk, Drain, FirstStop;
    ReassemblyKeepsReader(p);
    DrainTakesRun(p.recv);
    var q, d := Step(p, Reassemble), Drain(p.recv);
    var stop := |q.delivered|;
    assert stop == p.recv.nextSequence + |d.payloads|;
    assert forall i :: 0 <= i < stop ==> p.sent[i] == Data(q.delivered[i]);
    if stop < |p.sent| && !p.sent[stop].Challenge? {
      assert stop in p.arrived && Passed(p.recv, stop);
      assert Received(p.sent[stop]) == Some(Fin);
    }
  }

  /** A reader who has all data up to the first number that is not data has all that was cut
      if and only if no data is numbered after one that is not. */
  lemma DeliveredAllIff(q: Pipe)
    requires PipeOk(q) && |q.delivered| == FirstStop(q.sent)
    ensures Join(q.delivered) + Join(q.blocks) == q.accepted
            <==> forall i, j :: 0 <= i < j < |q.sent| && !q.sent[i].Data? ==> !q.sent[j].Data?
  {
    hide Stream, Join, FirstStop, RecvOk, HeldWasSent, ArrivalsOk;
    var stop := FirstStop(q.sent);
    DeliveredIsStream(q.sent, q.delivered);
    assert q.sent == q.sent[..stop] + q.sent[stop..];
    StreamAppend(q.sent[..stop], q.sent[stop..]);
    NoBytesIff(q.sent[stop..]);
    var rest := Stream(q.sent[stop..]);
    assert q.accepted == Join(q.delivered) + rest + Join(q.blocks);
    assert Join(q.delivered) + Join(q.blocks) == q.accepted <==> rest == [] by {
      assert |q.accepted| == |Join(q.delivered)| + |rest| + |Join(q.blocks)|;
      if rest == [] { assert Join(q.delivered) + rest == Join(q.delivered); }
    }
    TailHasNoData(q.sent, stop);
  }

  /** When everything has arrived, the reader gets all that was cut from the stream if and only
      if no data was numbered after a path challenge or after the end. */
  lemma AllIsDeliveredIff(p: Pipe)
    requires PipeOk(p) && !p.recv.finReached && AllArrived(p)
    ensures Join(Step(p, Reassemble).delivered) + Join(p.blocks) == p.accepted
            <==> forall i, j :: 0 <= i < j < |p.sent| && !p.sent[i].Data? ==> !p.sent[j].Data?
  {
    hide PipeOk, Step, FirstStop, Join, Stream, InOrder, AllArrived;
    ReassemblyDeliversAll(p);
    StepKeepsOk(p, Reassemble);
    ReassemblyKeepsSent(p);
    DeliveredAllIff(Step(p, Reassemble));
  }

  lemma {:induction false} NoBytesIff(sent: seq<Sent>)
    requires NoEmptyData(sent)
    ensures Stream(sent) == [] <==> forall i :: 0 <= i < |sent| ==> !sent[i].Data?
    decreases |sent|
  {
    if sent != [] {
      var n := |sent| - 1;
      NoBytesIff(sent[..n]);
      assert forall i :: 0 <= i < n ==> sent[..n][i] == sent[i];
      if Stream(sent) == [] {
        assert Stream(sent[..n]) == [] && PayloadOf(sent[n]) == [];
      }
    }
  }

  lemma TailHasNoData(sent: seq<Sent>, stop: nat)
    requires stop == FirstStop(sent)
    ensures (forall i :: 0 <= i < |sent| - stop ==> !sent[stop..][i].Data?)
            <==> forall i, j :: 0 <= i < j < |sent| && !sent[i].Data? ==> !sent[j].Data?
  {
    hide FirstStop;
    var tail := sent[stop..];
    if forall i :: 0 <= i < |tail| ==> !tail[i].Data? {
      forall i, j | 0 <= i < j < |sent| && !sent[i].Data?
        ensures !sent[j].Data?
      {
        assert i >= stop;
        assert tail[j - stop] == sent[j];
      }
    }
    if forall i, j :: 0 <= i < j < |sent| && !sent[i].Data? ==> !sent[j].Data? {
      forall i | 0 <= i < |tail|
        ensures !tail[i].Data?
      {
        assert !sent[stop].Data?;
        assert tail[i] == sent[stop + i];
      }
    }
  }
}
