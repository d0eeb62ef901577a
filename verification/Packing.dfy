/** Coalescing frames into datagrams of limited size, in two places that must agree, and the
    size check made when a connection is first opened. */
module Packing {
  import opened Bits
  import opened Bytes
  import opened Options
  import opened Sequences
  import opened Frames
  import opened Datagrams
  import opened SendBuffers
  import opened Packetizers

  function PacketSize(packet: seq<Frame>): nat {
    if packet == [] then 0 else PacketSize(packet[..|packet| - 1]) + EncodedSize(packet[|packet| - 1])
  }

  /** Greedy packing in order: a frame that does not fit starts the next packet. */
  function PackFrom(current: seq<Frame>, frames: seq<Frame>, maxSize: nat): seq<seq<Frame>>
    decreases |frames|
  {
    if frames == [] then [current]
    else if PacketSize(current) + EncodedSize(frames[0]) <= maxSize
    then PackFrom(current + [frames[0]], frames[1..], maxSize)
    else [current] + PackFrom([frames[0]], frames[1..], maxSize)
  }

  function Pack(frames: seq<Frame>, maxSize: nat): seq<seq<Frame>> {
    if frames == [] then [] else PackFrom([frames[0]], frames[1..], maxSize)
  }

  /** Continuing a packet that may still be empty. */
  function PackOnto(current: seq<Frame>, frames: seq<Frame>, maxSize: nat): seq<seq<Frame>> {
    if current == [] then Pack(frames, maxSize) else PackFrom(current, frames, maxSize)
  }

  lemma {:induction false} SizeAppend(a: seq<Frame>, b: seq<Frame>)
    ensures PacketSize(a + b) == PacketSize(a) + PacketSize(b)
    decreases |b|
  {
    if b == [] {
      assert a + b == a;
    } else {
      SizeAppend(a, b[..|b| - 1]);
      assert (a + b)[..|a + b| - 1] == a + b[..|b| - 1];
    }
  }

  lemma SizeOfOne(f: Frame)
    ensures PacketSize([f]) == EncodedSize(f)
  {
    assert [f][..0] == [];
  }

  /** The size reckoned with is the length of the datagram the packet becomes. */
  lemma {:induction false} PacketSizeIsLength(packet: seq<Frame>)
    ensures PacketSize(packet) == |EncodeAll(packet)|
    decreases |packet|
  {
    hide EncodedSize, Encode;
    if packet != [] {
      PacketSizeIsLength(packet[..|packet| - 1]);
      EncodedSizeIsLength(packet[|packet| - 1]);
    }
  }

  /** Within the limit, or a single frame that exceeds it by itself. */
  predicate Sendable(packet: seq<Frame>, maxSize: nat) {
    packet != [] && (PacketSize(packet) <= maxSize || |packet| == 1)
  }

  /** Packing keeps every frame in order and every packet sendable. */
  lemma {:induction false} PackFromKeepsFrames(current: seq<Frame>, frames: seq<Frame>, maxSize: nat)
    requires Sendable(current, maxSize)
    ensures Join(PackFrom(current, frames, maxSize)) == current + frames
    ensures forall p :: p in PackFrom(current, frames, maxSize) ==> Sendable(p, maxSize)
    decreases |frames|
  {
    if frames == [] {
      assert Join([current]) == current;
    } else {
      var f, rest := frames[0], frames[1..];
      assert frames == [f] + rest;
      SizeAppend(current, [f]);
      SizeOfOne(f);
      if PacketSize(current) + EncodedSize(f) <= maxSize {
        PackFromKeepsFrames(current + [f], rest, maxSize);
        assert current + [f] + rest == current + frames;
      } else {
        PackFromKeepsFrames([f], rest, maxSize);
        var tail := PackFrom([f], rest, maxSize);
        assert ([current] + tail)[1..] == tail;
      }
    }
  }

  lemma PackKeepsFrames(frames: seq<Frame>, maxSize: nat)
    ensures Join(Pack(frames, maxSize)) == frames
    ensures forall p :: p in Pack(frames, maxSize) ==> Sendable(p, maxSize)
  {
    if frames != [] {
      PackFromKeepsFrames([frames[0]], frames[1..], maxSize);
      assert [frames[0]] + frames[1..] == frames;
    }
  }

  /** Sent as one datagram each, the packets are read back as they were packed, so the
      receiver sees all frames in order. */
  lemma PacketsReadBack(frames: seq<Frame>, maxSize: nat, i: nat)
    requires (forall f :: f in frames ==> WireSafe(f)) && i < |Pack(frames, maxSize)|
    ensures var packet := Pack(frames, maxSize)[i];
            && DecodeAll(EncodeAll(packet)) == packet
            && (|EncodeAll(packet)| <= maxSize || |packet| == 1)
  {
    hide Pack, WireSafe, PacketSize, DecodeAll, EncodeAll;
    var packets := Pack(frames, maxSize);
    PackKeepsFrames(frames, maxSize);
    assert packets[i] in packets;
    JoinHolds(packets, i);
    DatagramRoundTrip(packets[i]);
    PacketSizeIsLength(packets[i]);
  }

  lemma {:induction false} JoinHolds(packets: seq<seq<Frame>>, i: nat)
    requires i < |packets|
    ensures forall f :: f in packets[i] ==> f in Join(packets)
    decreases |packets|
  {
    if i > 0 { JoinHolds(packets[1..], i - 1); }
  }

  // --- no split in order uses fewer packets

  /** Every packet is within the limit or a single frame; some may be empty. */
  ghost predicate AllFit(packets: seq<seq<Frame>>, maxSize: nat) {
    forall p :: p in packets ==> PacketSize(p) <= maxSize || |p| == 1
  }

  /** A packet of several frames that starts no later than `skipped + current` and ends within
      `frames` cannot hold all of `current` and the frame that did not fit behind it. */
  lemma EndsBeforeMisfit(packet: seq<Frame>, later: seq<Frame>, skipped: seq<Frame>, current: seq<Frame>,
                         frames: seq<Frame>, maxSize: nat)
    requires packet + later == skipped + current + frames && frames != [] && current != []
    requires PacketSize(packet) <= maxSize || |packet| == 1
    requires maxSize < PacketSize(current) + EncodedSize(frames[0])
    ensures |packet| <= |skipped| + |current|
  {
    hide PacketSize, EncodedSize;
    if |packet| > |skipped| + |current| {
      Overlap(packet, later, skipped, current, frames);
      BiggerThanItsMiddle(skipped, current, frames[0], packet[|skipped| + |current| + 1..]);
    }
  }

  lemma Overlap(packet: seq<Frame>, later: seq<Frame>, skipped: seq<Frame>, current: seq<Frame>, frames: seq<Frame>)
    requires packet + later == skipped + current + frames && frames != []
    requires |packet| > |skipped| + |current|
    ensures packet == skipped + current + [frames[0]] + packet[|skipped| + |current| + 1..]
  {
    var n := |skipped| + |current|;
    assert packet == (packet + later)[..|packet|];
    assert packet == packet[..n] + [packet[n]] + packet[n + 1..];
    assert packet[..n] == (skipped + current + frames)[..n] == skipped + current;
    assert packet[n] == (skipped + current + frames)[n] == frames[0];
  }

  lemma BiggerThanItsMiddle(skipped: seq<Frame>, current: seq<Frame>, f: Frame, tail: seq<Frame>)
    ensures PacketSize(skipped + current + [f] + tail) >= PacketSize(current) + EncodedSize(f)
  {
    hide EncodedSize, PacketSize;
    SizeAppend(skipped + current + [f], tail);
    SizeAppend(skipped + current, [f]);
    SizeAppend(skipped, current);
    SizeOfOne(f);
  }

  /** Dropping the first packet of a split drops its frames from the front. */
  lemma DropPacket(packet: seq<Frame>, later: seq<Frame>, all: seq<Frame>)
    requires packet + later == all
    ensures |packet| <= |all| && later == all[|packet|..]
  {
  }

  /** Greedy packing stays ahead of any split of the same frames, even one that starts
      earlier: it never needs more packets. */
  lemma {:induction false} GreedyStaysAhead(skipped: seq<Frame>, current: seq<Frame>, frames: seq<Frame>,
                                            split: seq<seq<Frame>>, maxSize: nat)
    requires current != [] && AllFit(split, maxSize)
    requires Join(split) == skipped + current + frames
    ensures |PackFrom(current, frames, maxSize)| <= |split|
    decreases |frames| + |split|
  {
    hide PacketSize, EncodedSize, Join;
    JoinSplits(split);
    if frames == [] {
    } else {
      var f, rest := frames[0], frames[1..];
      if PacketSize(current) + EncodedSize(f) <= maxSize {
        assert skipped + (current + [f]) + rest == skipped + current + frames;
        GreedyStaysAhead(skipped, current + [f], rest, split, maxSize);
      } else {
        var packet, later := split[0], split[1..];
        DropPacket(packet, Join(later), skipped + current + frames);
        if |packet| <= |skipped| {
          assert (skipped + current + frames)[|packet|..] == skipped[|packet|..] + current + frames;
          GreedyStaysAhead(skipped[|packet|..], current, frames, later, maxSize);
        } else {
          EndsBeforeMisfit(packet, Join(later), skipped, current, frames, maxSize);
          var left := current[|packet| - |skipped|..];
          assert (skipped + current + frames)[|packet|..] == left + [f] + rest;
          GreedyStaysAhead(left, [f], rest, later, maxSize);
        }
      }
    }
  }

  lemma JoinSplits(split: seq<seq<Frame>>)
    ensures split == [] ==> Join(split) == []
    ensures split != [] ==> Join(split) == split[0] + Join(split[1..])
  {
  }

  /** Of all ways to split the frames in order into packets that are within the limit or a
      single frame, greedy packing uses the fewest. */
  lemma PackIsOptimal(frames: seq<Frame>, split: seq<seq<Frame>>, maxSize: nat)
    requires Join(split) == frames && AllFit(split, maxSize)
    ensures |Pack(frames, maxSize)| <= |split|
  {
    if frames != [] {
      assert [] + [frames[0]] + frames[1..] == frames;
      GreedyStaysAhead([], [frames[0]], frames[1..], split, maxSize);
    }
  }

  // --- the two packers

  /** Collects frames and sends a packet whenever the next frame does not fit. */
  class PacketBuilder {
    var frames: seq<Frame>
    var currentSize: nat
    const maxSize: nat
    /** The transport: packets sent so far, and whether its channel is still open. */
    var sent: seq<seq<Frame>>
    const channelOpen: bool

    ghost predicate Valid()
      reads this
    {
      currentSize == PacketSize(frames)
    }

    constructor (maxSize: nat, channelOpen: bool)
      ensures Valid() && frames == [] && sent == []
      ensures this.maxSize == maxSize && this.channelOpen == channelOpen
    {
      frames := [];
      currentSize := 0;
      this.maxSize := maxSize;
      sent := [];
      this.channelOpen := channelOpen;
    }

    /** Sends what is buffered. A closed channel loses it and reports failure. */
    method Flush() returns (ok: bool)
      requires Valid()
      modifies this
      ensures frames == []
      ensures ok <==> channelOpen || old(frames) == []
      ensures ok ==> Valid() && sent == old(sent) + if old(frames) == [] then [] else [old(frames)]
      ensures !ok ==> sent == old(sent)
    {
      if frames == [] {
        return true;
      }
      var framesToSend := frames;
      frames := [];
      if !channelOpen {
        return false;
      }
      sent := sent + [framesToSend];
      currentSize := 0;
      ok := true;
    }

    method AddFrame(frame: Frame) returns (ok: bool)
      requires Valid()
      modifies this
      ensures ok ==> Valid()
      ensures ok ==>
          if old(frames) != [] && PacketSize(old(frames)) + EncodedSize(frame) > maxSize
          then sent == old(sent) + [old(frames)] && frames == [frame]
          else sent == old(sent) && frames == old(frames) + [frame]
      ensures !ok ==> !channelOpen && sent == old(sent)
    {
      var frameSize := EncodedSize(frame);
      if frames != [] && currentSize + frameSize > maxSize {
        var flushed := Flush();
        if !flushed {
          return false;
        }
      }
      SizeAppend(frames, [frame]);
      SizeOfOne(frame);
      frames := frames + [frame];
      currentSize := currentSize + frameSize;
      ok := true;
    }

    /** Whatever was buffered, the packets come out as greedy packing of all the frames. */
    method AddFrames(fs: seq<Frame>) returns (ok: bool)
      requires Valid()
      modifies this
      ensures ok ==> Valid()
      ensures ok ==> sent + (if frames == [] then [] else [frames])
                     == old(sent) + PackOnto(old(frames), fs, maxSize)
      ensures !ok ==> !channelOpen
    {
      ghost var goal := sent + PackOnto(frames, fs, maxSize);
      assert fs[0..] == fs;
      for i := 0 to |fs|
        invariant Valid()
        invariant sent + PackOnto(frames, fs[i..], maxSize) == goal
      {
        hide PackFrom, PacketSize, EncodedSize;
        ghost var sent0, frames0 := sent, frames;
        assert fs[i..][0] == fs[i] && fs[i..][1..] == fs[i + 1..];
        var added := AddFrame(fs[i]);
        if !added {
          return false;
        }
        PackOneMore(sent0, frames0, fs[i..], maxSize, sent, frames);
      }
      NothingLeftToPack(frames, maxSize);
      ok := true;
    }
  }

  lemma PackOneMore(sent0: seq<seq<Frame>>, frames0: seq<Frame>, fs: seq<Frame>, maxSize: nat,
                    sent: seq<seq<Frame>>, frames: seq<Frame>)
    requires fs != []
    requires if frames0 != [] && PacketSize(frames0) + EncodedSize(fs[0]) > maxSize
             then sent == sent0 + [frames0] && frames == [fs[0]]
             else sent == sent0 && frames == frames0 + [fs[0]]
    ensures sent + PackOnto(frames, fs[1..], maxSize) == sent0 + PackOnto(frames0, fs, maxSize)
  {
    if frames0 == [] { assert frames == [fs[0]]; }
  }

  lemma NothingLeftToPack(frames: seq<Frame>, maxSize: nat)
    ensures PackOnto(frames, [], maxSize) == if frames == [] then [] else [frames]
  {
  }

  /** Sends a list of frames through a fresh builder. */
  method SendFrames(frames: seq<Frame>, maxSize: nat, channelOpen: bool) returns (ok: bool, sent: seq<seq<Frame>>)
    ensures ok ==> sent == Pack(frames, maxSize)
    ensures !ok ==> !channelOpen
  {
    hide PackFrom, PacketSize;
    var builder := new PacketBuilder(maxSize, channelOpen);
    ok := builder.AddFrames(frames);
    if ok {
      ghost var packets := builder.sent + if builder.frames == [] then [] else [builder.frames];
      assert packets == [] + Pack(frames, maxSize) == Pack(frames, maxSize);
      ok := builder.Flush();
      assert ok ==> builder.sent == packets;
    }
    sent := builder.sent;
  }

  /** The server's first packets: the handshake answer in front, then the data frames. The
      packets are the ones a builder fed the same frames would send. */
  method PacketizeZeroRtt(context: Context, sendBuffer: SendBuffer, sequenceNumberCounter: nat, synAck: Frame,
                          maxPacketSize: nat) returns (packets: seq<seq<Frame>>, nextSequenceNumber: nat)
    requires sendBuffer.Valid()
    requires var c := Chunks(sendBuffer.streamBuffer, context.maxPayloadSize, Permit(context));
             c.chunks != [] ==> EncodedSize(synAck) <= maxPacketSize
    requires sequenceNumberCounter
             + |Chunks(sendBuffer.streamBuffer, context.maxPayloadSize, Permit(context)).chunks| < U32_LIMIT
    modifies sendBuffer
    ensures var c := Chunks(old(sendBuffer.streamBuffer), context.maxPayloadSize, Permit(context));
            && sendBuffer.streamBuffer == c.blocks
            && nextSequenceNumber == sequenceNumberCounter + |c.chunks|
            && packets == Pack([synAck] + PushFrames(context, sequenceNumberCounter, c.chunks), maxPacketSize)
    ensures context.maxPayloadSize > 0 ==> sendBuffer.Valid()
    ensures Join(packets) != [] && Join(packets)[0] == synAck
    ensures context.maxPayloadSize > 0 ==>
        var sent := Join(packets)[1..];
        && nextSequenceNumber == sequenceNumberCounter + |sent|
        && Carry(context, sequenceNumberCounter, old(Join(sendBuffer.streamBuffer)), sent, Join(sendBuffer.streamBuffer))
        && FillsWindows(context, |sent|, Join(sendBuffer.streamBuffer))
  {
    hide Chunks, Permit, Pack, PackFrom, EncodedSize, Join, Carry, FillsWindows, PacketSize;
    ghost var c := Chunks(sendBuffer.streamBuffer, context.maxPayloadSize, Permit(context));
    var pushFrames;
    pushFrames, nextSequenceNumber := Packetize(context, sendBuffer, sequenceNumberCounter, None);
    assert pushFrames == PushFrames(context, sequenceNumberCounter, c.chunks);
    PackKeepsFrames([synAck] + pushFrames, maxPacketSize);
    assert ([synAck] + pushFrames)[1..] == pushFrames && pushFrames[0..] == pushFrames;
    PackBehindFirst(synAck, pushFrames, maxPacketSize);
    if pushFrames == [] {
      return [[synAck]], nextSequenceNumber;
    }
    packets := PackBehind(synAck, pushFrames, maxPacketSize);
  }

  lemma PackBehindFirst(first: Frame, rest: seq<Frame>, maxSize: nat)
    ensures Pack([first] + rest, maxSize) == PackFrom([first], rest, maxSize)
    ensures rest == [] ==> Pack([first] + rest, maxSize) == [[first]]
  {
    assert ([first] + rest)[1..] == rest;
  }

  /** Fills the first packet behind the handshake frame, then the following ones. */
  method PackBehind(synAck: Frame, pushFrames: seq<Frame>, maxPacketSize: nat) returns (packets: seq<seq<Frame>>)
    ensures packets == PackFrom([synAck], pushFrames, maxPacketSize)
  {
    packets := [];
    var currentPacket, currentSize := [synAck], EncodedSize(synAck);
    SizeOfOne(synAck);
    ghost var goal := PackFrom(currentPacket, pushFrames, maxPacketSize);
    assert pushFrames[0..] == pushFrames && packets + goal == goal;
    var i := 0;
    while i < |pushFrames|
      invariant i <= |pushFrames| && currentSize == PacketSize(currentPacket) && currentPacket != []
      invariant packets + PackFrom(currentPacket, pushFrames[i..], maxPacketSize) == goal
    {
      hide PackFrom, PacketSize, EncodedSize;
      var frame := pushFrames[i];
      var frameSize := EncodedSize(frame);
      PackStep(packets, currentPacket, pushFrames, i, maxPacketSize);
      i := i + 1;
      if currentSize + frameSize <= maxPacketSize {
        currentPacket := currentPacket + [frame];
        currentSize := currentSize + frameSize;
      } else {
        packets := packets + [currentPacket];
        currentPacket := [frame];
        currentSize := frameSize;
        break;
      }
    }
    while i < |pushFrames|
      invariant i <= |pushFrames| && currentSize == PacketSize(currentPacket) && currentPacket != []
      invariant packets + PackFrom(currentPacket, pushFrames[i..], maxPacketSize) == goal
    {
      hide PackFrom, PacketSize, EncodedSize;
      var frame := pushFrames[i];
      var frameSize := EncodedSize(frame);
      PackStep(packets, currentPacket, pushFrames, i, maxPacketSize);
      i := i + 1;
      if currentSize + frameSize <= maxPacketSize {
        currentPacket := currentPacket + [frame];
        currentSize := currentSize + frameSize;
      } else {
        packets := packets + [currentPacket];
        currentPacket := [frame];
        currentSize := frameSize;
      }
    }
    assert pushFrames[i..] == [];
    packets := packets + [currentPacket];
  }

  lemma PackStep(packets: seq<seq<Frame>>, current: seq<Frame>, frames: seq<Frame>, i: nat, maxSize: nat)
    requires i < |frames|
    ensures PacketSize(current + [frames[i]]) == PacketSize(current) + EncodedSize(frames[i])
    ensures PacketSize([frames[i]]) == EncodedSize(frames[i])
    ensures packets + PackFrom(current, frames[i..], maxSize)
            == if PacketSize(current) + EncodedSize(frames[i]) <= maxSize
               then packets + PackFrom(current + [frames[i]], frames[i + 1..], maxSize)
               else packets + [current] + PackFrom([frames[i]], frames[i + 1..], maxSize)
  {
    assert frames[i..][0] == frames[i] && frames[i..][1..] == frames[i + 1..];
    SizeAppend(current, [frames[i]]);
    SizeOfOne(frames[i]);
  }

  // --- the first packet of a client

  const SYN_SIZE: nat := 1 + LONG_HEADER_SIZE
  const PUSH_OVERHEAD: nat := 1 + SHORT_HEADER_SIZE

  /** The check made before a connection is opened with initial data. */
  predicate InitialDataFits(size: nat, maxPayloadSize: nat, maxPacketSize: nat)
    requires size > 0 ==> maxPayloadSize > 0
  {
    size == 0 || SYN_SIZE + CeilDiv(size, maxPayloadSize) * PUSH_OVERHEAD + size <= maxPacketSize
  }

  /** What the send buffer cuts from the data once it has been written to the empty buffer. */
  function InitialChunks(context: Context, data: Buf, capacity: nat): seq<Buf> {
    Chunks(AfterWrite([], capacity, 0, data), context.maxPayloadSize, Permit(context)).chunks
  }

  /** The frames of the first packet: the handshake request and what the windows permit of
      the data. */
  function InitialFrames(context: Context, data: Buf, capacity: nat, syn: LongHeader): seq<Frame>
    requires |InitialChunks(context, data, capacity)| <= U32_LIMIT
  {
    [SynFrame(syn)] + PushFrames(context, 0, InitialChunks(context, data, capacity))
  }

  /** The first packet is the handshake request and data frames for the peer, numbered from
      zero, that carry the front of the data. */
  lemma InitialFramesCarry(context: Context, data: Buf, capacity: nat, syn: LongHeader)
    requires context.maxPayloadSize > 0 && |InitialChunks(context, data, capacity)| <= U32_LIMIT
    ensures var fs := InitialFrames(context, data, capacity, syn);
            && fs != [] && fs[0] == SynFrame(syn)
            && (forall i :: 1 <= i < |fs| ==> IsDataFrame(context, i - 1, fs[i]))
            && exists left :: Carried(fs[1..]) + left == data[..|data| - |Dropped(data, capacity)|]
                 && FillsWindows(context, |fs| - 1, left)
  {
    hide Chunks, Permit, Join, Carried, IsDataFrame, FillsWindows;
    var blocks := AfterWrite([], capacity, 0, data);
    var left := Join(Chunks(blocks, context.maxPayloadSize, Permit(context)).blocks);
    CutFillsWindows(context, 0, blocks);
    var fs := InitialFrames(context, data, capacity, syn);
    assert fs[1..] == PushFrames(context, 0, InitialChunks(context, data, capacity));
    WrittenToEmpty(data, capacity);
    assert Carried(fs[1..]) + left == data[..|data| - |Dropped(data, capacity)|];
  }

  /** What an empty buffer has no room for. */
  function Dropped(data: Buf, capacity: nat): Buf {
    if |data| <= capacity then [] else data[capacity..]
  }

  lemma WrittenToEmpty(data: Buf, capacity: nat)
    ensures Join(AfterWrite([], capacity, 0, data)) == data[..|data| - |Dropped(data, capacity)|]
  {
    WriteFillsRoom([], capacity, data);
    assert Join<Byte>([]) == [];
  }

  lemma {:induction false} PushFramesSize(c: Context, first: nat, chunks: seq<Buf>)
    requires first + |chunks| <= U32_LIMIT
    ensures PacketSize(PushFrames(c, first, chunks)) == PUSH_OVERHEAD * |chunks| + |Join(chunks)|
    decreases |chunks|
  {
    if chunks == [] {
      assert PushFrames(c, first, chunks) == [];
    } else {
      var n := |chunks| - 1;
      assert chunks[..n] + [chunks[n]] == chunks;
      PushFramesSize(c, first, chunks[..n]);
      PushOneMore(c, first, chunks[..n], chunks[n]);
      var last := NewPush(c.peerCid, first + n, c.recvNextSequence, c.localWindowSize, c.timestamp, chunks[n]);
      SizeAppend(PushFrames(c, first, chunks[..n]), [last]);
      SizeOfOne(last);
      JoinPush(chunks[..n], chunks[n]);
    }
  }

  /** How many chunks initial data is cut into and how many bytes they carry: as much as the
      buffer took and the windows permit, up to all of it. */
  lemma InitialChunkSizes(context: Context, data: Buf, capacity: nat)
    requires data != [] ==> context.maxPayloadSize > 0
    ensures var chunks := InitialChunks(context, data, capacity);
            && |chunks| <= Permit(context) && |Join(chunks)| <= |data|
            && (data == [] ==> chunks == [])
            && (data != [] ==> |chunks| <= CeilDiv(|data|, context.maxPayloadSize))
            && (data != [] && capacity >= |data| && Permit(context) >= CeilDiv(|data|, context.maxPayloadSize) ==>
                  |chunks| == CeilDiv(|data|, context.maxPayloadSize) && Join(chunks) == data)
  {
    hide Chunks, CeilDiv, Permit;
    var maxSize, permit := context.maxPayloadSize, Permit(context);
    var blocks := AfterWrite([], capacity, 0, data);
    if data == [] {
      NoChunksFromNothing(blocks, maxSize, permit);
    } else {
      ChunksAreFront(blocks, maxSize, permit);
      var taken := data[..Accepted(capacity, 0, data)];
      OneBlock(taken, maxSize);
      CeilDivMonotone(|taken|, |data|, maxSize);
      if capacity >= |data| && permit >= CeilDiv(|data|, maxSize) {
        assert taken == data;
        EnoughPermitTakesAll(blocks, maxSize, permit);
      }
    }
  }

  lemma NoChunksFromNothing(blocks: seq<Buf>, maxSize: nat, permit: nat)
    requires blocks == [] || blocks == [[]]
    ensures Chunks(blocks, maxSize, permit).chunks == []
  {
    if blocks == [[]] { assert NextChunk(blocks, maxSize) == NextChunk([], maxSize); }
  }

  lemma OneBlock(block: Buf, maxSize: nat)
    requires maxSize > 0
    ensures Join([block]) == block && Join<Byte>([]) == []
    ensures FrameCount([block], maxSize) == CeilDiv(|block|, maxSize) && FrameCount([], maxSize) == 0
  {
  }

  lemma CeilDivMonotone(a: nat, b: nat, d: nat)
    requires d > 0 && a <= b
    ensures CeilDiv(a, d) <= CeilDiv(b, d)
  {
    DivMonotone(a + d - 1, b + d - 1, d);
  }

  /** Data that passed the check always goes out in one packet, whatever the buffer took and
      the windows permit. */
  lemma InitialPacketFits(context: Context, data: Buf, capacity: nat, syn: LongHeader, maxPacketSize: nat)
    requires data != [] ==> context.maxPayloadSize > 0
    requires maxPacketSize >= SYN_SIZE && InitialDataFits(|data|, context.maxPayloadSize, maxPacketSize)
    ensures |InitialChunks(context, data, capacity)| <= U32_LIMIT
    ensures PacketSize(InitialFrames(context, data, capacity, syn)) <= maxPacketSize
  {
    hide InitialChunks, CeilDiv, PacketSize, Join, Permit;
    InitialChunkSizes(context, data, capacity);
    InitialPacketSize(context, data, capacity, syn);
  }

  /** The check refuses nothing that would have fitted: when there is no data, or buffer and
      windows take all of it, the packet is within the limit if and only if the check passes. */
  lemma InitialCheckIsExact(context: Context, data: Buf, capacity: nat, syn: LongHeader, maxPacketSize: nat)
    requires if data == [] then maxPacketSize >= 10
             else context.maxPayloadSize > 0 && capacity >= |data|
                  && Permit(context) >= CeilDiv(|data|, context.maxPayloadSize)
    ensures |InitialChunks(context, data, capacity)| <= U32_LIMIT
    ensures PacketSize(InitialFrames(context, data, capacity, syn)) <= maxPacketSize
            <==> InitialDataFits(|data|, context.maxPayloadSize, maxPacketSize)
  {
    hide InitialChunks, CeilDiv, PacketSize, Join, Permit;
    InitialChunkSizes(context, data, capacity);
    InitialPacketSize(context, data, capacity, syn);
  }

  lemma PermitIsWord(c: Context)
    ensures Permit(c) < U32_LIMIT
  {
  }

  lemma InitialPacketSize(context: Context, data: Buf, capacity: nat, syn: LongHeader)
    requires |InitialChunks(context, data, capacity)| <= Permit(context)
    ensures var chunks := InitialChunks(context, data, capacity);
            && |chunks| <= U32_LIMIT
            && PacketSize(InitialFrames(context, data, capacity, syn))
               == SYN_SIZE + PUSH_OVERHEAD * |chunks| + |Join(chunks)|
  {
    hide InitialChunks, PacketSize, Join, Permit;
    PermitIsWord(context);
    var chunks := InitialChunks(context, data, capacity);
    PushFramesSize(context, 0, chunks);
    SizeOfOne(SynFrame(syn));
    SizeAppend([SynFrame(syn)], PushFrames(context, 0, chunks));
  }
}
