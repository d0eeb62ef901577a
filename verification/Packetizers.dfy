/** Cutting the outgoing stream into data frames. */
module Packetizers {
  import opened Bits
  import opened Bytes
  import opened Options
  import opened Sequences
  import opened Frames
  import opened SendBuffers

  datatype Context = Context(
    peerCid: U32,
    timestamp: U32,
    congestionWindow: U32,
    inFlightCount: nat,
    peerRecvWindow: U32,
    maxPayloadSize: nat,
    recvNextSequence: U32,
    localWindowSize: U16)

  /** How many frames the congestion window and the peer's window allow. */
  function Permit(c: Context): nat {
    Smaller(SaturatingSub(c.congestionWindow, AsU32(c.inFlightCount)),
            SaturatingSub(c.peerRecvWindow, AsU32(c.inFlightCount)))
  }

  /** Using the whole permit never takes the frames in flight beyond a window they were
      within, exactly if the in-flight count survives its cast to 32 bits or what the cast
      leaves of it still fills a window. */
  lemma PermitRespectsWindowsIff(c: Context)
    ensures var window := Smaller(c.congestionWindow, c.peerRecvWindow);
            c.inFlightCount + Permit(c) <= (if c.inFlightCount <= window then window else c.inFlightCount)
            <==> c.inFlightCount < U32_LIMIT || AsU32(c.inFlightCount) >= window
  {
    if c.inFlightCount < U32_LIMIT { SmallMod(c.inFlightCount, U32_LIMIT); }
  }

  datatype Chunking = Chunking(chunks: seq<Buf>, blocks: seq<Buf>)

  /** Up to `permit` chunks from the front of the queue, and the queue left behind. */
  function Chunks(blocks: seq<Buf>, maxSize: nat, permit: nat): Chunking
    decreases permit
  {
    if permit == 0 || blocks == [] then Chunking([], blocks)
    else
      var cut := NextChunk(blocks, maxSize);
      match cut.chunk
      case None => Chunking([], cut.blocks)
      case Some(chunk) =>
        var rest := Chunks(cut.blocks, maxSize, permit - 1);
        Chunking([chunk] + rest.chunks, rest.blocks)
  }

  function CeilDiv(n: nat, d: nat): nat
    requires d > 0
  {
    (n + d - 1) / d
  }

  /** The number of frames a queue needs: each block is cut on its own. */
  function FrameCount(blocks: seq<Buf>, maxSize: nat): nat
    requires maxSize > 0
  {
    if blocks == [] then 0 else CeilDiv(|blocks[0]|, maxSize) + FrameCount(blocks[1..], maxSize)
  }

  lemma CeilDivSteps(n: nat, d: nat)
    requires d > 0
    ensures n == 0 ==> CeilDiv(n, d) == 0
    ensures 0 < n <= d ==> CeilDiv(n, d) == 1
    ensures n > d ==> CeilDiv(n, d) == 1 + CeilDiv(n - d, d)
  {
    if n == 0 {
      QuotientAndRemainder(d - 1, d, 0, d - 1);
    } else if n <= d {
      QuotientAndRemainder(n + d - 1, d, 1, n - 1);
    } else {
      var q, r := (n - 1) / d, (n - 1) % d;
      assert n - 1 == q * d + r;
      assert n + d - 1 == (q + 1) * d + r;
      QuotientAndRemainder(n + d - 1, d, q + 1, r);
    }
  }

  lemma {:induction false} NextChunkCounts(blocks: seq<Buf>, maxSize: nat)
    requires maxSize > 0
    ensures var c := NextChunk(blocks, maxSize);
            FrameCount(blocks, maxSize) == FrameCount(c.blocks, maxSize) + if c.chunk.Some? then 1 else 0
    decreases |blocks|
  {
    if blocks != [] {
      CeilDivSteps(|blocks[0]|, maxSize);
      if |blocks[0]| == 0 {
        NextChunkCounts(blocks[1..], maxSize);
      } else if |blocks[0]| > maxSize {
        var rest := [blocks[0][maxSize..]] + blocks[1..];
        assert rest[1..] == blocks[1..];
      }
    }
  }

  ghost predicate Sized(chunks: seq<Buf>, maxSize: nat) {
    forall c :: c in chunks ==> 0 < |c| <= maxSize
  }

  /** The chunks and the queue left behind are the stream; the chunks are as many as the
      permit or the data allow, none empty, none too long. */
  lemma {:induction false} ChunksAreFront(blocks: seq<Buf>, maxSize: nat, permit: nat)
    requires maxSize > 0
    ensures var c := Chunks(blocks, maxSize, permit);
            && Join(blocks) == Join(c.chunks) + Join(c.blocks)
            && |c.chunks| == Smaller(permit, FrameCount(blocks, maxSize))
            && Sized(c.chunks, maxSize)
    decreases permit
  {
    hide FrameCount, NextChunk, Join, Chunks;
    NextChunkKeepsStream(blocks, maxSize);
    NextChunkCounts(blocks, maxSize);
    ChunksUnfold(blocks, maxSize, permit);
    NothingToCut(maxSize);
    if permit > 0 && blocks != [] {
      var cut := NextChunk(blocks, maxSize);
      if cut.chunk.Some? {
        ChunksAreFront(cut.blocks, maxSize, permit - 1);
        JoinFirst(cut.chunk.value, Chunks(cut.blocks, maxSize, permit - 1).chunks);
      }
    }
  }

  lemma {:induction false} NoFramesNoBytes(blocks: seq<Buf>, maxSize: nat)
    requires maxSize > 0 && FrameCount(blocks, maxSize) == 0
    ensures Join(blocks) == []
    decreases |blocks|
  {
    if blocks != [] {
      CeilDivSteps(|blocks[0]|, maxSize);
      NoFramesNoBytes(blocks[1..], maxSize);
    }
  }

  /** A permit for every frame the queue needs empties the stream. */
  lemma {:induction false} EnoughPermitTakesAll(blocks: seq<Buf>, maxSize: nat, permit: nat)
    requires maxSize > 0 && permit >= FrameCount(blocks, maxSize)
    ensures Join(Chunks(blocks, maxSize, permit).blocks) == []
    ensures Join(Chunks(blocks, maxSize, permit).chunks) == Join(blocks)
    decreases permit
  {
    hide FrameCount, NextChunk, Join, Chunks;
    ChunksAreFront(blocks, maxSize, permit);
    ChunksUnfold(blocks, maxSize, permit);
    NextChunkKeepsStream(blocks, maxSize);
    NextChunkCounts(blocks, maxSize);
    NothingToCut(maxSize);
    if permit == 0 {
      NoFramesNoBytes(blocks, maxSize);
    } else if blocks != [] && NextChunk(blocks, maxSize).chunk.Some? {
      EnoughPermitTakesAll(NextChunk(blocks, maxSize).blocks, maxSize, permit - 1);
    }
  }

  /** The frames cut and the frames still needed add up. */
  lemma {:induction false} FramesStillNeeded(blocks: seq<Buf>, maxSize: nat, permit: nat)
    requires maxSize > 0
    ensures var c := Chunks(blocks, maxSize, permit);
            |c.chunks| + FrameCount(c.blocks, maxSize) == FrameCount(blocks, maxSize)
    decreases permit
  {
    hide FrameCount, NextChunk, Chunks, Join;
    ChunksUnfold(blocks, maxSize, permit);
    NextChunkKeepsStream(blocks, maxSize);
    NextChunkCounts(blocks, maxSize);
    NothingToCut(maxSize);
    if permit > 0 && blocks != [] && NextChunk(blocks, maxSize).chunk.Some? {
      FramesStillNeeded(NextChunk(blocks, maxSize).blocks, maxSize, permit - 1);
    }
  }

  lemma {:induction false} NoBytesNoFrames(blocks: seq<Buf>, maxSize: nat)
    requires maxSize > 0 && Join(blocks) == []
    ensures FrameCount(blocks, maxSize) == 0
    decreases |blocks|
  {
    if blocks != [] {
      assert |Join(blocks)| == |blocks[0]| + |Join(blocks[1..])|;
      CeilDivSteps(|blocks[0]|, maxSize);
      NoBytesNoFrames(blocks[1..], maxSize);
    }
  }

  /** Cutting empties the stream if and only if the permit covers every frame it needs. */
  lemma CuttingEmptiesIff(blocks: seq<Buf>, maxSize: nat, permit: nat)
    requires maxSize > 0
    ensures Join(Chunks(blocks, maxSize, permit).blocks) == [] <==> permit >= FrameCount(blocks, maxSize)
  {
    hide FrameCount, Chunks, Join;
    var c := Chunks(blocks, maxSize, permit);
    FramesStillNeeded(blocks, maxSize, permit);
    ChunksAreFront(blocks, maxSize, permit);
    if permit >= FrameCount(blocks, maxSize) {
      EnoughPermitTakesAll(blocks, maxSize, permit);
    } else if Join(c.blocks) == [] {
      NoBytesNoFrames(c.blocks, maxSize);
    }
  }

  lemma ChunksUnfold(blocks: seq<Buf>, maxSize: nat, permit: nat)
    ensures permit == 0 || blocks == [] ==> Chunks(blocks, maxSize, permit) == Chunking([], blocks)
    ensures permit > 0 && blocks != [] ==>
        var cut := NextChunk(blocks, maxSize);
        && (cut.chunk.None? ==> Chunks(blocks, maxSize, permit) == Chunking([], cut.blocks))
        && (cut.chunk.Some? ==>
              var rest := Chunks(cut.blocks, maxSize, permit - 1);
              Chunks(blocks, maxSize, permit) == Chunking([cut.chunk.value] + rest.chunks, rest.blocks))
  {
  }

  lemma NothingToCut(maxSize: nat)
    requires maxSize > 0
    ensures Join<Byte>([]) == [] && FrameCount([], maxSize) == 0
  {
  }

  lemma JoinFirst(first: Buf, rest: seq<Buf>)
    ensures Join([first] + rest) == first + Join(rest)
  {
    assert ([first] + rest)[1..] == rest;
  }

  /** The data frames of some chunks, numbered consecutively. */
  function PushFrames(c: Context, first: nat, chunks: seq<Buf>): (fs: seq<Frame>)
    requires first + |chunks| <= U32_LIMIT
    ensures |fs| == |chunks|
    ensures forall i :: 0 <= i < |fs| ==>
        fs[i] == NewPush(c.peerCid, first + i, c.recvNextSequence, c.localWindowSize, c.timestamp, chunks[i])
  {
    seq(|chunks|, i requires 0 <= i < |chunks| =>
      NewPush(c.peerCid, first + i, c.recvNextSequence, c.localWindowSize, c.timestamp, chunks[i]))
  }

  // --- what a call sends, without reference to how it is cut

  /** A data frame with these bytes for the peer of the context, under number `n`. */
  predicate IsDataFrame(c: Context, n: nat, f: Frame) {
    && f.PushFrame? && f.header.command.Push? && f.header.payloadLength == |f.payload| % 0x1_0000
    && Says(f.header, c.peerCid, n, c.recvNextSequence, c.localWindowSize, c.timestamp)
    && 0 < |f.payload| <= c.maxPayloadSize
  }

  function PayloadOf(f: Frame): Buf {
    if f.PushFrame? then f.payload else []
  }

  /** The bytes a list of frames carries. */
  function Carried(fs: seq<Frame>): Buf {
    if fs == [] then [] else PayloadOf(fs[0]) + Carried(fs[1..])
  }

  /** The frames, numbered from `first`, carry the stream `before` as far as `after`. */
  ghost predicate Carry(c: Context, first: nat, before: Buf, fs: seq<Frame>, after: Buf) {
    && (forall i :: 0 <= i < |fs| ==> IsDataFrame(c, first + i, fs[i]))
    && Carried(fs) + after == before
  }

  function SmallerWindow(c: Context): U32 {
    if c.congestionWindow <= c.peerRecvWindow then c.congestionWindow else c.peerRecvWindow
  }

  /** `sent` frames are as many as both windows allow beyond those in flight, or they are all
      there was to send. The in-flight count is looked at through its low 32 bits. */
  predicate FillsWindows(c: Context, sent: nat, left: Buf) {
    var inFlight := c.inFlightCount % 0x1_0000_0000;
    && (sent > 0 ==> inFlight + sent <= c.congestionWindow && inFlight + sent <= c.peerRecvWindow)
    && (left != [] ==> inFlight + sent >= c.congestionWindow || inFlight + sent >= c.peerRecvWindow)
  }

  lemma {:induction false} PushFramesCarry(c: Context, first: nat, chunks: seq<Buf>)
    requires first + |chunks| <= U32_LIMIT
    ensures Carried(PushFrames(c, first, chunks)) == Join(chunks)
    decreases |chunks|
  {
    if chunks != [] {
      PushFramesCarry(c, first + 1, chunks[1..]);
      assert PushFrames(c, first, chunks)[1..] == PushFrames(c, first + 1, chunks[1..]);
    }
  }

  lemma PushFramesAreData(c: Context, first: nat, chunks: seq<Buf>)
    requires first + |chunks| <= U32_LIMIT && Sized(chunks, c.maxPayloadSize)
    ensures forall i :: 0 <= i < |chunks| ==> IsDataFrame(c, first + i, PushFrames(c, first, chunks)[i])
  {
    forall i | 0 <= i < |chunks|
      ensures IsDataFrame(c, first + i, PushFrames(c, first, chunks)[i])
    {
      assert chunks[i] in chunks;
    }
  }

  /** What is cut and numbered is the front of the stream, for the right peer, and no window is
      left unused while a byte is waiting. */
  lemma CutFillsWindows(c: Context, first: nat, blocks: seq<Buf>)
    requires c.maxPayloadSize > 0
    requires first + |Chunks(blocks, c.maxPayloadSize, Permit(c)).chunks| <= U32_LIMIT
    ensures var cut := Chunks(blocks, c.maxPayloadSize, Permit(c));
            && Carry(c, first, Join(blocks), PushFrames(c, first, cut.chunks), Join(cut.blocks))
            && FillsWindows(c, |cut.chunks|, Join(cut.blocks))
            && (c.inFlightCount <= SmallerWindow(c) ==>
                  Join(cut.blocks) == [] || c.inFlightCount + |cut.chunks| == SmallerWindow(c))
  {
    if c.inFlightCount < U32_LIMIT { SmallMod(c.inFlightCount, U32_LIMIT); }
    var cut := Chunks(blocks, c.maxPayloadSize, Permit(c));
    assert Permit(c) > 0 ==>
        c.inFlightCount % 0x1_0000_0000 + Permit(c) == Smaller(c.congestionWindow, c.peerRecvWindow);
    assert Permit(c) == 0 ==>
        c.inFlightCount % 0x1_0000_0000 >= Smaller(c.congestionWindow, c.peerRecvWindow);
    hide Chunks, Permit, Join, FrameCount, PushFrames, Carried, IsDataFrame;
    ChunksAreFront(blocks, c.maxPayloadSize, Permit(c));
    CuttingEmptiesIff(blocks, c.maxPayloadSize, Permit(c));
    PushFramesCarry(c, first, cut.chunks);
    PushFramesAreData(c, first, cut.chunks);
  }

  function Prepended(prepend: Option<Frame>): seq<Frame> {
    if prepend.Some? then [prepend.value] else []
  }

  /** Cuts as many frames as the windows permit and numbers them from the counter. */
  method Packetize(context: Context, sendBuffer: SendBuffer, sequenceNumberCounter: nat, prepend: Option<Frame>)
    returns (frames: seq<Frame>, nextSequenceNumber: nat)
    requires sendBuffer.Valid()
    requires sequenceNumberCounter
             + |Chunks(sendBuffer.streamBuffer, context.maxPayloadSize, Permit(context)).chunks| < U32_LIMIT
    modifies sendBuffer
    ensures var c := Chunks(old(sendBuffer.streamBuffer), context.maxPayloadSize, Permit(context));
            && sendBuffer.streamBuffer == c.blocks
            && nextSequenceNumber == sequenceNumberCounter + |c.chunks|
            && frames == Prepended(prepend) + PushFrames(context, sequenceNumberCounter, c.chunks)
    ensures context.maxPayloadSize > 0 ==> sendBuffer.Valid()
    ensures prepend.Some? ==> frames != [] && frames[0] == prepend.value
    ensures context.maxPayloadSize > 0 ==>
        var sent := frames[if prepend.Some? then 1 else 0..];
        && nextSequenceNumber == sequenceNumberCounter + |sent|
        && Carry(context, sequenceNumberCounter, old(Join(sendBuffer.streamBuffer)), sent, Join(sendBuffer.streamBuffer))
        && FillsWindows(context, |sent|, Join(sendBuffer.streamBuffer))
    ensures context.maxPayloadSize > 0 && context.inFlightCount <= SmallerWindow(context) ==>
        Join(sendBuffer.streamBuffer) == []
        || context.inFlightCount + (nextSequenceNumber - sequenceNumberCounter) == SmallerWindow(context)
  {
    hide Chunks, NextChunk, Join, PushFrames, NewPush, Permit, Carry, FillsWindows, SmallerWindow, Prepended;
    if context.maxPayloadSize > 0 { CutFillsWindows(context, sequenceNumberCounter, sendBuffer.streamBuffer); }
    ghost var all := Chunks(sendBuffer.streamBuffer, context.maxPayloadSize, Permit(context));
    BehindPrepended(prepend, PushFrames(context, sequenceNumberCounter, all.chunks));
    frames, nextSequenceNumber :=
      CutFrames(context, sendBuffer, sequenceNumberCounter, Permit(context), Prepended(prepend));
  }

  /** The loop that cuts: up to `permit` frames behind those already there. */
  method CutFrames(context: Context, sendBuffer: SendBuffer, sequenceNumberCounter: nat, permit: nat,
                   before: seq<Frame>) returns (frames: seq<Frame>, nextSequenceNumber: nat)
    requires sendBuffer.Valid()
    requires sequenceNumberCounter
             + |Chunks(sendBuffer.streamBuffer, context.maxPayloadSize, permit).chunks| < U32_LIMIT
    modifies sendBuffer
    ensures var c := Chunks(old(sendBuffer.streamBuffer), context.maxPayloadSize, permit);
            && sendBuffer.streamBuffer == c.blocks
            && nextSequenceNumber == sequenceNumberCounter + |c.chunks|
            && frames == before + PushFrames(context, sequenceNumberCounter, c.chunks)
    ensures context.maxPayloadSize > 0 ==> sendBuffer.Valid()
  {
    hide Chunks, NextChunk, Join, PushFrames, NewPush;
    var maxSize := context.maxPayloadSize;
    ghost var all := Chunks(sendBuffer.streamBuffer, maxSize, permit);
    ghost var taken: seq<Buf> := [];
    frames, nextSequenceNumber := before, sequenceNumberCounter;
    assert PushFrames(context, sequenceNumberCounter, taken) == [];
    assert taken + all.chunks == all.chunks;
    for i := 0 to permit
      invariant sendBuffer.streamBufferSize >= |Join(sendBuffer.streamBuffer)|
      invariant maxSize > 0 ==> sendBuffer.Valid()
      invariant var rest := Chunks(sendBuffer.streamBuffer, maxSize, permit - i);
                all.chunks == taken + rest.chunks && all.blocks == rest.blocks
      invariant nextSequenceNumber == sequenceNumberCounter + |taken|
      invariant frames == before + PushFrames(context, sequenceNumberCounter, taken)
    {
      ChunksUnfold(sendBuffer.streamBuffer, maxSize, permit - i);
      var empty := sendBuffer.IsStreamBufferEmpty();
      if empty {
        break;
      }
      ChunkSizes(sendBuffer.streamBuffer, maxSize);
      var chunk := sendBuffer.CreateChunk(maxSize);
      if chunk.None? {
        break;
      }
      ghost var rest := Chunks(sendBuffer.streamBuffer, maxSize, permit - i - 1);
      JoinedInTurn(taken, chunk.value, rest.chunks);
      var frame := NewPush(context.peerCid, nextSequenceNumber, context.recvNextSequence,
                           context.localWindowSize, context.timestamp, chunk.value);
      PushOneMore(context, sequenceNumberCounter, taken, chunk.value);
      taken := taken + [chunk.value];
      nextSequenceNumber := nextSequenceNumber + 1;
      frames := frames + [frame];
    }
    ChunksUnfold(sendBuffer.streamBuffer, maxSize, 0);
  }

  lemma BehindPrepended(prepend: Option<Frame>, fs: seq<Frame>)
    ensures var all := Prepended(prepend) + fs;
            && (prepend.Some? ==> all != [] && all[0] == prepend.value)
            && |all| == |fs| + (if prepend.Some? then 1 else 0)
            && all[if prepend.Some? then 1 else 0..] == fs
  {
  }

  lemma JoinedInTurn(taken: seq<Buf>, chunk: Buf, rest: seq<Buf>)
    ensures taken + ([chunk] + rest) == taken + [chunk] + rest
  {
  }

  lemma PushOneMore(c: Context, first: nat, taken: seq<Buf>, chunk: Buf)
    requires first + |taken| + 1 <= U32_LIMIT
    ensures PushFrames(c, first, taken + [chunk]) == PushFrames(c, first, taken)
            + [NewPush(c.peerCid, first + |taken|, c.recvNextSequence, c.localWindowSize, c.timestamp, chunk)]
  {
  }

  /** With a payload size that fits the length field, the peer reads every chunk from the wire
      under its own number, whatever else is in the datagram. */
  lemma ChunkCrossesWire(c: Context, first: nat, blocks: seq<Buf>, i: nat, rest: Buf)
    requires 0 < c.maxPayloadSize < U16_LIMIT
    requires var chunks := Chunks(blocks, c.maxPayloadSize, Permit(c)).chunks;
             i < |chunks| && first + |chunks| <= U32_LIMIT
    ensures var chunks := Chunks(blocks, c.maxPayloadSize, Permit(c)).chunks;
            var f := PushFrames(c, first, chunks)[i];
            && Decode(Encode(f) + rest) == Some(Decoded(f, |Encode(f)|))
            && IsDataFrame(c, first + i, f) && f.payload == chunks[i]
  {
    hide Chunks, Permit, Encode, Decode, WireSafe, FrameCount;
    var chunks := Chunks(blocks, c.maxPayloadSize, Permit(c)).chunks;
    ChunksAreFront(blocks, c.maxPayloadSize, Permit(c));
    assert chunks[i] in chunks;
    NewPushSafeIff(c.peerCid, first + i, c.recvNextSequence, c.localWindowSize, c.timestamp, chunks[i]);
    SafeRoundTrip(PushFrames(c, first, chunks)[i], rest);
    PushFramesAreData(c, first, chunks);
  }
}
