/** The outgoing byte stream: a queue of blocks, cut into chunks of a limited size. */
module SendBuffers {
  import opened Bits
  import opened Bytes
  import opened Options
  import opened Sequences

  /** How much of a write is taken. */
  function Accepted(capacity: nat, buffered: nat, buf: Buf): (n: nat)
    ensures n <= |buf|
  {
    Smaller(|buf|, if buffered <= capacity then capacity - buffered else 0)
  }

  /** The queue after a write: nothing is queued when there is no space at all. */
  function AfterWrite(blocks: seq<Buf>, capacity: nat, buffered: nat, buf: Buf): seq<Buf> {
    if buffered >= capacity then blocks else blocks + [buf[..Accepted(capacity, buffered, buf)]]
  }

  /** A write takes the front of the data, never more than there is room for, and falls short
      only by filling the room there is. */
  lemma WriteFillsRoom(blocks: seq<Buf>, capacity: nat, buf: Buf)
    requires |Join(blocks)| <= capacity
    ensures var n := Accepted(capacity, |Join(blocks)|, buf);
            var after := AfterWrite(blocks, capacity, |Join(blocks)|, buf);
            && n <= |buf| && Join(after) == Join(blocks) + buf[..n] && |Join(after)| <= capacity
            && (n < |buf| ==> |Join(after)| == capacity)
  {
    JoinPush(blocks, buf[..Accepted(capacity, |Join(blocks)|, buf)]);
    hide Join;
  }

  datatype Cut = Cut(chunk: Option<Buf>, blocks: seq<Buf>)

  /** The next chunk and what it leaves: empty front blocks are dropped on the way. */
  function NextChunk(blocks: seq<Buf>, maxSize: nat): Cut {
    if blocks == [] then Cut(None, [])
    else
      var n := Smaller(|blocks[0]|, maxSize);
      if n == 0 then NextChunk(blocks[1..], maxSize)
      else if n >= |blocks[0]| then Cut(Some(blocks[0]), blocks[1..])
      else Cut(Some(blocks[0][..n]), [blocks[0][n..]] + blocks[1..])
  }

  /** No byte is lost, doubled or moved: the chunk is the front of the stream. */
  lemma {:induction false} NextChunkKeepsStream(blocks: seq<Buf>, maxSize: nat)
    requires maxSize > 0
    ensures var c := NextChunk(blocks, maxSize);
            && (c.chunk.Some? ==> 0 < |c.chunk.value| <= maxSize && Join(blocks) == c.chunk.value + Join(c.blocks))
            && (c.chunk.None? ==> Join(blocks) == [] && c.blocks == [])
    decreases |blocks|
  {
    if blocks != [] && |blocks[0]| == 0 {
      NextChunkKeepsStream(blocks[1..], maxSize);
    } else if blocks != [] && |blocks[0]| > maxSize {
      var b := blocks[0];
      var rest := [b[maxSize..]] + blocks[1..];
      assert rest[1..] == blocks[1..];
      assert b == b[..maxSize] + b[maxSize..];
      assert b + Join(blocks[1..]) == b[..maxSize] + (b[maxSize..] + Join(blocks[1..]));
    }
  }

  /** With a chunk size of zero the whole queue is thrown away. */
  lemma {:induction false} ZeroSizeDropsAll(blocks: seq<Buf>)
    ensures NextChunk(blocks, 0) == Cut(None, [])
    decreases |blocks|
  {
    if blocks != [] { ZeroSizeDropsAll(blocks[1..]); }
  }

  /** Cutting a chunk keeps the stream if and only if the chunk size is positive or no byte
      is waiting. */
  lemma ChunkingKeepsStreamIff(blocks: seq<Buf>, maxSize: nat)
    ensures var c := NextChunk(blocks, maxSize);
            Join(blocks) == (if c.chunk.Some? then c.chunk.value else []) + Join(c.blocks)
            <==> maxSize > 0 || Join(blocks) == []
  {
    if maxSize > 0 { NextChunkKeepsStream(blocks, maxSize); } else { ZeroSizeDropsAll(blocks); }
  }

  class SendBuffer {
    var streamBuffer: seq<Buf>
    var streamBufferSize: nat
    const streamBufferCapacity: nat

    /** The size counter is the number of bytes queued, within capacity. */
    ghost predicate Valid()
      reads this
    {
      streamBufferSize == |Join(streamBuffer)| <= streamBufferCapacity
    }

    constructor (capacity: nat)
      ensures Valid() && streamBuffer == [] && streamBufferCapacity == capacity
    {
      streamBuffer := [];
      streamBufferSize := 0;
      streamBufferCapacity := capacity;
    }

    method WriteToStream(buf: Buf) returns (written: nat)
      requires Valid()
      modifies this
      ensures Valid()
      ensures written == Accepted(streamBufferCapacity, old(streamBufferSize), buf)
      ensures streamBuffer == AfterWrite(old(streamBuffer), streamBufferCapacity, old(streamBufferSize), buf)
      ensures Join(streamBuffer) == old(Join(streamBuffer)) + buf[..written]
      ensures written < |buf| ==> |Join(streamBuffer)| == streamBufferCapacity
    {
      var spaceAvailable := streamBufferCapacity - streamBufferSize;
      if spaceAvailable == 0 {
        return 0;
      }
      written := Smaller(|buf|, spaceAvailable);
      JoinPush(streamBuffer, buf[..written]);
      if written < |buf| {
        streamBuffer := streamBuffer + [buf[..written]];
      } else {
        assert buf[..written] == buf;
        streamBuffer := streamBuffer + [buf];
      }
      streamBufferSize := streamBufferSize + written;
    }

    /** Cuts the next chunk. With a positive size the counter stays exact; with size zero it
        does only if nothing was waiting. */
    method CreateChunk(maxSize: nat) returns (chunk: Option<Buf>)
      requires streamBufferSize >= |Join(streamBuffer)|
      modifies this
      ensures Cut(chunk, streamBuffer) == NextChunk(old(streamBuffer), maxSize)
      ensures streamBufferSize == old(streamBufferSize) - if chunk.Some? then |chunk.value| else 0
      ensures old(Valid()) ==> (Valid() <==> maxSize > 0 || old(streamBufferSize) == 0)
      decreases |streamBuffer|
    {
      if streamBuffer == [] {
        return None;
      }
      ChunkSizes(streamBuffer, maxSize);
      var first := streamBuffer[0];
      var chunkSize := Smaller(|first|, maxSize);
      if chunkSize == 0 {
        streamBuffer := streamBuffer[1..];
        chunk := CreateChunk(maxSize);
        return;
      }
      if chunkSize >= |first| {
        chunk := Some(first);
        streamBuffer := streamBuffer[1..];
      } else {
        chunk := Some(first[..chunkSize]);
        streamBuffer := [first[chunkSize..]] + streamBuffer[1..];
      }
      streamBufferSize := streamBufferSize - chunkSize;
    }

    method IsStreamBufferEmpty() returns (empty: bool)
      ensures empty <==> streamBuffer == []
    {
      empty := streamBuffer == [];
    }
  }

  /** How the number of waiting bytes changes when a chunk is cut. */
  lemma ChunkSizes(blocks: seq<Buf>, maxSize: nat)
    ensures var c := NextChunk(blocks, maxSize);
            var taken := if c.chunk.Some? then |c.chunk.value| else 0;
            |Join(c.blocks)| + taken == |Join(blocks)| <==> maxSize > 0 || Join(blocks) == []
    ensures NextChunk(blocks, maxSize).chunk.Some? ==> maxSize > 0
  {
    if maxSize > 0 { NextChunkKeepsStream(blocks, maxSize); } else { ZeroSizeDropsAll(blocks); }
  }
}
