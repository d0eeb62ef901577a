/** Several frames in one datagram, and the ranges inside an acknowledgement. */
module Datagrams {
  import opened Bits
  import opened Bytes
  import opened Options
  import opened Sequences
  import opened Frames

  function EncodeAll(fs: seq<Frame>): Buf {
    if fs == [] then [] else EncodeAll(fs[..|fs| - 1]) + Encode(fs[|fs| - 1])
  }

  function DecodeAll(s: Buf): seq<Frame>
    decreases |s|
  {
    match Decode(s)
    case None => []
    case Some(d) => [d.frame] + DecodeAll(s[d.used..])
  }

  /** How far decoding gets. */
  function DecodedLength(s: Buf): (n: nat)
    ensures n <= |s|
    decreases |s|
  {
    match Decode(s)
    case None => 0
    case Some(d) => d.used + DecodedLength(s[d.used..])
  }

  method SerializeFrames(frames: seq<Frame>) returns (buffer: Buf)
    ensures buffer == EncodeAll(frames)
  {
    buffer := [];
    for i := 0 to |frames|
      invariant buffer == EncodeAll(frames[..i])
    {
      TakeOneMore(frames, i);
      assert frames[..i + 1][..i] == frames[..i];
      buffer := buffer + Encode(frames[i]);
    }
    assert frames[..|frames|] == frames;
  }

  method DeserializeFrames(buffer: Buf) returns (frames: seq<Frame>)
    ensures frames == DecodeAll(buffer)
  {
    frames := [];
    var cursor := buffer;
    while cursor != []
      invariant frames + DecodeAll(cursor) == DecodeAll(buffer)
      decreases |cursor|
    {
      match Decode(cursor) {
        case None => break;
        case Some(d) =>
          assert frames + ([d.frame] + DecodeAll(cursor[d.used..])) == frames + [d.frame] + DecodeAll(cursor[d.used..]);
          frames := frames + [d.frame];
          cursor := cursor[d.used..];
      }
    }
    assert DecodeAll(cursor) == [];
  }

  lemma {:induction false} EncodeAllAppend(a: seq<Frame>, b: seq<Frame>)
    ensures EncodeAll(a + b) == EncodeAll(a) + EncodeAll(b)
    decreases |b|
  {
    hide Encode;
    if b == [] {
      assert a + b == a;
    } else {
      var fewer, last := b[..|b| - 1], Encode(b[|b| - 1]);
      EncodeAllAppend(a, fewer);
      assert (a + b)[..|a + b| - 1] == a + fewer;
      assert EncodeAll(a) + (EncodeAll(fewer) + last) == EncodeAll(a) + EncodeAll(fewer) + last;
    }
  }

  lemma EncodeAllFirst(f: Frame, fs: seq<Frame>)
    ensures EncodeAll([f] + fs) == Encode(f) + EncodeAll(fs)
  {
    hide Encode;
    EncodeAllAppend([f], fs);
    assert [f][..0] == [];
    assert EncodeAll([f]) == EncodeAll([]) + Encode(f);
  }

  /** Any list of wire-safe frames comes back from its datagram unchanged. */
  lemma {:induction false} DatagramRoundTrip(fs: seq<Frame>)
    requires forall f :: f in fs ==> WireSafe(f)
    ensures DecodeAll(EncodeAll(fs)) == fs
    decreases |fs|
  {
    if fs == [] {
      assert EncodeAll(fs) == [];
    } else {
      hide Encode, Decode, WireSafe;
      var rest := EncodeAll(fs[1..]);
      assert [fs[0]] + fs[1..] == fs;
      EncodeAllFirst(fs[0], fs[1..]);
      SurvivesWireIff(fs[0]);
      assert (Encode(fs[0]) + rest)[|Encode(fs[0])|..] == rest;
      DatagramRoundTrip(fs[1..]);
    }
  }

  /** Different lists of wire-safe frames never share a datagram. */
  lemma DatagramsUnambiguous(fs: seq<Frame>, gs: seq<Frame>)
    requires (forall f :: f in fs ==> WireSafe(f)) && forall g :: g in gs ==> WireSafe(g)
    requires EncodeAll(fs) == EncodeAll(gs)
    ensures fs == gs
  {
    DatagramRoundTrip(fs);
    DatagramRoundTrip(gs);
  }

  /** From any bytes whatever, re-encoding what was decoded gives back the bytes consumed,
      and what is left over starts with no decodable frame. */
  lemma {:induction false} ReencodingIsPrefix(s: Buf)
    ensures EncodeAll(DecodeAll(s)) == s[..DecodedLength(s)]
    ensures Decode(s[DecodedLength(s)..]) == None
    decreases |s|
  {
    hide Encode, Decode;
    match Decode(s)
    case None => assert s[0..] == s;
    case Some(d) =>
      var rest := s[d.used..];
      ReencodingIsPrefix(rest);
      EncodeDecode(s);
      EncodeAllFirst(d.frame, DecodeAll(rest));
      assert s[..d.used] + rest[..DecodedLength(rest)] == s[..d.used + DecodedLength(rest)];
      assert rest[DecodedLength(rest)..] == s[d.used + DecodedLength(rest)..];
  }

  // --- acknowledgement ranges

  datatype SackRange = SackRange(start: U32, end: U32)

  const SACK_RANGE_SIZE: nat := 8

  function EncodeRanges(ranges: seq<SackRange>): (s: Buf)
    ensures |s| == SACK_RANGE_SIZE * |ranges|
  {
    if ranges == [] then []
    else
      var last := ranges[|ranges| - 1];
      EncodeRanges(ranges[..|ranges| - 1]) + ToBigEndian(last.start, 4) + ToBigEndian(last.end, 4)
  }

  function DecodeRange(s: Buf): SackRange
    requires |s| >= SACK_RANGE_SIZE
  {
    Widths();
    SackRange(FromBigEndian(s[..4]), FromBigEndian(s[4..8]))
  }

  function DecodeRanges(s: Buf): seq<SackRange> {
    if |s| < SACK_RANGE_SIZE then [] else [DecodeRange(s)] + DecodeRanges(s[SACK_RANGE_SIZE..])
  }

  method EncodeSackRanges(ranges: seq<SackRange>) returns (buf: Buf)
    ensures buf == EncodeRanges(ranges)
  {
    buf := [];
    for i := 0 to |ranges|
      invariant buf == EncodeRanges(ranges[..i])
    {
      TakeOneMore(ranges, i);
      assert ranges[..i + 1][..i] == ranges[..i];
      buf := buf + ToBigEndian(ranges[i].start, 4) + ToBigEndian(ranges[i].end, 4);
    }
    assert ranges[..|ranges|] == ranges;
  }

  method DecodeSackRanges(buf: Buf) returns (ranges: seq<SackRange>)
    ensures ranges == DecodeRanges(buf)
  {
    ranges := [];
    var rest := buf;
    while |rest| >= SACK_RANGE_SIZE
      invariant ranges + DecodeRanges(rest) == DecodeRanges(buf)
    {
      assert ranges + ([DecodeRange(rest)] + DecodeRanges(rest[SACK_RANGE_SIZE..]))
          == ranges + [DecodeRange(rest)] + DecodeRanges(rest[SACK_RANGE_SIZE..]);
      ranges := ranges + [DecodeRange(rest)];
      rest := rest[SACK_RANGE_SIZE..];
    }
  }

  lemma {:induction false} RangesRoundTripWith(ranges: seq<SackRange>, tail: Buf)
    ensures DecodeRanges(EncodeRanges(ranges) + tail) == ranges + DecodeRanges(tail)
    decreases |ranges|
  {
    hide EncodeRanges, ToBigEndian, DecodeRanges;
    if ranges == [] {
      NoRanges(tail);
    } else {
      var n := |ranges| - 1;
      var last := ranges[n];
      EncodeRangesLast(ranges, tail);
      RangesRoundTripWith(ranges[..n], ToBigEndian(last.start, 4) + ToBigEndian(last.end, 4) + tail);
      OneRangeRoundTrip(last, tail);
      assert ranges[..n] + ([last] + DecodeRanges(tail)) == ranges + DecodeRanges(tail);
    }
  }

  lemma NoRanges(tail: Buf)
    ensures EncodeRanges([]) + tail == tail
  {
  }

  lemma EncodeRangesLast(ranges: seq<SackRange>, tail: Buf)
    requires ranges != []
    ensures var n := |ranges| - 1;
            EncodeRanges(ranges) + tail
            == EncodeRanges(ranges[..n]) + (ToBigEndian(ranges[n].start, 4) + ToBigEndian(ranges[n].end, 4) + tail)
  {
    hide ToBigEndian;
  }

  lemma OneRangeRoundTrip(r: SackRange, tail: Buf)
    ensures DecodeRanges(ToBigEndian(r.start, 4) + ToBigEndian(r.end, 4) + tail) == [r] + DecodeRanges(tail)
  {
    var a, b := ToBigEndian(r.start, 4), ToBigEndian(r.end, 4);
    Widths();
    BigEndianRoundTrip(r.start, 4);
    BigEndianRoundTrip(r.end, 4);
    MiddlePiece(a, b, tail);
    assert (a + b + tail)[8..] == tail;
    hide ToBigEndian, FromBigEndian;
  }

  /** Ranges survive the wire, and up to seven stray bytes after them are ignored. */
  lemma RangesRoundTrip(ranges: seq<SackRange>, stray: Buf)
    requires |stray| < SACK_RANGE_SIZE
    ensures DecodeRanges(EncodeRanges(ranges) + stray) == ranges
  {
    RangesRoundTripWith(ranges, stray);
  }

  /** Where the two ends of every range lie in what is sent. */
  lemma {:induction false} RangesLayout(ranges: seq<SackRange>, k: nat)
    requires k < |ranges|
    ensures var s := EncodeRanges(ranges);
            && s[8 * k..8 * k + 4] == ToBigEndian(ranges[k].start, 4)
            && s[8 * k + 4..8 * k + 8] == ToBigEndian(ranges[k].end, 4)
    decreases |ranges|
  {
    hide ToBigEndian;
    var n := |ranges| - 1;
    var s, front := EncodeRanges(ranges), EncodeRanges(ranges[..n]);
    var a, b := ToBigEndian(ranges[n].start, 4), ToBigEndian(ranges[n].end, 4);
    assert s == front + a + b && |front| == 8 * n;
    if k < n {
      RangesLayout(ranges[..n], k);
      assert s[8 * k..8 * k + 4] == front[8 * k..8 * k + 4];
      assert s[8 * k + 4..8 * k + 8] == front[8 * k + 4..8 * k + 8];
    } else {
      MiddlePiece(front, a, b);
      assert (front + a)[..] == front + a && s[8 * n + 4..] == b;
    }
  }

  /** Any bytes hold as many ranges as whole groups of eight, each read from its own group. */
  lemma {:induction false} RangesInBytes(s: Buf)
    ensures |DecodeRanges(s)| == |s| / 8
    ensures forall k :: 0 <= k < |s| / 8 ==> DecodeRanges(s)[k] == DecodeRange(s[8 * k..8 * k + 8])
    decreases |s|
  {
    hide DecodeRange;
    if |s| >= 8 {
      var rest := s[8..];
      RangesInBytes(rest);
      FrontDecides(s);
      forall k | 0 <= k < |s| / 8
        ensures DecodeRanges(s)[k] == DecodeRange(s[8 * k..8 * k + 8])
      {
        if k > 0 { assert rest[8 * (k - 1)..8 * (k - 1) + 8] == s[8 * k..8 * k + 8]; }
      }
    }
  }

  lemma FrontDecides(s: Buf)
    requires |s| >= 8
    ensures DecodeRange(s) == DecodeRange(s[0..8])
  {
    assert s[0..8][..4] == s[..4] && s[0..8][4..8] == s[4..8];
  }

  function NewAck(peerCid: U32, recvNextSequence: U32, recvWindowSize: U16, ranges: seq<SackRange>,
                  timestamp: U32): Frame {
    var payload := EncodeRanges(ranges);
    AckFrame(ShortHeader(Ack, peerCid, LengthField(payload), recvWindowSize, timestamp, 0, recvNextSequence), payload)
  }

  /** An acknowledgement delivers all its ranges exactly when there are at most 8191. */
  lemma AckDeliversRangesIff(peerCid: U32, recvNextSequence: U32, recvWindowSize: U16,
                             ranges: seq<SackRange>, timestamp: U32)
    ensures WireSafe(NewAck(peerCid, recvNextSequence, recvWindowSize, ranges, timestamp)) <==> |ranges| <= 8191
    ensures |ranges| <= 8191 ==>
        var d := Decode(Encode(NewAck(peerCid, recvNextSequence, recvWindowSize, ranges, timestamp)));
        d.Some? && d.value.frame.AckFrame? && DecodeRanges(d.value.frame.payload) == ranges
  {
    var f := NewAck(peerCid, recvNextSequence, recvWindowSize, ranges, timestamp);
    if |ranges| <= 8191 {
      SmallMod(|EncodeRanges(ranges)|, U16_LIMIT);
      SurvivesWireIff(f);
      assert Encode(f) + [] == Encode(f);
      RangesRoundTrip(ranges, []);
      assert EncodeRanges(ranges) + [] == EncodeRanges(ranges);
    }
  }

  /** The next expected number and the ranges reach the peer together. */
  lemma AckReadsBack(peerCid: U32, recvNextSequence: U32, recvWindowSize: U16, ranges: seq<SackRange>, timestamp: U32)
    requires |ranges| <= 8191
    ensures var d := Decode(Encode(NewAck(peerCid, recvNextSequence, recvWindowSize, ranges, timestamp)));
            && d.Some? && d.value.frame.AckFrame?
            && Says(d.value.frame.header, peerCid, 0, recvNextSequence, recvWindowSize, timestamp)
            && DecodeRanges(d.value.frame.payload) == ranges
  {
    hide Encode, Decode, EncodeRanges, DecodeRanges;
    var f := NewAck(peerCid, recvNextSequence, recvWindowSize, ranges, timestamp);
    AckDeliversRangesIff(peerCid, recvNextSequence, recvWindowSize, ranges, timestamp);
    SurvivesWireIff(f);
    assert Encode(f) + [] == Encode(f);
  }
}
