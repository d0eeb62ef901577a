/** Frames and their wire format. */
module Frames {
  import opened Bits
  import opened Bytes
  import opened Options
  import opened Sequences

  datatype Command = Syn | SynAck | Fin | Push | Ack | Ping | PathChallenge | PathResponse {

    function ToByte(): Byte {
      match this
      case Syn => 0x01
      case SynAck => 0x02
      case Fin => 0x03
      case Push => 0x10
      case Ack => 0x11
      case Ping => 0x12
      case PathChallenge => 0x13
      case PathResponse => 0x14
    }

    predicate IsLongHeader() {
      Syn? || SynAck?
    }
  }

  function CommandFromByte(b: Byte): (c: Option<Command>)
    ensures c.Some? ==> c.value.ToByte() == b
    ensures c.None? ==> forall d: Command :: d.ToByte() != b
  {
    match b
    case 0x01 => Some(Syn)
    case 0x02 => Some(SynAck)
    case 0x03 => Some(Fin)
    case 0x10 => Some(Push)
    case 0x11 => Some(Ack)
    case 0x12 => Some(Ping)
    case 0x13 => Some(PathChallenge)
    case 0x14 => Some(PathResponse)
    case _ => None
  }

  type U8 = x: nat | x < 0x100
  type U16 = x: nat | x < 0x1_0000
  type U32 = x: nat | x < 0x1_0000_0000
  type U64 = x: nat | x < 0x1_0000_0000_0000_0000

  datatype ShortHeader = ShortHeader(
    command: Command,
    connectionId: U32,
    payloadLength: U16,
    recvWindowSize: U16,
    timestamp: U32,
    sequenceNumber: U32,
    recvNextSequence: U32)

  datatype LongHeader = LongHeader(command: Command, protocolVersion: U8, destinationCid: U32, sourceCid: U32)

  /** Header sizes on the wire, without the command byte. */
  const SHORT_HEADER_SIZE: nat := 20
  const LONG_HEADER_SIZE: nat := 9

  datatype Frame =
    | PushFrame(header: ShortHeader, payload: Buf)
    | AckFrame(header: ShortHeader, payload: Buf)
    | PingFrame(header: ShortHeader)
    | SynFrame(longHeader: LongHeader)
    | SynAckFrame(longHeader: LongHeader)
    | FinFrame(header: ShortHeader)
    | PathChallengeFrame(header: ShortHeader, challengeData: U64)
    | PathResponseFrame(header: ShortHeader, challengeData: U64)

  /** The size the packers reckon with. */
  function EncodedSize(f: Frame): nat {
    var headerSize := match f
      case SynFrame(_) => LONG_HEADER_SIZE
      case SynAckFrame(_) => LONG_HEADER_SIZE
      case _ => SHORT_HEADER_SIZE;
    var payloadSize := match f
      case PushFrame(_, payload) => |payload|
      case AckFrame(_, payload) => |payload|
      case PathChallengeFrame(_, _) => 8
      case PathResponseFrame(_, _) => 8
      case _ => 0;
    1 + headerSize + payloadSize
  }

  // --- encoding

  function EncodeShort(h: ShortHeader): (s: Buf)
    ensures |s| == 1 + SHORT_HEADER_SIZE
  {
    [h.command.ToByte()] + ToBigEndian(h.connectionId, 4) + ToBigEndian(h.payloadLength, 2)
    + ToBigEndian(h.recvWindowSize, 2) + ToBigEndian(h.timestamp, 4) + ToBigEndian(h.sequenceNumber, 4)
    + ToBigEndian(h.recvNextSequence, 4)
  }

  function EncodeLong(h: LongHeader): (s: Buf)
    ensures |s| == 1 + LONG_HEADER_SIZE
  {
    [h.command.ToByte()] + ToBigEndian(h.protocolVersion, 1) + ToBigEndian(h.destinationCid, 4)
    + ToBigEndian(h.sourceCid, 4)
  }

  function Encode(f: Frame): Buf {
    match f
    case PushFrame(header, payload) => EncodeShort(header) + payload
    case AckFrame(header, payload) => EncodeShort(header) + payload
    case PingFrame(header) => EncodeShort(header)
    case SynFrame(header) => EncodeLong(header)
    case SynAckFrame(header) => EncodeLong(header)
    case FinFrame(header) => EncodeShort(header)
    case PathChallengeFrame(header, data) => EncodeShort(header) + ToBigEndian(data, 8)
    case PathResponseFrame(header, data) => EncodeShort(header) + ToBigEndian(data, 8)
  }

  /** The size reckoned with is the number of bytes written, for every frame whatever. */
  lemma EncodedSizeIsLength(f: Frame)
    ensures |Encode(f)| == EncodedSize(f)
  {
  }

  // --- decoding

  function DecodeShort(s: Buf): Option<ShortHeader> {
    if |s| < 1 + SHORT_HEADER_SIZE then None
    else
      match CommandFromByte(s[0])
      case None => None
      case Some(command) =>
        if command.IsLongHeader() then None
        else
          FieldWidths(s);
          Some(ShortHeader(command, FromBigEndian(s[1..5]), FromBigEndian(s[5..7]), FromBigEndian(s[7..9]),
                           FromBigEndian(s[9..13]), FromBigEndian(s[13..17]), FromBigEndian(s[17..21])))
  }

  lemma FieldWidths(s: Buf)
    requires |s| >= 1 + LONG_HEADER_SIZE
    ensures FromBigEndian(s[1..2]) < 0x100
    ensures forall i, j :: 0 <= i <= j <= |s| && j - i == 2 ==> FromBigEndian(s[i..j]) < 0x1_0000
    ensures forall i, j :: 0 <= i <= j <= |s| && j - i == 4 ==> FromBigEndian(s[i..j]) < 0x1_0000_0000
  {
    Widths();
    assert Pow256(1) == 0x100;
  }

  function DecodeLong(s: Buf): Option<LongHeader> {
    if |s| < 1 + LONG_HEADER_SIZE then None
    else
      match CommandFromByte(s[0])
      case None => None
      case Some(command) =>
        if !command.IsLongHeader() then None
        else
          FieldWidths(s);
          Some(LongHeader(command, FromBigEndian(s[1..2]), FromBigEndian(s[2..6]), FromBigEndian(s[6..10])))
  }

  /** A decoded frame and the number of bytes it took. */
  datatype Decoded = Decoded(frame: Frame, used: nat)

  /** Decodes one frame from the front of a buffer. The length field is honoured for the two
      variable payloads only; the others just need that many bytes to be there. */
  function Decode(s: Buf): (r: Option<Decoded>)
    ensures r.Some? ==> 0 < r.value.used <= |s|
  {
    if s == [] then None
    else
      match CommandFromByte(s[0])
      case None => None
      case Some(command) =>
        if command.IsLongHeader() then
          match DecodeLong(s)
          case None => None
          case Some(header) =>
            Some(Decoded(if command.Syn? then SynFrame(header) else SynAckFrame(header), 1 + LONG_HEADER_SIZE))
        else
          match DecodeShort(s)
          case None => None
          case Some(header) => DecodeBody(header, s)
  }

  function DecodeBody(header: ShortHeader, s: Buf): (r: Option<Decoded>)
    requires |s| >= 1 + SHORT_HEADER_SIZE
    ensures r.Some? ==> 0 < r.value.used <= |s|
  {
    var rest := s[1 + SHORT_HEADER_SIZE..];
    var n := header.payloadLength;
    if n > 0 && |rest| < n then None
    else
      match header.command
      case Push => Some(Decoded(PushFrame(header, rest[..n]), 1 + SHORT_HEADER_SIZE + n))
      case Ack => Some(Decoded(AckFrame(header, rest[..n]), 1 + SHORT_HEADER_SIZE + n))
      case Ping => Some(Decoded(PingFrame(header), 1 + SHORT_HEADER_SIZE))
      case Fin => Some(Decoded(FinFrame(header), 1 + SHORT_HEADER_SIZE))
      case PathChallenge =>
        if |rest| < 8 then None
        else Widths(); Some(Decoded(PathChallengeFrame(header, Get(rest, 8)), 1 + SHORT_HEADER_SIZE + 8))
      case PathResponse =>
        if |rest| < 8 then None
        else Widths(); Some(Decoded(PathResponseFrame(header, Get(rest, 8)), 1 + SHORT_HEADER_SIZE + 8))
      case Syn => None
      case SynAck => None
  }

  // --- what the two say about each other

  /** What the debug assertions of the encoder demand, plus a header of the right kind. */
  predicate WellFormed(f: Frame) {
    match f
    case SynFrame(h) => h.command.Syn?
    case SynAckFrame(h) => h.command.SynAck?
    case PushFrame(h, payload) => h.command.Push? && h.payloadLength == |payload|
    case AckFrame(h, payload) => h.command.Ack? && h.payloadLength == |payload|
    case PingFrame(h) => h.command.Ping? && h.payloadLength == 0
    case FinFrame(h) => h.command.Fin? && h.payloadLength == 0
    case PathChallengeFrame(h, _) => h.command.PathChallenge? && h.payloadLength == 8
    case PathResponseFrame(h, _) => h.command.PathResponse? && h.payloadLength == 8
  }

  /** Exactly what a frame needs to survive the wire in every datagram. */
  predicate WireSafe(f: Frame) {
    match f
    case PathChallengeFrame(h, _) => h.command.PathChallenge? && h.payloadLength <= 8
    case PathResponseFrame(h, _) => h.command.PathResponse? && h.payloadLength <= 8
    case _ => WellFormed(f)
  }

  lemma CommandRoundTrip(c: Command)
    ensures CommandFromByte(c.ToByte()) == Some(c)
  {
  }

  lemma ShortRoundTrip(h: ShortHeader, rest: Buf)
    requires !h.command.IsLongHeader()
    ensures DecodeShort(EncodeShort(h) + rest) == Some(h)
    ensures CommandFromByte((EncodeShort(h) + rest)[0]) == Some(h.command)
  {
    Widths();
    CommandRoundTrip(h.command);
    BigEndianRoundTrip(h.connectionId, 4);
    BigEndianRoundTrip(h.payloadLength, 2);
    BigEndianRoundTrip(h.recvWindowSize, 2);
    BigEndianRoundTrip(h.timestamp, 4);
    BigEndianRoundTrip(h.sequenceNumber, 4);
    BigEndianRoundTrip(h.recvNextSequence, 4);
    var p0, a := [h.command.ToByte()], ToBigEndian(h.connectionId, 4);
    var b, c := ToBigEndian(h.payloadLength, 2), ToBigEndian(h.recvWindowSize, 2);
    var d, e := ToBigEndian(h.timestamp, 4), ToBigEndian(h.sequenceNumber, 4);
    var f := ToBigEndian(h.recvNextSequence, 4);
    ShortFields(p0, a, b, c, d, e, f, rest);
    assert EncodeShort(h) == p0 + a + b + c + d + e + f;
    hide ToBigEndian, FromBigEndian, EncodeShort;
  }

  /** Where the fields of a short header lie. */
  lemma ShortFields(p: Buf, a: Buf, b: Buf, c: Buf, d: Buf, e: Buf, f: Buf, rest: Buf)
    requires |p| == 1 && |a| == 4 && |b| == 2 && |c| == 2 && |d| == 4 && |e| == 4 && |f| == 4
    ensures var s := p + a + b + c + d + e + f + rest;
            && |s| >= 21 && s[0] == p[0] && s[1..5] == a && s[5..7] == b && s[7..9] == c
            && s[9..13] == d && s[13..17] == e && s[17..21] == f
  {
    var s := p + a + b + c + d + e + f + rest;
    assert s == p + a + (b + c + d + e + f + rest);
    assert s == (p + a) + b + (c + d + e + f + rest);
    assert s == (p + a + b) + c + (d + e + f + rest);
    assert s == (p + a + b + c) + d + (e + f + rest);
    assert s == (p + a + b + c + d) + e + (f + rest);
    MiddlePiece(p, a, b + c + d + e + f + rest);
    MiddlePiece(p + a, b, c + d + e + f + rest);
    MiddlePiece(p + a + b, c, d + e + f + rest);
    MiddlePiece(p + a + b + c, d, e + f + rest);
    MiddlePiece(p + a + b + c + d, e, f + rest);
    MiddlePiece(p + a + b + c + d + e, f, rest);
  }

  lemma LongRoundTrip(h: LongHeader, rest: Buf)
    requires h.command.IsLongHeader()
    ensures DecodeLong(EncodeLong(h) + rest) == Some(h)
    ensures CommandFromByte((EncodeLong(h) + rest)[0]) == Some(h.command)
  {
    Widths();
    CommandRoundTrip(h.command);
    BigEndianRoundTrip(h.protocolVersion, 1);
    BigEndianRoundTrip(h.destinationCid, 4);
    BigEndianRoundTrip(h.sourceCid, 4);
    var p, a := [h.command.ToByte()], ToBigEndian(h.protocolVersion, 1);
    var b, c := ToBigEndian(h.destinationCid, 4), ToBigEndian(h.sourceCid, 4);
    LongFields(p, a, b, c, rest);
    assert EncodeLong(h) == p + a + b + c;
    hide ToBigEndian, FromBigEndian, EncodeLong;
  }

  /** Where the fields of a long header lie. */
  lemma LongFields(p: Buf, a: Buf, b: Buf, c: Buf, rest: Buf)
    requires |p| == 1 && |a| == 1 && |b| == 4 && |c| == 4
    ensures var s := p + a + b + c + rest;
            |s| >= 10 && s[0] == p[0] && s[1..2] == a && s[2..6] == b && s[6..10] == c
  {
    var s := p + a + b + c + rest;
    assert s == p + a + (b + c + rest);
    assert s == (p + a) + b + (c + rest);
    MiddlePiece(p, a, b + c + rest);
    MiddlePiece(p + a, b, c + rest);
    MiddlePiece(p + a + b, c, rest);
  }

  /** A wire-safe frame is read back exactly, and only its own bytes are consumed,
      whatever follows it in the datagram. */
  lemma SafeRoundTrip(f: Frame, rest: Buf)
    requires WireSafe(f)
    ensures Decode(Encode(f) + rest) == Some(Decoded(f, |Encode(f)|))
  {
    hide EncodeShort, EncodeLong, DecodeShort, DecodeLong, ToBigEndian, FromBigEndian, Get, CommandFromByte;
    match f
    case SynFrame(h) => LongRoundTrip(h, rest);
    case SynAckFrame(h) => LongRoundTrip(h, rest);
    case PushFrame(h, payload) => PayloadRoundTrip(h, payload, rest);
    case AckFrame(h, payload) => PayloadRoundTrip(h, payload, rest);
    case PingFrame(h) => ShortRoundTrip(h, rest);
    case FinFrame(h) => ShortRoundTrip(h, rest);
    case PathChallengeFrame(h, data) => DataRoundTrip(h, data, rest);
    case PathResponseFrame(h, data) => DataRoundTrip(h, data, rest);
  }

  lemma PayloadRoundTrip(h: ShortHeader, payload: Buf, rest: Buf)
    requires !h.command.IsLongHeader()
    ensures var s := EncodeShort(h) + payload + rest;
            && DecodeShort(s) == Some(h) && CommandFromByte(s[0]) == Some(h.command)
            && s[1 + SHORT_HEADER_SIZE..][..|payload|] == payload
  {
    ShortRoundTrip(h, payload + rest);
    assert EncodeShort(h) + payload + rest == EncodeShort(h) + (payload + rest);
  }

  lemma DataRoundTrip(h: ShortHeader, data: U64, rest: Buf)
    requires !h.command.IsLongHeader()
    ensures var s := EncodeShort(h) + ToBigEndian(data, 8) + rest;
            && DecodeShort(s) == Some(h) && CommandFromByte(s[0]) == Some(h.command)
            && Get(s[1 + SHORT_HEADER_SIZE..], 8) == data
  {
    Widths();
    PayloadRoundTrip(h, ToBigEndian(data, 8), rest);
    BigEndianRoundTrip(data, 8);
  }

  lemma ShortExact(s: Buf)
    requires DecodeShort(s).Some?
    ensures |s| >= 1 + SHORT_HEADER_SIZE && EncodeShort(DecodeShort(s).value) == s[..1 + SHORT_HEADER_SIZE]
    ensures CommandFromByte(s[0]) == Some(DecodeShort(s).value.command)
  {
    BigEndianExact(s[1..5]);
    BigEndianExact(s[5..7]);
    BigEndianExact(s[7..9]);
    BigEndianExact(s[9..13]);
    BigEndianExact(s[13..17]);
    BigEndianExact(s[17..21]);
    PiecesOfShort(s);
  }

  lemma PiecesOfShort(s: Buf)
    requires |s| >= 21
    ensures s[..21] == [s[0]] + s[1..5] + s[5..7] + s[7..9] + s[9..13] + s[13..17] + s[17..21]
  {
  }

  lemma LongExact(s: Buf)
    requires DecodeLong(s).Some?
    ensures |s| >= 1 + LONG_HEADER_SIZE && EncodeLong(DecodeLong(s).value) == s[..1 + LONG_HEADER_SIZE]
  {
    BigEndianExact(s[1..2]);
    BigEndianExact(s[2..6]);
    BigEndianExact(s[6..10]);
    assert s[..10] == [s[0]] + s[1..2] + s[2..6] + s[6..10];
  }

  /** Whatever bytes are decoded, encoding the frame again reproduces the bytes consumed. */
  lemma EncodeDecode(s: Buf)
    requires Decode(s).Some?
    ensures Encode(Decode(s).value.frame) == s[..Decode(s).value.used]
  {
    var command := CommandFromByte(s[0]).value;
    if command.IsLongHeader() {
      LongExact(s);
    } else {
      ShortExact(s);
      BodyExact(DecodeShort(s).value, s);
    }
  }

  lemma BodyExact(header: ShortHeader, s: Buf)
    requires |s| >= 1 + SHORT_HEADER_SIZE && EncodeShort(header) == s[..1 + SHORT_HEADER_SIZE]
    requires DecodeBody(header, s).Some?
    ensures Encode(DecodeBody(header, s).value.frame) == s[..DecodeBody(header, s).value.used]
  {
    var rest := s[1 + SHORT_HEADER_SIZE..];
    var used := DecodeBody(header, s).value.used;
    assert s[..used] == s[..1 + SHORT_HEADER_SIZE] + rest[..used - 1 - SHORT_HEADER_SIZE];
    if header.command.PathChallenge? || header.command.PathResponse? {
      BigEndianExact(rest[..8]);
    }
  }

  /** A frame comes back from every datagram it is sent in if and only if it is wire safe:
      a wrong length field or a header of another kind is already fatal on its own. */
  lemma SurvivesWireIff(f: Frame)
    ensures WireSafe(f) <==> forall rest: Buf :: Decode(Encode(f) + rest) == Some(Decoded(f, |Encode(f)|))
  {
    if WireSafe(f) {
      forall rest: Buf
        ensures Decode(Encode(f) + rest) == Some(Decoded(f, |Encode(f)|))
      {
        SafeRoundTrip(f, rest);
      }
    } else {
      assert Encode(f) + [] == Encode(f);
      UnsafeIsMisread(f);
    }
  }

  lemma UnsafeIsMisread(f: Frame)
    requires !WireSafe(f)
    ensures Decode(Encode(f)) != Some(Decoded(f, |Encode(f)|))
  {
    hide EncodeShort, EncodeLong, DecodeShort, ToBigEndian, FromBigEndian, Get;
    match f
    case SynFrame(h) => LongCommandIsRead(h);
    case SynAckFrame(h) => LongCommandIsRead(h);
    case PushFrame(h, payload) => HeaderIsRead(h, payload);
    case AckFrame(h, payload) => HeaderIsRead(h, payload);
    case PingFrame(h) => HeaderIsRead(h, []);
    case FinFrame(h) => HeaderIsRead(h, []);
    case PathChallengeFrame(h, data) => HeaderIsRead(h, ToBigEndian(data, 8));
    case PathResponseFrame(h, data) => HeaderIsRead(h, ToBigEndian(data, 8));
  }

  lemma LongCommandIsRead(h: LongHeader)
    ensures CommandFromByte(EncodeLong(h)[0]) == Some(h.command)
  {
    CommandRoundTrip(h.command);
  }

  lemma HeaderIsRead(h: ShortHeader, tail: Buf)
    ensures var s := EncodeShort(h) + tail;
            && CommandFromByte(s[0]) == Some(h.command)
            && (!h.command.IsLongHeader() ==> DecodeShort(s) == Some(h))
    ensures EncodeShort(h) + [] == EncodeShort(h)
  {
    CommandRoundTrip(h.command);
    if !h.command.IsLongHeader() { ShortRoundTrip(h, tail); }
  }

  // --- constructors

  /** The length field of a payload: `payload.len() as u16`. */
  function LengthField(payload: Buf): U16 {
    |payload| % U16_LIMIT
  }

  function NewPush(peerCid: U32, sequenceNumber: U32, recvNextSequence: U32, recvWindowSize: U16,
                   timestamp: U32, payload: Buf): Frame {
    PushFrame(ShortHeader(Push, peerCid, LengthField(payload), recvWindowSize, timestamp, sequenceNumber,
                          recvNextSequence), payload)
  }

  function NewPing(peerCid: U32, sequenceNumber: U32, recvNextSequence: U32, recvWindowSize: U16,
                   timestamp: U32): Frame {
    PingFrame(ShortHeader(Ping, peerCid, 0, recvWindowSize, timestamp, sequenceNumber, recvNextSequence))
  }

  function NewFin(peerCid: U32, sequenceNumber: U32, timestamp: U32, recvNextSequence: U32,
                  recvWindowSize: U16): Frame {
    FinFrame(ShortHeader(Fin, peerCid, 0, recvWindowSize, timestamp, sequenceNumber, recvNextSequence))
  }

  function NewSyn(protocolVersion: U8, sourceCid: U32, destinationCid: U32): Frame {
    SynFrame(LongHeader(Syn, protocolVersion, destinationCid, sourceCid))
  }

  function NewSynAck(protocolVersion: U8, sourceCid: U32, destinationCid: U32): Frame {
    SynAckFrame(LongHeader(SynAck, protocolVersion, destinationCid, sourceCid))
  }

  function NewPathChallenge(peerCid: U32, sequenceNumber: U32, timestamp: U32, challengeData: U64): Frame {
    PathChallengeFrame(ShortHeader(PathChallenge, peerCid, 8, 0, timestamp, sequenceNumber, 0), challengeData)
  }

  function NewPathResponse(peerCid: U32, sequenceNumber: U32, timestamp: U32, challengeData: U64): Frame {
    PathResponseFrame(ShortHeader(PathResponse, peerCid, 8, 0, timestamp, sequenceNumber, 0), challengeData)
  }

  /** A header that names this connection, sequence number, acknowledgement, window and time. */
  predicate Says(h: ShortHeader, peerCid: U32, sequenceNumber: nat, recvNextSequence: U32, recvWindowSize: U16,
                 timestamp: U32) {
    && h.connectionId == peerCid && h.sequenceNumber == sequenceNumber
    && h.recvNextSequence == recvNextSequence && h.recvWindowSize == recvWindowSize && h.timestamp == timestamp
  }

  /** What the peer reads of the frames of fixed size: the kind of frame, and every field as
      the sender gave it. */
  lemma FixedFramesAreRead(cid: U32, seqNo: U32, next: U32, window: U16, timestamp: U32, rest: Buf)
    ensures var d := Decode(Encode(NewPing(cid, seqNo, next, window, timestamp)) + rest);
            d.Some? && d.value.frame.PingFrame? && d.value.used == 21
            && Says(d.value.frame.header, cid, seqNo, next, window, timestamp)
    ensures var d := Decode(Encode(NewFin(cid, seqNo, timestamp, next, window)) + rest);
            d.Some? && d.value.frame.FinFrame? && d.value.used == 21
            && Says(d.value.frame.header, cid, seqNo, next, window, timestamp)
  {
    hide Encode, Decode;
    var ping, fin := NewPing(cid, seqNo, next, window, timestamp), NewFin(cid, seqNo, timestamp, next, window);
    SafeRoundTrip(ping, rest);
    SafeRoundTrip(fin, rest);
    EncodedSizeIsLength(ping);
    EncodedSizeIsLength(fin);
  }

  /** The two handshake frames: each identifier in its own place. */
  lemma HandshakeIsRead(version: U8, source: U32, destination: U32, rest: Buf)
    ensures var d := Decode(Encode(NewSyn(version, source, destination)) + rest);
            && d.Some? && d.value.frame.SynFrame? && d.value.used == 10
            && d.value.frame.longHeader.protocolVersion == version
            && d.value.frame.longHeader.sourceCid == source && d.value.frame.longHeader.destinationCid == destination
    ensures var d := Decode(Encode(NewSynAck(version, source, destination)) + rest);
            && d.Some? && d.value.frame.SynAckFrame? && d.value.used == 10
            && d.value.frame.longHeader.protocolVersion == version
            && d.value.frame.longHeader.sourceCid == source && d.value.frame.longHeader.destinationCid == destination
  {
    hide Encode, Decode;
    var syn, synAck := NewSyn(version, source, destination), NewSynAck(version, source, destination);
    SafeRoundTrip(syn, rest);
    SafeRoundTrip(synAck, rest);
    EncodedSizeIsLength(syn);
    EncodedSizeIsLength(synAck);
  }

  /** The two frames that validate a path: the data comes back, window and acknowledgement
      are zero. */
  lemma PathFramesAreRead(cid: U32, seqNo: U32, timestamp: U32, data: U64, rest: Buf)
    ensures var d := Decode(Encode(NewPathChallenge(cid, seqNo, timestamp, data)) + rest);
            && d.Some? && d.value.frame.PathChallengeFrame? && d.value.used == 29
            && d.value.frame.challengeData == data && Says(d.value.frame.header, cid, seqNo, 0, 0, timestamp)
    ensures var d := Decode(Encode(NewPathResponse(cid, seqNo, timestamp, data)) + rest);
            && d.Some? && d.value.frame.PathResponseFrame? && d.value.used == 29
            && d.value.frame.challengeData == data && Says(d.value.frame.header, cid, seqNo, 0, 0, timestamp)
  {
    hide Encode, Decode;
    var challenge, response := NewPathChallenge(cid, seqNo, timestamp, data), NewPathResponse(cid, seqNo, timestamp, data);
    SafeRoundTrip(challenge, rest);
    SafeRoundTrip(response, rest);
    EncodedSizeIsLength(challenge);
    EncodedSizeIsLength(response);
  }

  /** A data frame can be read back exactly when its payload length fits the length field. */
  lemma NewPushSafeIff(peerCid: U32, sequenceNumber: U32, recvNextSequence: U32, recvWindowSize: U16,
                       timestamp: U32, payload: Buf)
    ensures WireSafe(NewPush(peerCid, sequenceNumber, recvNextSequence, recvWindowSize, timestamp, payload))
            <==> |payload| < U16_LIMIT
  {
    if |payload| < U16_LIMIT { SmallMod(|payload|, U16_LIMIT); }
  }

  /** What the peer reads of a data frame: every field as the sender gave it. A payload that
      is too long is announced by its length modulo 65536. */
  lemma NewPushIsRead(peerCid: U32, sequenceNumber: U32, recvNextSequence: U32, recvWindowSize: U16,
                      timestamp: U32, payload: Buf, rest: Buf)
    ensures var f := NewPush(peerCid, sequenceNumber, recvNextSequence, recvWindowSize, timestamp, payload);
            var d := Decode(Encode(f) + rest);
            && d.Some? && d.value.frame.PushFrame?
            && Says(d.value.frame.header, peerCid, sequenceNumber, recvNextSequence, recvWindowSize, timestamp)
            && d.value.frame.payload <= payload && |d.value.frame.payload| == |payload| % 65536
            && d.value.used == 21 + |payload| % 65536
  {
    hide Encode, EncodeShort, DecodeShort, Decode, DecodeBody, CommandFromByte, LengthField;
    var f := NewPush(peerCid, sequenceNumber, recvNextSequence, recvWindowSize, timestamp, payload);
    HeaderIsRead(f.header, payload + rest);
    LengthIsCut(payload);
    PushEncodes(f.header, payload, rest);
    PushIsDecoded(f.header, Encode(f) + rest);
    CutAcross(payload, rest, LengthField(payload));
  }

  lemma LengthIsCut(payload: Buf)
    ensures LengthField(payload) == |payload| % 65536 <= |payload|
  {
  }

  lemma PushEncodes(h: ShortHeader, payload: Buf, rest: Buf)
    ensures var s := Encode(PushFrame(h, payload)) + rest;
            |s| >= 21 && s == EncodeShort(h) + (payload + rest) && s[21..] == payload + rest
  {
    hide EncodeShort;
  }

  lemma PushIsDecoded(h: ShortHeader, s: Buf)
    requires |s| - 21 >= h.payloadLength && h.command.Push?
    requires CommandFromByte(s[0]) == Some(h.command) && DecodeShort(s) == Some(h)
    ensures Decode(s) == Some(Decoded(PushFrame(h, s[21..][..h.payloadLength]), 21 + h.payloadLength))
  {
    hide DecodeShort, CommandFromByte;
  }

  lemma CutAcross(a: Buf, b: Buf, n: nat)
    requires n <= |a|
    ensures (a + b)[..n] == a[..n]
  {
  }

  // --- the bytes themselves

  /** Where every field of a short header lies, and the byte of every command. */
  lemma ShortLayout(h: ShortHeader)
    requires !h.command.IsLongHeader()
    ensures var s := EncodeShort(h);
            && |s| == 21
            && s[1..5] == ToBigEndian(h.connectionId, 4) && s[5..7] == ToBigEndian(h.payloadLength, 2)
            && s[7..9] == ToBigEndian(h.recvWindowSize, 2) && s[9..13] == ToBigEndian(h.timestamp, 4)
            && s[13..17] == ToBigEndian(h.sequenceNumber, 4) && s[17..21] == ToBigEndian(h.recvNextSequence, 4)
            && (s[0] == 0x03 <==> h.command.Fin?) && (s[0] == 0x10 <==> h.command.Push?)
            && (s[0] == 0x11 <==> h.command.Ack?) && (s[0] == 0x12 <==> h.command.Ping?)
            && (s[0] == 0x13 <==> h.command.PathChallenge?) && (s[0] == 0x14 <==> h.command.PathResponse?)
  {
    hide ToBigEndian;
    ShortFields([h.command.ToByte()], ToBigEndian(h.connectionId, 4), ToBigEndian(h.payloadLength, 2),
                ToBigEndian(h.recvWindowSize, 2), ToBigEndian(h.timestamp, 4), ToBigEndian(h.sequenceNumber, 4),
                ToBigEndian(h.recvNextSequence, 4), []);
    assert EncodeShort(h) + [] == EncodeShort(h);
  }

  /** The same of a long header. */
  lemma LongLayout(h: LongHeader)
    requires h.command.IsLongHeader()
    ensures var s := EncodeLong(h);
            && |s| == 10
            && s[1..2] == ToBigEndian(h.protocolVersion, 1) && s[2..6] == ToBigEndian(h.destinationCid, 4)
            && s[6..10] == ToBigEndian(h.sourceCid, 4)
            && (s[0] == 0x01 <==> h.command.Syn?) && (s[0] == 0x02 <==> h.command.SynAck?)
  {
    hide ToBigEndian;
    LongFields([h.command.ToByte()], ToBigEndian(h.protocolVersion, 1), ToBigEndian(h.destinationCid, 4),
               ToBigEndian(h.sourceCid, 4), []);
    assert EncodeLong(h) + [] == EncodeLong(h);
  }

  /** The length field, read off the bytes. */
  function Announced(s: Buf): nat
    requires |s| >= 21
  {
    0x100 * (s[5] as nat) + (s[6] as nat)
  }

  /** Which bytes a frame is decoded from, and how many of them: told from the first byte, the
      length field and the length of the buffer alone. */
  lemma DecodeIff(s: Buf)
    ensures Decode(s).Some? <==>
        || (|s| >= 10 && s[0] in {0x01, 0x02})
        || (|s| >= 21 && s[0] in {0x03, 0x10, 0x11, 0x12} && |s| - 21 >= Announced(s))
        || (|s| >= 29 && s[0] in {0x13, 0x14} && |s| - 21 >= Announced(s))
    ensures Decode(s).Some? ==>
        Decode(s).value.used ==
          if s[0] in {0x01, 0x02} then 10
          else if s[0] in {0x03, 0x12} then 21
          else if s[0] in {0x10, 0x11} then 21 + Announced(s)
          else 29
  {
    hide FromBigEndian, DecodeLong, DecodeShort, DecodeBody;
    if |s| >= 10 { LongIsReadIff(s); }
    if |s| >= 21 {
      ShortIsReadIff(s);
      if s[0] in {0x03, 0x10, 0x11, 0x12, 0x13, 0x14} { BodyIsReadIff(DecodeShort(s).value, s); }
    } else {
      TooShort(s);
    }
  }

  lemma TooShort(s: Buf)
    requires |s| < 21
    ensures DecodeShort(s).None? && (|s| < 10 ==> DecodeLong(s).None?)
  {
  }

  lemma LongIsReadIff(s: Buf)
    requires |s| >= 10
    ensures DecodeLong(s).Some? <==> s[0] in {0x01, 0x02}
  {
  }

  lemma ShortIsReadIff(s: Buf)
    requires |s| >= 21
    ensures DecodeShort(s).Some? <==> s[0] in {0x03, 0x10, 0x11, 0x12, 0x13, 0x14}
    ensures DecodeShort(s).Some? ==>
        var h := DecodeShort(s).value;
        h.payloadLength == Announced(s) && h.command.ToByte() == s[0] && !h.command.IsLongHeader()
  {
    assert s[5..7][..1] == [s[5]] && s[5..7][1] == s[6] && [s[5]][..0] == [];
    assert FromBigEndian([]) == 0;
    assert FromBigEndian([s[5]]) == s[5];
    assert FromBigEndian(s[5..7]) == Announced(s);
  }

  lemma BodyIsReadIff(h: ShortHeader, s: Buf)
    requires |s| >= 21 && h.payloadLength == Announced(s) && h.command.ToByte() == s[0] && !h.command.IsLongHeader()
    ensures DecodeBody(h, s).Some? <==> |s| - 21 >= Announced(s) && (s[0] in {0x13, 0x14} ==> |s| >= 29)
    ensures DecodeBody(h, s).Some? ==>
        DecodeBody(h, s).value.used ==
          if s[0] in {0x03, 0x12} then 21 else if s[0] in {0x10, 0x11} then 21 + Announced(s) else 29
  {
    hide Get;
  }
}
