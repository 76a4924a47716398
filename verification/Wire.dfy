// One message on the wire: the 34-byte base header and the whole-message parsers
// (crates/protocol/src/parser.rs, message.rs).
module Wire {
  import opened Bytes
  import opened Types

  // ----- Base header -----

  function PrintBaseHeader(h: BaseHeader): (s: seq<Byte>)
    ensures |s| == BASE_HEADER_SIZE
  {
    [h.version] + [h.messageType.ToU8()] + BigEndian(h.clientId, 4) + h.reserved
    + BigEndian(h.headerLength, 4) + BigEndian(h.payloadLength, 8)
  }

  // parse_base_header: only the first 34 bytes are looked at.
  function ParseBaseHeader(input: seq<Byte>): Result<BaseHeader>
  {
    if |input| < BASE_HEADER_SIZE || input[0] != PROTOCOL_VERSION then Err(ParseError)
    else
      match MessageType.FromU8(input[1])
      case None => Err(ParseError)
      case Some(t) =>
        Ok(BaseHeader(input[0], t, ReadU32(input[2..6]), input[6..22], ReadU32(input[22..26]), ReadU64(input[26..34])))
  }

  lemma BaseHeaderRoundTrip(h: BaseHeader, tail: seq<Byte>)
    requires h.version == PROTOCOL_VERSION
    ensures ParseBaseHeader(PrintBaseHeader(h) + tail) == Ok(h)
  {
    Widths();
    FromBigEndianOfBigEndian(h.clientId, 4);
    FromBigEndianOfBigEndian(h.headerLength, 4);
    FromBigEndianOfBigEndian(h.payloadLength, 8);
    var s := PrintBaseHeader(h) + tail;
    assert s[2..6] == BigEndian(h.clientId, 4);
    assert s[6..22] == h.reserved;
    assert s[22..26] == BigEndian(h.headerLength, 4);
    assert s[26..34] == BigEndian(h.payloadLength, 8);
  }

  lemma BaseHeaderReprint(input: seq<Byte>)
    requires ParseBaseHeader(input).Ok?
    ensures |input| >= BASE_HEADER_SIZE
    ensures PrintBaseHeader(ParseBaseHeader(input).value) == input[..BASE_HEADER_SIZE]
  {
    BigEndianOfFromBigEndian(input[2..6]);
    BigEndianOfFromBigEndian(input[22..26]);
    BigEndianOfFromBigEndian(input[26..34]);
    assert input[..34] == [input[0]] + [input[1]] + input[2..6] + input[6..22] + input[22..26] + input[26..34];
  }

  // The header depends on the first 34 bytes alone.
  lemma BaseHeaderPrefix(input: seq<Byte>)
    requires |input| >= BASE_HEADER_SIZE
    ensures ParseBaseHeader(input[..BASE_HEADER_SIZE]) == ParseBaseHeader(input)
  {
    var p := input[..BASE_HEADER_SIZE];
    assert p[2..6] == input[2..6] && p[6..22] == input[6..22];
    assert p[22..26] == input[22..26] && p[26..34] == input[26..34];
  }

  // peek_message_info: the fast path reads the client id with its own four-byte sum.
  function PeekMessageInfo(data: seq<Byte>): Result<(MessageType, ClientId)>
  {
    if |data| < BASE_HEADER_SIZE then Err(IncompleteData(BASE_HEADER_SIZE, |data|))
    else if data[0] != PROTOCOL_VERSION then Err(InvalidVersion(PROTOCOL_VERSION, data[0]))
    else
      match MessageType.FromU8(data[1])
      case None => Err(UnknownMessageType(data[1]))
      case Some(t) =>
        var (b0: int, b1: int, b2: int, b3: int) := (data[2], data[3], data[4], data[5]);
        Ok((t, b0 * 0x100_0000 + b1 * 0x1_0000 + b2 * 0x100 + b3))
  }

  lemma PeekAgreesWithParse(data: seq<Byte>)
    ensures PeekMessageInfo(data).Ok? <==> ParseBaseHeader(data).Ok?
    ensures PeekMessageInfo(data).Ok? ==>
              var h := ParseBaseHeader(data).value;
              PeekMessageInfo(data).value == (h.messageType, h.clientId)
  {
    if ParseBaseHeader(data).Ok? {
      var s := data[2..6];
      assert s[..3][..2][..1] == [data[2]] && s[..3][..2] == data[2..4] && s[..3] == data[2..5];
      assert FromBigEndian([data[2]]) == data[2];
      assert FromBigEndian(s[..3][..2]) == (data[2] as int) * 256 + data[3];
      assert FromBigEndian(s[..3]) == ((data[2] as int) * 256 + data[3]) * 256 + data[4];
    }
  }

  // Four bytes by weight, most significant first.
  function Weighed(b: seq<Byte>): nat
    requires |b| == 4
  {
    0x100_0000 * (b[0] as int) + 0x1_0000 * (b[1] as int) + 0x100 * (b[2] as int) + b[3]
  }

  lemma FromBigEndianNext(s: seq<Byte>, b: Byte)
    ensures FromBigEndian(s + [b]) == FromBigEndian(s) * 256 + b
  {
    assert (s + [b])[..|s|] == s;
  }

  lemma FourBytesWeigh(s: seq<Byte>, b: seq<Byte>)
    requires |b| == 4
    ensures FromBigEndian(s + b) == FromBigEndian(s) * 0x1_0000_0000 + Weighed(b)
  {
    hide FromBigEndian;
    FromBigEndianNext(s, b[0]);
    FromBigEndianNext(s + [b[0]], b[1]);
    FromBigEndianNext(s + [b[0]] + [b[1]], b[2]);
    FromBigEndianNext(s + [b[0]] + [b[1]] + [b[2]], b[3]);
    assert s + b == s + [b[0]] + [b[1]] + [b[2]] + [b[3]];
  }

  lemma ReadsWeigh(s: seq<Byte>)
    ensures |s| == 4 ==> FromBigEndian(s) == Weighed(s)
    ensures |s| == 8 ==> FromBigEndian(s) == Weighed(s[..4]) * 0x1_0000_0000 + Weighed(s[4..])
  {
    if |s| == 4 {
      FourBytesWeigh([], s);
      assert [] + s == s;
    } else if |s| == 8 {
      FourBytesWeigh([], s[..4]);
      FourBytesWeigh(s[..4], s[4..]);
      assert [] + s[..4] == s[..4] && s[..4] + s[4..] == s;
    }
  }

  // The message types in the order of their codes.
  const TYPES: seq<MessageType> :=
    [Join, Request, Response, Notification, Broadcast, Publish, Subscribe, Unsubscribe]

  // The layout, byte by byte: version 1, type code, client id, 16 reserved bytes, header length, payload length.
  lemma BaseHeaderLayout(input: seq<Byte>)
    ensures ParseBaseHeader(input).Ok? <==> |input| >= 34 && input[0] == 1 && input[1] < 8
    ensures ParseBaseHeader(input).Ok? ==>
              var h := ParseBaseHeader(input).value;
              && h.version == 1 && h.messageType == TYPES[input[1]]
              && h.clientId == Weighed(input[2..6])
              && h.reserved == input[6..22]
              && h.headerLength == Weighed(input[22..26])
              && h.payloadLength == Weighed(input[26..30]) * 0x1_0000_0000 + Weighed(input[30..34])
  {
    if |input| >= 34 {
      ReadsWeigh(input[2..6]);
      ReadsWeigh(input[22..26]);
      ReadsWeigh(input[26..34]);
      assert input[26..34][..4] == input[26..30] && input[26..34][4..] == input[30..34];
    }
  }

  // The fast path names the first thing wrong with the front of a message: its length, its version, its type.
  lemma PeekBlamesTheFirstFault(data: seq<Byte>)
    ensures PeekMessageInfo(data).Ok? <==> |data| >= 34 && data[0] == 1 && data[1] < 8
    ensures PeekMessageInfo(data) == Err(IncompleteData(34, |data|)) <==> |data| < 34
    ensures |data| >= 34 ==>
              && (PeekMessageInfo(data) == Err(InvalidVersion(1, data[0])) <==> data[0] != 1)
              && (PeekMessageInfo(data) == Err(UnknownMessageType(data[1])) <==> data[0] == 1 && data[1] >= 8)
  {
    if |data| >= 34 {
      var t := MessageType.FromU8(data[1]);
      TypeCodes(data[1], if t.Some? then t.value else Join);
    }
  }

  // ----- Whole messages -----

  datatype Message = Message(baseHeader: BaseHeader, raw: seq<Byte>)
  datatype MessageFrame = MessageFrame(baseHeader: BaseHeader, headerBytes: seq<Byte>, payloadBytes: seq<Byte>)

  // Message::from_bytes
  function FromBytes(data: seq<Byte>): Result<Message>
  {
    if |data| < BASE_HEADER_SIZE then Err(IncompleteData(BASE_HEADER_SIZE, |data|))
    else
      match ParseBaseHeader(data)
      case Err(e) => Err(e)
      case Ok(h) =>
        if |data| != h.TotalMessageSize() then Err(IncompleteData(h.TotalMessageSize(), |data|))
        else Ok(Message(h, data))
  }

  // A message of the wrong length is incomplete, unless its front is no base header.
  lemma FromBytesBlamesTheFirstFault(data: seq<Byte>)
    ensures |data| < 34 ==> FromBytes(data) == Err(IncompleteData(34, |data|))
    ensures FromBytes(data) == Err(ParseError) <==> |data| >= 34 && !(data[0] == 1 && data[1] < 8)
    ensures |data| >= 34 && data[0] == 1 && data[1] < 8 ==>
              var total := WrapU64(34 + Weighed(data[22..26])
                                   + Weighed(data[26..30]) * 0x1_0000_0000 + Weighed(data[30..34]));
              if |data| == total then FromBytes(data).Ok? && FromBytes(data).value.raw == data
              else FromBytes(data) == Err(IncompleteData(total, |data|))
  {
    BaseHeaderLayout(data);
    hide Weighed;
  }

  // nom's complete `take`
  function Take(count: nat, input: seq<Byte>): Result<(seq<Byte>, seq<Byte>)>
  {
    if |input| < count then Err(ParseError) else Ok((input[count..], input[..count]))
  }

  // parse_message_bytes
  function ParseMessageBytes(input: seq<Byte>): Result<MessageFrame>
  {
    match ParseBaseHeader(input)
    case Err(e) => Err(e)
    case Ok(h) =>
      var rest := input[BASE_HEADER_SIZE..];
      if |rest| + BASE_HEADER_SIZE != h.TotalMessageSize() then Err(ParseError)
      else
        match Take(h.headerLength, rest)
        case Err(e) => Err(e)
        case Ok((afterHeader, header)) =>
          match Take(h.payloadLength, afterHeader)
          case Err(e) => Err(e)
          case Ok((remaining, payload)) =>
            if remaining != [] then Err(ParseError) else Ok(MessageFrame(h, header, payload))
  }

  // Bytes::slice, with None for its panic on a range outside the buffer.
  function Slice(data: seq<Byte>, start: nat, end: nat): Option<seq<Byte>>
  {
    if start <= end <= |data| then Some(data[start..end]) else None
  }

  function RawHeaderBytes(m: Message): Option<seq<Byte>>
  {
    if m.baseHeader.headerLength == 0 then Some([])
    else Slice(m.raw, BASE_HEADER_SIZE, BASE_HEADER_SIZE + m.baseHeader.headerLength)
  }

  function RawPayloadBytes(m: Message): Option<seq<Byte>>
  {
    if m.baseHeader.payloadLength == 0 then Some([])
    else
      var start := BASE_HEADER_SIZE + m.baseHeader.headerLength;
      Slice(m.raw, start, WrapU64(start + m.baseHeader.payloadLength))
  }

  // A message accepted by from_bytes has readable sections exactly when its size sum does not wrap,
  // and then the base header and the two sections are the whole input.
  lemma SectionsPartition(data: seq<Byte>)
    requires FromBytes(data).Ok?
    ensures var m := FromBytes(data).value;
            (RawHeaderBytes(m).Some? && RawPayloadBytes(m).Some?) <==> !m.baseHeader.Overflows()
    ensures var m := FromBytes(data).value;
            !m.baseHeader.Overflows() ==>
              && |RawHeaderBytes(m).value| == m.baseHeader.headerLength
              && |RawPayloadBytes(m).value| == m.baseHeader.payloadLength
              && data == PrintBaseHeader(m.baseHeader) + RawHeaderBytes(m).value + RawPayloadBytes(m).value
  {
    BaseHeaderReprint(data);
    var h := ParseBaseHeader(data).value;
    if !h.Overflows() {
      var split := BASE_HEADER_SIZE + h.headerLength;
      assert data == data[..BASE_HEADER_SIZE] + data[BASE_HEADER_SIZE..split] + data[split..];
    }
  }

  // The two whole-message parsers agree on every input whose size sum does not wrap, and the strict
  // one rejects exactly the others; where both accept they return the same parts.
  lemma WholeMessageParsersAgree(data: seq<Byte>)
    ensures ParseMessageBytes(data).Ok? <==>
              FromBytes(data).Ok? && !FromBytes(data).value.baseHeader.Overflows()
    ensures ParseMessageBytes(data).Ok? ==>
              var f := ParseMessageBytes(data).value;
              var m := FromBytes(data).value;
              && f.baseHeader == m.baseHeader
              && Some(f.headerBytes) == RawHeaderBytes(m)
              && Some(f.payloadBytes) == RawPayloadBytes(m)
  {
    if FromBytes(data).Ok? {
      var h := ParseBaseHeader(data).value;
      var rest := data[BASE_HEADER_SIZE..];
      var split := BASE_HEADER_SIZE + h.headerLength;
      if !h.Overflows() {
        assert rest[..h.headerLength] == data[BASE_HEADER_SIZE..split];
        assert rest[h.headerLength..] == data[split..];
        assert data[split..][..h.payloadLength] == data[split..split + h.payloadLength];
      }
    }
  }

  // A base header whose size sum wraps to 34, on its own: header section of 1 byte, payload section of 2^64 - 1.
  function WrappingHeader(): (h: BaseHeader)
    ensures h.Overflows() && h.TotalMessageSize() == 34
  {
    BaseHeader.New(Join, 0, 1, 0xFFFF_FFFF_FFFF_FFFF)
  }

  lemma WholeMessageParsersDisagree()
    ensures var data := PrintBaseHeader(WrappingHeader());
            && FromBytes(data).Ok?
            && ParseMessageBytes(data).Err?
            && RawHeaderBytes(FromBytes(data).value) == None
  {
    var data := PrintBaseHeader(WrappingHeader());
    BaseHeaderRoundTrip(WrappingHeader(), []);
    assert data + [] == data;
  }

  // ----- Building messages -----

  // What serialising the Header struct gives: nothing for the default header, MessagePack bytes, or an error.
  datatype HeaderEncoding = DefaultHeader | Packed(bytes: Allocated) | Unserializable

  datatype RawMessage = RawMessage(
    messageType: MessageType,
    clientId: ClientId,
    header: HeaderEncoding,
    payloadData: Allocated)
  {
    function HeaderBytes(): Allocated
      requires !header.Unserializable?
    {
      if header.Packed? then header.bytes else []
    }

    // The length fields as to_bytes computes them: `as u32` keeps the low 32 bits.
    function BaseHeaderFor(): BaseHeader
      requires !header.Unserializable?
    {
      BaseHeader.New(messageType, clientId, |HeaderBytes()| % 0x1_0000_0000, |payloadData|)
    }

    // The error to_bytes reports, if any.
    function EncodeError(): Option<ProtocolError>
    {
      if header.Unserializable? then Some(MessagePackSerialization)
      else
        var h := BaseHeaderFor();
        if h.headerLength > DEFAULT_MAX_HEADER_SIZE then
          Some(HeaderTooLarge(h.headerLength, DEFAULT_MAX_HEADER_SIZE))
        else if h.ExactSize() > DEFAULT_MAX_MESSAGE_SIZE then
          Some(MessageTooLarge(h.ExactSize(), DEFAULT_MAX_MESSAGE_SIZE))
        else None
    }

    // The bytes to_bytes writes when it reports no error.
    function Frame(): seq<Byte>
      requires !header.Unserializable?
    {
      PrintBaseHeader(BaseHeaderFor()) + HeaderBytes() + payloadData
    }

    // Which error belongs to which lengths, n being the header length as its field holds it.
    lemma EncodeErrorExactly()
      ensures EncodeError() == Some(MessagePackSerialization) <==> header.Unserializable?
      ensures !header.Unserializable? ==>
                var n := |HeaderBytes()| % 0x1_0000_0000;
                var size := 34 + n + |payloadData|;
                && (EncodeError() == Some(HeaderTooLarge(n, 65_536)) <==> n > 65_536)
                && (EncodeError() == Some(MessageTooLarge(size, 1_073_741_824)) <==>
                      n <= 65_536 && size > 1_073_741_824)
                && (EncodeError().None? <==> n <= 65_536 && size <= 1_073_741_824)
    {
    }

    // The checks keep the header within 64 KiB and the frame within 1 GiB, except for a header of at least 2^32 bytes
    // whose cast length passes them.
    lemma LimitsHoldExactly()
      requires !header.Unserializable?
      ensures (EncodeError().None? <==> |HeaderBytes()| <= 65_536 && |Frame()| <= 1_073_741_824) <==>
                !(|HeaderBytes()| >= 0x1_0000_0000 && BaseHeaderFor().headerLength <= 65_536
                  && BaseHeaderFor().ExactSize() <= 1_073_741_824)
    {
      hide PrintBaseHeader;
      EncodeErrorExactly();
    }

    method ToBytes() returns (r: Result<seq<Byte>>)
      ensures r == if EncodeError().Some? then Err(EncodeError().value) else Ok(Frame())
      ensures r == Err(MessagePackSerialization) <==> header.Unserializable?
      ensures !header.Unserializable? && |HeaderBytes()| < 0x1_0000_0000 ==>
                var n, size := |HeaderBytes()|, 34 + |HeaderBytes()| + |payloadData|;
                && (r == Err(HeaderTooLarge(n, 65_536)) <==> n > 65_536)
                && (r == Err(MessageTooLarge(size, 1_073_741_824)) <==> n <= 65_536 && size > 1_073_741_824)
                && (r.Ok? <==> n <= 65_536 && size <= 1_073_741_824)
    {
      EncodeErrorExactly();
      var headerBytes: seq<Byte>;
      match header {
        case DefaultHeader => headerBytes := [];
        case Packed(bytes) => headerBytes := bytes;
        case Unserializable => return Err(MessagePackSerialization);
      }
      var headerLength: U32 := |headerBytes| % 0x1_0000_0000;
      var payloadLength: U64 := |payloadData|;
      if headerLength > DEFAULT_MAX_HEADER_SIZE {
        return Err(HeaderTooLarge(headerLength, DEFAULT_MAX_HEADER_SIZE));
      }
      var totalSize := BASE_HEADER_SIZE + headerLength + payloadLength;
      if totalSize > DEFAULT_MAX_MESSAGE_SIZE {
        return Err(MessageTooLarge(totalSize, DEFAULT_MAX_MESSAGE_SIZE));
      }
      var baseHeader := BaseHeader.New(messageType, clientId, headerLength, payloadLength);
      var buffer: seq<Byte> := [];
      buffer := buffer + [baseHeader.version];
      buffer := buffer + [baseHeader.messageType.ToU8()];
      buffer := buffer + BigEndian(baseHeader.clientId, 4);
      buffer := buffer + baseHeader.reserved;
      buffer := buffer + BigEndian(baseHeader.headerLength, 4);
      buffer := buffer + BigEndian(baseHeader.payloadLength, 8);
      assert buffer == PrintBaseHeader(baseHeader);
      buffer := buffer + headerBytes;
      buffer := buffer + payloadData;
      return Ok(buffer);
    }
  }

  // What a receiver should see of a raw message.
  predicate Carries(m: Message, item: RawMessage)
    requires !item.header.Unserializable?
  {
    && m.baseHeader.messageType == item.messageType
    && m.baseHeader.clientId == item.clientId
    && RawHeaderBytes(m) == Some(item.HeaderBytes())
    && RawPayloadBytes(m) == Some(item.payloadData)
  }

  lemma FromBytesOfPrinted(h: BaseHeader, body: seq<Byte>)
    requires h.version == PROTOCOL_VERSION
    ensures var data := PrintBaseHeader(h) + body;
            FromBytes(data) ==
              if BASE_HEADER_SIZE + |body| == h.TotalMessageSize() then Ok(Message(h, data))
              else Err(IncompleteData(h.TotalMessageSize(), BASE_HEADER_SIZE + |body|))
  {
    hide PrintBaseHeader, ParseBaseHeader;
    BaseHeaderRoundTrip(h, body);
  }

  // What stands where in a frame, the reserved bytes being zero.
  lemma FrameLayout(item: RawMessage)
    requires !item.header.Unserializable?
    ensures var frame := item.Frame();
            && |frame| == 34 + |item.HeaderBytes()| + |item.payloadData|
            && frame[0] == 1 && frame[1] < 8 && TYPES[frame[1]] == item.messageType
            && Weighed(frame[2..6]) == item.clientId
            && frame[6..22] == seq(16, _ => 0)
            && Weighed(frame[22..26]) == |item.HeaderBytes()| % 0x1_0000_0000
            && Weighed(frame[26..30]) * 0x1_0000_0000 + Weighed(frame[30..34]) == |item.payloadData|
            && frame[34..] == item.HeaderBytes() + item.payloadData
  {
    var body := item.HeaderBytes() + item.payloadData;
    assert item.Frame() == PrintBaseHeader(item.BaseHeaderFor()) + body;
    BaseHeaderRoundTrip(item.BaseHeaderFor(), body);
    BaseHeaderLayout(item.Frame());
    hide PrintBaseHeader, ParseBaseHeader, Weighed;
  }

  // Printing then parsing one message: it comes back, with its four parts, exactly when the header
  // section is short enough for its 32-bit length field.
  lemma MessageRoundTrip(item: RawMessage)
    requires item.EncodeError().None?
    ensures FromBytes(item.Frame()).Ok? <==> |item.HeaderBytes()| < 0x1_0000_0000
    ensures |item.HeaderBytes()| < 0x1_0000_0000 ==>
              && FromBytes(item.Frame()) == Ok(Message(item.BaseHeaderFor(), item.Frame()))
              && Carries(Message(item.BaseHeaderFor(), item.Frame()), item)
              && |item.Frame()| == item.BaseHeaderFor().ExactSize()
  {
    hide PrintBaseHeader, ParseBaseHeader, FromBytes;
    var h := item.BaseHeaderFor();
    var frame := item.Frame();
    FromBytesOfPrinted(h, item.HeaderBytes() + item.payloadData);
    assert frame == PrintBaseHeader(h) + (item.HeaderBytes() + item.payloadData);
    var split := BASE_HEADER_SIZE + |item.HeaderBytes()|;
    assert frame[BASE_HEADER_SIZE..split] == item.HeaderBytes();
    assert frame[split..split + |item.payloadData|] == item.payloadData;
  }

  // A 4 GiB header section slips past the size checks, because its length is 0 modulo 2^32.
  lemma OversizedHeaderIsMisprinted()
    ensures var item := RawMessage(Join, 0, Packed(seq(0x1_0000_0000, _ => 0)), []);
            item.EncodeError().None? && FromBytes(item.Frame()).Err?
  {
    MessageRoundTrip(RawMessage(Join, 0, Packed(seq(0x1_0000_0000, _ => 0)), []));
  }
}
