// MessageParser, the accumulating streaming parser (crates/protocol/src/parser.rs).
module Parser {
  import opened Bytes
  import opened Types
  import opened Wire
  import opened Stream

  class MessageParser {
    var buffer: seq<Byte>
    const maxMessageSize: Usize
    const maxHeaderSize: Usize

    function Lim(): Limits
    {
      Limits(maxMessageSize, maxHeaderSize)
    }

    predicate Valid()
      reads this
    {
      |buffer| <= maxMessageSize
    }

    constructor WithLimits(maxMessageSize: Usize, maxHeaderSize: Usize)
      ensures Valid() && buffer == []
      ensures this.maxMessageSize == maxMessageSize && this.maxHeaderSize == maxHeaderSize
    {
      this.buffer := [];
      this.maxMessageSize := maxMessageSize;
      this.maxHeaderSize := maxHeaderSize;
    }

    constructor New()
      ensures Valid() && buffer == []
      ensures maxMessageSize == DEFAULT_MAX_MESSAGE_SIZE && maxHeaderSize == DEFAULT_MAX_HEADER_SIZE
    {
      buffer := [];
      maxMessageSize := DEFAULT_MAX_MESSAGE_SIZE;
      maxHeaderSize := DEFAULT_MAX_HEADER_SIZE;
    }

    // The limit is on the whole buffer, not on one message; a refused push changes nothing.
    method PushData(data: seq<Byte>) returns (r: Result<()>)
      requires Valid()
      modifies this
      ensures Valid()
      ensures r.Ok? <==> PushFits(old(buffer), data, Lim())
      ensures r.Ok? ==> buffer == old(buffer) + data
      ensures r.Err? ==> buffer == old(buffer) && r.error == MessageTooLarge(|old(buffer)| + |data|, maxMessageSize)
    {
      if |buffer| + |data| > maxMessageSize {
        return Err(MessageTooLarge(|buffer| + |data|, maxMessageSize));
      }
      buffer := buffer + data;
      return Ok(());
    }

    method TryParse() returns (r: Result<Option<Message>>)
      requires Valid()
      modifies this
      ensures Valid()
      ensures (r, buffer) == Poll(old(buffer), Lim())
      ensures maxHeaderSize < 0x1_0000_0000 ==>
                ((r.Err? && r.error.HeaderTooLarge?) <==> HeaderExceeds(old(buffer), maxHeaderSize))
    {
      SizeErrorsExactly(buffer, Lim());
      if |buffer| < BASE_HEADER_SIZE {
        return Ok(None);
      }
      var parsed := ParseBaseHeader(buffer[..BASE_HEADER_SIZE]);
      if parsed.Err? {
        return Ok(None);
      }
      var baseHeader := parsed.value;
      if baseHeader.headerLength > maxHeaderSize % 0x1_0000_0000 {
        return Err(HeaderTooLarge(baseHeader.headerLength, maxHeaderSize));
      }
      var totalSize := baseHeader.TotalMessageSize();
      if totalSize > maxMessageSize {
        return Err(MessageTooLarge(totalSize, maxMessageSize));
      }
      if |buffer| < totalSize {
        return Ok(None);
      }
      var messageBytes := buffer[..totalSize];
      buffer := buffer[totalSize..];
      var message := FromBytes(messageBytes);
      if message.Err? {
        return Err(message.error);
      }
      return Ok(Some(message.value));
    }

    method Clear()
      modifies this
      ensures Valid() && buffer == []
    {
      buffer := [];
    }

    // Parses the buffered stream to its end. On an error the messages already cut off are neither returned nor put
    // back: what is returned and what is left are all the bytes there were exactly when the buffer holds neither a
    // header that fails behind some message nor one that loses bytes.
    method ParseAll() returns (r: Result<seq<Message>>)
      requires Valid()
      modifies this
      ensures Valid()
      ensures var p := ParseStream(old(buffer), Lim());
              && buffer == p.rest
              && r == if p.ending.Pending? then Ok(p.messages) else Err(p.ending.error)
      ensures r.Ok? ==>
                && AllAdmissible(r.value, Lim())
                && old(buffer) == Flatten(Raws(r.value)) + buffer
                && Poll(buffer, Lim()).0 == Ok(None)
      ensures old(buffer) == (if r.Ok? then Flatten(Raws(r.value)) else []) + buffer
              <==> !DropsInPass(old(buffer), Lim())
    {
      ghost var was := buffer;
      ghost var stop := ParseStreamFactors(was, Lim());
      NoPollYet(was, Lim());
      PassReturnsAllExactly(was, Lim());
      hide Poll, ParseStream, DropsInPass, Raws;
      var messages: seq<Message> := [];
      while true
        invariant Valid()
        invariant ParseStream(was, Lim()) == Prepend(messages, ParseStream(buffer, Lim()))
        decreases |buffer|
      {
        OneMorePoll(was, messages, buffer, Lim());
        var message := TryParse();
        if message.Err? {
          return Err(message.error);
        }
        if message.value.None? {
          return Ok(messages);
        }
        messages := messages + [message.value.value];
      }
    }
  }

  // Any schedule of calls on a new parser goes through the states of Stream.Run.
  method Execute(parser: MessageParser, ops: seq<Op>) returns (emitted: seq<Message>, errors: seq<ProtocolError>)
    requires parser.buffer == []
    modifies parser
    ensures parser.Valid()
    ensures var h := Run(ops, parser.Lim());
            parser.buffer == h.buffer && emitted == h.emitted && errors == h.errors
  {
    hide Poll;
    emitted, errors := [], [];
    for i := 0 to |ops|
      invariant parser.Valid()
      invariant var h := Run(ops[..i], parser.Lim());
                parser.buffer == h.buffer && emitted == h.emitted && errors == h.errors
    {
      assert ops[..i + 1][..i] == ops[..i];
      match ops[i] {
        case Push(data) =>
          var pushed := parser.PushData(data);
        case Clear =>
          parser.Clear();
        case TryParse =>
          var r := parser.TryParse();
          if r.Err? {
            errors := errors + [r.error];
          } else if r.value.Some? {
            emitted := emitted + [r.value.value];
          }
      }
    }
    assert ops[..|ops|] == ops;
  }
}
