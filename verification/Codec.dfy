// MessageCodec, the framing codec around the streaming parser (crates/protocol/src/codec.rs), and the loop
// that drives it: decode each chunk, then decode an empty buffer until nothing more comes out.
module Codec {
  import opened Bytes
  import opened Types
  import opened Wire
  import opened Stream
  import opened Delivery
  import opened Parser

  // The bytes a codec writes for a message, or the error it reports instead.
  function EncodedFrame(item: RawMessage, frameSize: nat): Result<seq<Byte>>
  {
    if item.EncodeError().Some? then Err(item.EncodeError().value)
    else if |item.Frame()| > frameSize then Err(MessageTooLarge(|item.Frame()|, frameSize))
    else Ok(item.Frame())
  }

  // A caller's byte buffer.
  class BytesMut {
    var data: seq<Byte>

    constructor (data: seq<Byte>)
      ensures this.data == data
    {
      this.data := data;
    }
  }

  class MessageCodec {
    const parser: MessageParser
    const maxFrameSize: Usize

    function Lim(): Limits
    {
      parser.Lim()
    }

    predicate Valid()
      reads parser
    {
      parser.Valid() && maxFrameSize == parser.maxMessageSize
    }

    constructor New()
      ensures Valid() && fresh(parser) && parser.buffer == []
      ensures Lim() == Limits(DEFAULT_MAX_MESSAGE_SIZE, DEFAULT_MAX_HEADER_SIZE)
    {
      parser := new MessageParser.New();
      maxFrameSize := DEFAULT_MAX_MESSAGE_SIZE;
    }

    constructor WithLimits(maxMessageSize: Usize, maxHeaderSize: Usize)
      ensures Valid() && fresh(parser) && parser.buffer == []
      ensures Lim() == Limits(maxMessageSize, maxHeaderSize)
    {
      parser := new MessageParser.WithLimits(maxMessageSize, maxHeaderSize);
      maxFrameSize := maxMessageSize;
    }

    // A refused chunk stays in src and changes nothing; any other chunk is taken over whole before the poll.
    method Decode(src: BytesMut) returns (r: Result<Option<Message>>)
      requires Valid()
      modifies parser, src
      ensures Valid()
      ensures match PushError(old(parser.buffer), old(src.data), Lim())
              case Some(e) => r == Err(e) && parser.buffer == old(parser.buffer) && src.data == old(src.data)
              case None =>
                src.data == [] && (r, parser.buffer) == Poll(old(parser.buffer) + old(src.data), Lim())
      ensures src.data == [] <==> old(src.data) == [] || |old(parser.buffer)| + |old(src.data)| <= maxFrameSize
    {
      RefusedExactlyWhenFull(parser.buffer, src.data, Lim());
      if |src.data| > maxFrameSize {
        return Err(MessageTooLarge(|src.data|, maxFrameSize));
      }
      assert parser.buffer + [] == parser.buffer;
      if src.data != [] {
        var pushed := parser.PushData(src.data);
        if pushed.Err? {
          return Err(pushed.error);
        }
        src.data := [];
      }
      r := parser.TryParse();
    }

    // Encoding checks the sender's own frame limit, and changes dst only on success.
    method EncodeRaw(item: RawMessage, dst: BytesMut) returns (r: Result<()>)
      requires Valid()
      modifies dst
      ensures match EncodedFrame(item, maxFrameSize)
              case Err(e) => r == Err(e) && dst.data == old(dst.data)
              case Ok(frame) => r == Ok(()) && dst.data == old(dst.data) + frame
      ensures r.Ok? <==> item.EncodeError().None? && |item.Frame()| <= maxFrameSize
      ensures dst.data == if r.Ok? then old(dst.data) + item.Frame() else old(dst.data)
      ensures r.Err? ==>
                if item.EncodeError().Some? then r.error == item.EncodeError().value
                else r.error == MessageTooLarge(|item.Frame()|, maxFrameSize)
    {
      var bytes := item.ToBytes();
      if bytes.Err? {
        return Err(bytes.error);
      }
      if |bytes.value| > maxFrameSize {
        return Err(MessageTooLarge(|bytes.value|, maxFrameSize));
      }
      dst.data := dst.data + bytes.value;
      return Ok(());
    }

    method EncodeMessage(item: Message, dst: BytesMut) returns (r: Result<()>)
      requires Valid()
      modifies dst
      ensures r.Ok? <==> |item.raw| <= maxFrameSize
      ensures dst.data == if r.Ok? then old(dst.data) + item.raw else old(dst.data)
      ensures r.Err? ==> r.error == MessageTooLarge(|item.raw|, maxFrameSize)
    {
      var bytes := item.raw;
      if |bytes| > maxFrameSize {
        return Err(MessageTooLarge(|bytes|, maxFrameSize));
      }
      dst.data := dst.data + bytes;
      return Ok(());
    }
  }

  // One chunk: decode it, then decode the emptied buffer until the codec waits or fails.
  method ReceiveChunk(codec: MessageCodec, chunk: seq<Byte>) returns (messages: seq<Message>, outcome: Outcome)
    requires codec.Valid()
    modifies codec.parser
    ensures codec.Valid()
    ensures match PushError(old(codec.parser.buffer), chunk, codec.Lim())
            case Some(e) =>
              && messages == [] && outcome == PushRejected(e)
              && codec.parser.buffer == old(codec.parser.buffer)
            case None =>
              var p := ParseStream(old(codec.parser.buffer) + chunk, codec.Lim());
              && messages == p.messages && codec.parser.buffer == p.rest
              && outcome == if p.ending.Pending? then Drained else ParseFailed(p.ending.error)
  {
    hide Poll, ParseStream;
    var src := new BytesMut(chunk);
    ghost var refusal := PushError(codec.parser.buffer, chunk, codec.Lim());
    ghost var stream := codec.parser.buffer + chunk;
    messages := [];
    var r := codec.Decode(src);
    if src.data != [] {
      return [], PushRejected(r.error);
    }
    assert (r, codec.parser.buffer) == Poll(stream, codec.Lim());
    ghost var s := stream;
    NoPollYet(stream, codec.Lim());
    while r.Ok? && r.value.Some?
      invariant codec.Valid() && src.data == [] && fresh(src)
      invariant (r, codec.parser.buffer) == Poll(s, codec.Lim())
      invariant ParseStream(stream, codec.Lim()) == Prepend(messages, ParseStream(s, codec.Lim()))
      decreases |s|
    {
      OneMorePoll(stream, messages, s, codec.Lim());
      messages := messages + [r.value.value];
      s := codec.parser.buffer;
      assert s + [] == s;
      r := codec.Decode(src);
    }
    OneMorePoll(stream, messages, s, codec.Lim());
    outcome := if r.Ok? then Drained else ParseFailed(r.error);
  }

  // A whole delivery: stop at the first error.
  method Receive(codec: MessageCodec, chunks: seq<seq<Byte>>)
    returns (messages: seq<Message>, outcome: Outcome, unread: seq<seq<Byte>>)
    requires codec.Valid()
    modifies codec.parser
    ensures codec.Valid()
    ensures Delivered(messages, outcome, codec.parser.buffer, unread)
         == Deliver(old(codec.parser.buffer), chunks, codec.Lim())
  {
    hide Poll, PushError, ParseStream;
    ghost var start := codec.parser.buffer;
    messages, outcome, unread := [], Drained, chunks;
    while unread != []
      invariant codec.Valid() && outcome == Drained
      invariant var d := Deliver(codec.parser.buffer, unread, codec.Lim());
                Deliver(start, chunks, codec.Lim()) == d.(messages := messages + d.messages)
      decreases |unread|
    {
      ghost var d := Deliver(codec.parser.buffer, unread, codec.Lim());
      var more: seq<Message>;
      more, outcome := ReceiveChunk(codec, unread[0]);
      if outcome.PushRejected? {
        assert messages + [] == messages;
        return;
      }
      ghost var before := messages;
      messages := messages + more;
      unread := unread[1..];
      if outcome.ParseFailed? {
        return;
      }
      ghost var rest := Deliver(codec.parser.buffer, unread, codec.Lim());
      assert before + (more + rest.messages) == messages + rest.messages;
    }
    assert messages + [] == messages;
  }

  // ----- Encoding a list -----

  // Writing encoding outcomes one behind the other stops at the first error.
  function WriteAll(outcomes: seq<Result<seq<Byte>>>): (seq<Byte>, Result<()>)
  {
    if outcomes == [] then ([], Ok(()))
    else
      match outcomes[0]
      case Err(e) => ([], Err(e))
      case Ok(bytes) =>
        var (later, r) := WriteAll(outcomes[1..]);
        (bytes + later, r)
  }

  // It writes the outcomes in front of the first error, and reports that error; with none it writes all of them.
  lemma {:induction false} WriteAllStops(outcomes: seq<Result<seq<Byte>>>, chunks: seq<seq<Byte>>, k: nat)
    requires |chunks| == k <= |outcomes|
    requires forall i | 0 <= i < k :: outcomes[i] == Ok(chunks[i])
    requires k < |outcomes| ==> outcomes[k].Err?
    ensures WriteAll(outcomes).0 == Flatten(chunks)
    ensures WriteAll(outcomes).1 == if k < |outcomes| then Err(outcomes[k].error) else Ok(())
  {
    if k == 0 {
    } else {
      var os, cs := outcomes[1..], chunks[1..];
      assert forall i | 0 <= i < |os| :: os[i] == outcomes[i + 1];
      assert forall i | 0 <= i < |cs| :: cs[i] == chunks[i + 1];
      WriteAllStops(os, cs, k - 1);
    }
  }

  // One step of a loop that still has outcomes[i..] to write.
  lemma WriteNext(was: seq<Byte>, outcomes: seq<Result<seq<Byte>>>, i: nat)
    requires i < |outcomes|
    ensures var (rest, r) := WriteAll(outcomes[i..]);
            match outcomes[i]
            case Err(e) => rest == [] && r == Err(e) && was + rest == was
            case Ok(bytes) =>
              var (later, r') := WriteAll(outcomes[i + 1..]);
              was + rest == (was + bytes) + later && r' == r
  {
    assert outcomes[i..][1..] == outcomes[i + 1..];
    if outcomes[i].Ok? {
      var bytes, later := outcomes[i].value, WriteAll(outcomes[i + 1..]).0;
      assert was + (bytes + later) == (was + bytes) + later;
    }
  }

  function FrameOutcomes(items: seq<RawMessage>, frameSize: nat): seq<Result<seq<Byte>>>
  {
    seq(|items|, i requires 0 <= i < |items| => EncodedFrame(items[i], frameSize))
  }

  function RelayOutcome(m: Message, frameSize: nat): Result<seq<Byte>>
  {
    if |m.raw| > frameSize then Err(MessageTooLarge(|m.raw|, frameSize)) else Ok(m.raw)
  }

  function RelayOutcomes(ms: seq<Message>, frameSize: nat): seq<Result<seq<Byte>>>
  {
    seq(|ms|, i requires 0 <= i < |ms| => RelayOutcome(ms[i], frameSize))
  }

  lemma NothingToWrite(was: seq<Byte>)
    ensures was + WriteAll([]).0 == was && WriteAll([]).1 == Ok(())
  {
  }

  // Encodes a list of messages back to back, up to the first that fails.
  method Send(codec: MessageCodec, items: seq<RawMessage>, dst: BytesMut) returns (r: Result<()>)
    requires codec.Valid()
    modifies dst
    ensures var (written, outcome) := WriteAll(FrameOutcomes(items, codec.maxFrameSize));
            r == outcome && dst.data == old(dst.data) + written
  {
    hide EncodedFrame, WriteAll, MessageCodec.Valid;
    ghost var outcomes := FrameOutcomes(items, codec.maxFrameSize);
    ghost var all := WriteAll(outcomes);
    ghost var start := dst.data;
    assert outcomes[0..] == outcomes;
    for i := 0 to |items|
      invariant dst.data + WriteAll(outcomes[i..]).0 == start + all.0
      invariant WriteAll(outcomes[i..]).1 == all.1
    {
      WriteNext(dst.data, outcomes, i);
      r := codec.EncodeRaw(items[i], dst);
      if r.Err? {
        return;
      }
    }
    assert outcomes[|items|..] == [];
    NothingToWrite(dst.data);
    return Ok(());
  }

  // Encodes received messages again, in order, up to the first that does not fit.
  method Forward(codec: MessageCodec, messages: seq<Message>, dst: BytesMut) returns (r: Result<()>)
    requires codec.Valid()
    modifies dst
    ensures var (written, outcome) := WriteAll(RelayOutcomes(messages, codec.maxFrameSize));
            r == outcome && dst.data == old(dst.data) + written
  {
    hide WriteAll, MessageCodec.Valid;
    ghost var outcomes := RelayOutcomes(messages, codec.maxFrameSize);
    ghost var all := WriteAll(outcomes);
    ghost var start := dst.data;
    assert outcomes[0..] == outcomes;
    for i := 0 to |messages|
      invariant dst.data + WriteAll(outcomes[i..]).0 == start + all.0
      invariant WriteAll(outcomes[i..]).1 == all.1
    {
      WriteNext(dst.data, outcomes, i);
      r := codec.EncodeMessage(messages[i], dst);
      if r.Err? {
        return;
      }
    }
    assert outcomes[|messages|..] == [];
    NothingToWrite(dst.data);
    return Ok(());
  }

  // Everything admissible under a limit no larger than the frame size is forwarded whole.
  lemma ForwardedWhole(ms: seq<Message>, lim: Limits, frameSize: nat)
    requires AllAdmissible(ms, lim) && lim.maxMessage <= frameSize
    ensures WriteAll(RelayOutcomes(ms, frameSize)).0 == Flatten(Raws(ms))
    ensures WriteAll(RelayOutcomes(ms, frameSize)).1.Ok?
  {
    forall i | 0 <= i < |ms|
      ensures RelayOutcomes(ms, frameSize)[i] == Ok(ms[i].raw)
    {
      assert ms[i] in ms;
    }
    hide AllAdmissible, Admissible;
    WriteAllStops(RelayOutcomes(ms, frameSize), Raws(ms), |ms|);
  }

  // What a sender with a given frame size can write.
  predicate Sendable(item: RawMessage, frameSize: nat)
  {
    item.EncodeError().None? && |item.Frame()| <= frameSize
  }

  predicate AllSendable(items: seq<RawMessage>, frameSize: nat)
  {
    forall i | 0 <= i < |items| :: Sendable(items[i], frameSize)
  }

  // The frames of messages that can be serialised.
  function Frames(items: seq<RawMessage>): (frames: seq<seq<Byte>>)
    requires forall i | 0 <= i < |items| :: !items[i].header.Unserializable?
    ensures |frames| == |items|
  {
    seq(|items|, i requires 0 <= i < |items| => items[i].Frame())
  }

  lemma FramesAreSent(items: seq<RawMessage>)
    requires AllEncodable(items)
    ensures Frames(items) == Raws(SentAll(items))
  {
  }

  lemma {:induction false} FirstUnsendable(items: seq<RawMessage>, frameSize: nat) returns (k: nat)
    ensures k <= |items| && AllSendable(items[..k], frameSize)
    ensures k < |items| ==> !Sendable(items[k], frameSize)
  {
    if items == [] {
      k := 0;
    } else if !Sendable(items[0], frameSize) {
      k := 0;
    } else {
      hide Sendable;
      k := FirstUnsendable(items[1..], frameSize);
      assert items[..k + 1] == [items[0]] + items[1..][..k];
      k := k + 1;
    }
  }

  // Any list is sent up to its first item that cannot be encoded or does not fit: what is written is the frames in
  // front of that item, and its own error is reported.
  lemma SentUpToTheFirstError(items: seq<RawMessage>, frameSize: nat) returns (k: nat)
    ensures k <= |items| && AllSendable(items[..k], frameSize)
    ensures var (written, r) := WriteAll(FrameOutcomes(items, frameSize));
            && written == Flatten(Frames(items[..k]))
            && (k == |items| ==> r == Ok(()))
            && (k < |items| ==>
                  && !Sendable(items[k], frameSize)
                  && r == Err(if items[k].EncodeError().Some? then items[k].EncodeError().value
                              else MessageTooLarge(|items[k].Frame()|, frameSize)))
  {
    k := FirstUnsendable(items, frameSize);
    assert forall i | 0 <= i < k :: items[..k][i] == items[i];
    WriteAllStops(FrameOutcomes(items, frameSize), Frames(items[..k]), k);
  }

  // It succeeds exactly when every item can be encoded and fits, and then every frame is written; with headers of
  // less than 2^32 bytes that is what is to be received.
  lemma SentWhole(items: seq<RawMessage>, frameSize: nat)
    ensures var (written, r) := WriteAll(FrameOutcomes(items, frameSize));
            && (r.Ok? <==> AllSendable(items, frameSize))
            && (r.Ok? && AllEncodable(items) ==> written == Flatten(Raws(SentAll(items))))
  {
    var k := SentUpToTheFirstError(items, frameSize);
    hide WriteAll, FrameOutcomes, Sendable;
    assert items[..|items|] == items;
    if k == |items| && AllEncodable(items) {
      FramesAreSent(items);
    }
  }

  lemma KeptBytes(start: seq<Byte>, written: seq<Byte>, lost: seq<Byte>, rest: seq<Byte>)
    ensures start + written <= start + (written + (lost + rest))
    ensures (start + written) + rest == start + (written + (lost + rest)) <==> lost == []
  {
    assert start + (written + (lost + rest)) == (start + written) + (lost + rest);
    if lost == [] {
      assert lost + rest == rest;
    } else {
      assert |(start + written) + rest| < |start + (written + (lost + rest))|;
    }
  }

  // A relay with room for what its input side lets through writes a beginning of the stream, byte for byte, reserved
  // bytes included. However the delivery ends, what it has written, its leftover and the chunks it has not read are
  // the whole stream, exactly when the parse error, if there is one, has not cost any bytes. When no chunk is refused
  // that is so exactly when the stream does not hold, behind some admissible messages, a header that loses bytes.
  method Relay(input: MessageCodec, output: MessageCodec, chunks: seq<seq<Byte>>, dst: BytesMut)
    returns (outcome: Outcome, unread: seq<seq<Byte>>)
    requires input.Valid() && output.Valid() && input.parser != output.parser
    requires input.parser.buffer == [] && input.maxFrameSize <= output.maxFrameSize
    modifies input.parser, dst
    ensures var d := Deliver([], chunks, input.Lim());
            outcome == d.outcome && unread == d.unread && input.parser.buffer == d.rest
    ensures dst.data <= old(dst.data) + Flatten(chunks)
    ensures dst.data + (input.parser.buffer + Flatten(unread)) == old(dst.data) + Flatten(chunks)
            <==> Lost(outcome) == 0
    ensures !outcome.PushRejected? ==> (Lost(outcome) == 0 <==> !LosesInPass(Flatten(chunks), input.Lim()))
  {
    hide Poll, Deliver, WriteAll, Admissible, Raws, Flatten, LosesInPass;
    var messages;
    messages, outcome, unread := Receive(input, chunks);
    ghost var lim := input.Lim();
    ghost var lost := DeliveryAccountsForBytes([], chunks, lim);
    if !outcome.PushRejected? {
      DeliveryLosesExactly(chunks, lim);
    }
    assert [] + Flatten(chunks) == Flatten(chunks);
    ForwardedWhole(messages, lim, output.maxFrameSize);
    assert Accounts(Flatten(chunks), messages, lost, input.parser.buffer, Flatten(unread));
    KeptBytes(dst.data, Flatten(Raws(messages)), lost, input.parser.buffer + Flatten(unread));
    var r := Forward(output, messages, dst);
  }

  // Cuts a stream into chunks of the given sizes, the last taking what remains.
  function Cut(s: seq<Byte>, sizes: seq<nat>): (chunks: seq<seq<Byte>>)
  {
    if sizes == [] || |s| <= sizes[0] then [s] else [s[..sizes[0]]] + Cut(s[sizes[0]..], sizes[1..])
  }

  lemma {:induction false} CutKeepsTheStream(s: seq<Byte>, sizes: seq<nat>)
    ensures Flatten(Cut(s, sizes)) == s
  {
    if sizes == [] || |s| <= sizes[0] {
      FlattenSnoc([], s);
      assert [] + [s] == [s];
    } else {
      CutKeepsTheStream(s[sizes[0]..], sizes[1..]);
      assert Cut(s, sizes)[1..] == Cut(s[sizes[0]..], sizes[1..]);
    }
  }

  predicate ShortHeaders(items: seq<RawMessage>)
  {
    forall i | 0 <= i < |items| :: !items[i].header.Unserializable? && |items[i].HeaderBytes()| < 0x1_0000_0000
  }

  // A receiver with the default limits admits everything any sender writes, headers of 2^32 bytes and more aside.
  lemma DefaultLimitsAdmitAllSent(items: seq<RawMessage>, frameSize: nat)
    requires AllSendable(items, frameSize) && ShortHeaders(items)
    ensures AllReceivable(items, DEFAULT_LIMITS)
  {
    hide Receivable, RawMessage.EncodeError;
    forall i | 0 <= i < |items|
      ensures Encodable(items[i]) && Receivable(items[i], DEFAULT_LIMITS)
    {
      assert Sendable(items[i], frameSize);
      EncodableExactlyWhenReceivable(items[i]);
    }
  }

  // From one codec to another: whatever the cutting, what was written before the first error, if there is one, is what
  // is received, and nothing is left over.
  method Transfer(sender: MessageCodec, receiver: MessageCodec, items: seq<RawMessage>, sizes: seq<nat>)
    returns (sent: Result<()>, ghost k: nat, messages: seq<Message>, outcome: Outcome)
    requires sender.Valid() && receiver.Valid()
    requires receiver.parser.buffer == []
    modifies receiver.parser
    ensures receiver.Valid()
    ensures k <= |items| && AllSendable(items[..k], sender.maxFrameSize)
    ensures if sent.Ok? then k == |items| else k < |items| && !Sendable(items[k], sender.maxFrameSize)
    ensures receiver.Lim() == DEFAULT_LIMITS && ShortHeaders(items[..k]) ==>
              AllReceivable(items[..k], receiver.Lim())
    ensures AllReceivable(items[..k], receiver.Lim()) && !outcome.PushRejected? ==>
              outcome == Drained && AllCarry(messages, items[..k]) && receiver.parser.buffer == []
  {
    k := SentUpToTheFirstError(items, sender.maxFrameSize);
    ghost var written := items[..k];
    if ShortHeaders(written) {
      DefaultLimitsAdmitAllSent(written, sender.maxFrameSize);
    }
    if AllEncodable(written) {
      FramesAreSent(written);
    }
    hide Poll, Deliver, SentAll, AllCarry, Receivable, Encodable, WriteAll, FrameOutcomes, Sendable;
    var wire := new BytesMut([]);
    sent := Send(sender, items, wire);
    assert [] + Flatten(Frames(written)) == wire.data;
    var chunks := Cut(wire.data, sizes);
    CutKeepsTheStream(wire.data, sizes);
    var unread;
    messages, outcome, unread := Receive(receiver, chunks);
    if AllReceivable(written, receiver.Lim()) && !outcome.PushRejected? {
      EndToEnd(written, chunks, receiver.Lim());
    }
  }
}
