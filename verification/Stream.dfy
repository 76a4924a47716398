// What a streaming parser should make of a byte stream, and why the way the stream is cut and the way
// the parser is scheduled do not matter (crates/protocol/src/parser.rs).
module Stream {
  import opened Bytes
  import opened Types
  import opened Wire

  datatype Limits = Limits(maxMessage: Usize, maxHeader: Usize)
  {
    // `max_header_size as u32`
    function HeaderCap(): U32
    {
      maxHeader % 0x1_0000_0000
    }
  }

  // ----- One poll -----

  type Polled = Result<Option<Message>>

  // try_parse as a function of the buffer: its answer, and the buffer it leaves.
  function Poll(buffer: seq<Byte>, lim: Limits): (r: (Polled, seq<Byte>))
    ensures r.0 == Ok(None) ==> r.1 == buffer
    ensures r.0.Ok? && r.0.value.Some? ==> |r.1| + BASE_HEADER_SIZE <= |buffer|
  {
    if |buffer| < BASE_HEADER_SIZE then (Ok(None), buffer)
    else
      match ParseBaseHeader(buffer[..BASE_HEADER_SIZE])
      case Err(_) => (Ok(None), buffer)
      case Ok(h) =>
        var total := h.TotalMessageSize();
        if h.headerLength > lim.HeaderCap() then (Err(HeaderTooLarge(h.headerLength, lim.maxHeader)), buffer)
        else if total > lim.maxMessage then (Err(MessageTooLarge(total, lim.maxMessage)), buffer)
        else if |buffer| < total then (Ok(None), buffer)
        else
          match FromBytes(buffer[..total])
          case Err(e) => (Err(e), buffer[total..])
          case Ok(m) => (Ok(Some(m)), buffer[total..])
  }

  // A message that stands for its own bytes and fits the limits.
  predicate Admissible(m: Message, lim: Limits)
  {
    && FromBytes(m.raw) == Ok(m)
    && m.baseHeader.headerLength <= lim.HeaderCap()
    && |m.raw| <= lim.maxMessage
  }

  // Every message cut out is an admissible one that stood at the front of the buffer, and only it is removed.
  lemma PollEmits(buffer: seq<Byte>, lim: Limits)
    requires Poll(buffer, lim).0.Ok? && Poll(buffer, lim).0.value.Some?
    ensures var m := Poll(buffer, lim).0.value.value;
            Admissible(m, lim) && buffer == m.raw + Poll(buffer, lim).1
  {
    BaseHeaderPrefix(buffer);
    var h := ParseBaseHeader(buffer).value;
    var raw := buffer[..h.TotalMessageSize()];
    assert |raw| >= BASE_HEADER_SIZE;
    BaseHeaderPrefix(raw);
    assert raw[..BASE_HEADER_SIZE] == buffer[..BASE_HEADER_SIZE];
  }

  // And every admissible message at the front of the buffer is cut out, whatever follows it.
  lemma PollFindsMessage(m: Message, tail: seq<Byte>, lim: Limits)
    requires Admissible(m, lim)
    ensures Poll(m.raw + tail, lim) == (Ok(Some(m)), tail)
  {
    var buffer := m.raw + tail;
    BaseHeaderPrefix(m.raw);
    assert buffer[..BASE_HEADER_SIZE] == m.raw[..BASE_HEADER_SIZE];
    assert buffer[..|m.raw|] == m.raw && buffer[|m.raw|..] == tail;
  }

  // No admissible message is a proper prefix of another: at most one can stand at the front of a buffer.
  lemma MessagesArePrefixFree(m: Message, tail: seq<Byte>, m': Message, tail': seq<Byte>, lim: Limits)
    requires Admissible(m, lim) && Admissible(m', lim)
    requires m.raw + tail == m'.raw + tail'
    ensures m == m' && tail == tail'
  {
    PollFindsMessage(m, tail, lim);
    PollFindsMessage(m', tail', lim);
  }

  // A size sum that wraps below 34 makes try_parse cut off bytes from_bytes cannot accept.
  predicate WrapsShort(buffer: seq<Byte>, lim: Limits)
  {
    && ParseBaseHeader(buffer).Ok?
    && var h := ParseBaseHeader(buffer).value;
       h.headerLength <= lim.HeaderCap() && h.TotalMessageSize() < BASE_HEADER_SIZE
       && h.TotalMessageSize() <= lim.maxMessage
  }

  // from_bytes fails inside try_parse exactly on those headers, which all overflow the u64 sum.
  lemma InnerParseFails(buffer: seq<Byte>, lim: Limits)
    ensures (Poll(buffer, lim).0.Err? && Poll(buffer, lim).0.error.IncompleteData?) <==> WrapsShort(buffer, lim)
    ensures WrapsShort(buffer, lim) ==>
              && ParseBaseHeader(buffer).value.Overflows()
              && Poll(buffer, lim).1 == buffer[ParseBaseHeader(buffer).value.TotalMessageSize()..]
  {
    if |buffer| >= BASE_HEADER_SIZE {
      BaseHeaderPrefix(buffer);
      if ParseBaseHeader(buffer).Ok? {
        var total := ParseBaseHeader(buffer).value.TotalMessageSize();
        if BASE_HEADER_SIZE <= total <= |buffer| {
          BaseHeaderPrefix(buffer[..total]);
          assert buffer[..total][..BASE_HEADER_SIZE] == buffer[..BASE_HEADER_SIZE];
        }
      }
    }
  }

  // A size sum that wraps to a value strictly between 0 and 34: that many bytes are cut off and lost.
  predicate LosesBytes(buffer: seq<Byte>, lim: Limits)
  {
    WrapsShort(buffer, lim) && ParseBaseHeader(buffer).value.TotalMessageSize() > 0
  }

  // One poll loses no byte unless the size sum wraps to a value strictly between 0 and 34.
  lemma PollConserves(buffer: seq<Byte>, lim: Limits)
    ensures var (r, rest) := Poll(buffer, lim);
            buffer == (if r.Ok? && r.value.Some? then r.value.value.raw else []) + rest
            <==> !LosesBytes(buffer, lim)
    ensures LosesBytes(buffer, lim) ==> Poll(buffer, lim).0.Err? && |Poll(buffer, lim).1| < |buffer|
    ensures Poll(buffer, lim).0.Err? ==> |Poll(buffer, lim).1| <= |buffer|
  {
    InnerParseFails(buffer, lim);
    var (r, rest) := Poll(buffer, lim);
    if r.Ok? && r.value.Some? {
      PollEmits(buffer, lim);
    } else {
      assert [] + rest == rest;
    }
  }

  // The two size errors with their numbers, each exactly when its limit is broken; the header limit is checked first.
  lemma SizeErrorsExactly(buffer: seq<Byte>, lim: Limits)
    ensures (Poll(buffer, lim).0.Err? && Poll(buffer, lim).0.error.HeaderTooLarge?) <==>
              ParseBaseHeader(buffer).Ok? && ParseBaseHeader(buffer).value.headerLength > lim.HeaderCap()
    ensures (Poll(buffer, lim).0.Err? && Poll(buffer, lim).0.error.MessageTooLarge?) <==>
              && ParseBaseHeader(buffer).Ok?
              && ParseBaseHeader(buffer).value.headerLength <= lim.HeaderCap()
              && ParseBaseHeader(buffer).value.TotalMessageSize() > lim.maxMessage
    ensures Poll(buffer, lim).0.Err? ==>
              match Poll(buffer, lim).0.error
              case HeaderTooLarge(size, max) =>
                size == ParseBaseHeader(buffer).value.headerLength && max == lim.maxHeader
              case MessageTooLarge(size, max) =>
                size == ParseBaseHeader(buffer).value.TotalMessageSize() && max == lim.maxMessage
              case IncompleteData(needed, available) =>
                needed == BASE_HEADER_SIZE && available == ParseBaseHeader(buffer).value.TotalMessageSize()
              case _ => false
  {
    InnerParseFails(buffer, lim);
    if |buffer| >= BASE_HEADER_SIZE {
      BaseHeaderPrefix(buffer);
    }
  }

  predicate RefusesHeader(buffer: seq<Byte>, lim: Limits)
  {
    Poll(buffer, lim).0.Err? && Poll(buffer, lim).0.error.HeaderTooLarge?
  }

  predicate HeaderExceeds(buffer: seq<Byte>, max: nat)
  {
    ParseBaseHeader(buffer).Ok? && ParseBaseHeader(buffer).value.headerLength > max
  }

  // The header limit is the one the parser was given, for every buffer, as long as that fits the 32 bits it is cast to.
  // Beyond, the cast lowers it, and some header within the limit is refused unless the low 32 bits are all ones.
  lemma HeaderLimitHoldsExactly(lim: Limits)
    ensures (forall buffer :: RefusesHeader(buffer, lim) <==> HeaderExceeds(buffer, lim.maxHeader)) <==>
              lim.maxHeader < 0x1_0000_0000 || lim.maxHeader % 0x1_0000_0000 == 0xFFFF_FFFF
  {
    forall buffer
      ensures RefusesHeader(buffer, lim) <==> HeaderExceeds(buffer, lim.maxHeader % 0x1_0000_0000)
    {
      SizeErrorsExactly(buffer, lim);
    }
    hide Poll, RefusesHeader;
    if lim.maxHeader >= 0x1_0000_0000 {
      var h := BaseHeader.New(Join, 0, 0xFFFF_FFFF, 0);
      BaseHeaderRoundTrip(h, []);
      assert !HeaderExceeds(PrintBaseHeader(h) + [], lim.maxHeader);
      assert lim.maxHeader % 0x1_0000_0000 != 0xFFFF_FFFF ==> RefusesHeader(PrintBaseHeader(h) + [], lim);
    }
  }

  // Waiting is never in vain behind a valid base header: any bytes that bring the buffer to the announced size
  // complete a message.
  lemma WaitingCompletes(buffer: seq<Byte>, more: seq<Byte>, lim: Limits)
    requires Poll(buffer, lim).0 == Ok(None) && ParseBaseHeader(buffer).Ok?
    requires |buffer| + |more| == ParseBaseHeader(buffer).value.TotalMessageSize()
    ensures Poll(buffer + more, lim) == (Ok(Some(Message(ParseBaseHeader(buffer).value, buffer + more))), [])
  {
    var all := buffer + more;
    BaseHeaderPrefix(buffer);
    BaseHeaderPrefix(all);
    assert all[..BASE_HEADER_SIZE] == buffer[..BASE_HEADER_SIZE];
    assert all[..|all|] == all;
  }

  // An answer other than "wait" does not depend on what has arrived behind it, and size errors consume nothing.
  lemma PollIsStable(buffer: seq<Byte>, more: seq<Byte>, lim: Limits)
    requires Poll(buffer, lim).0 != Ok(None)
    ensures Poll(buffer + more, lim) == (Poll(buffer, lim).0, Poll(buffer, lim).1 + more)
    ensures Poll(buffer, lim).0.Err? && !Poll(buffer, lim).0.error.IncompleteData? ==> Poll(buffer, lim).1 == buffer
  {
    var total := ParseBaseHeader(buffer[..BASE_HEADER_SIZE]).value.TotalMessageSize();
    assert (buffer + more)[..BASE_HEADER_SIZE] == buffer[..BASE_HEADER_SIZE];
    if total <= |buffer| {
      assert (buffer + more)[..total] == buffer[..total];
      assert (buffer + more)[total..] == buffer[total..] + more;
    }
    InnerParseFails(buffer, lim);
  }

  // The headers that make a poll fail: over a limit, or with a size sum that wraps below 34.
  predicate HeaderFails(buffer: seq<Byte>, lim: Limits)
  {
    && ParseBaseHeader(buffer).Ok?
    && var h := ParseBaseHeader(buffer).value;
       || h.headerLength > lim.HeaderCap()
       || h.TotalMessageSize() > lim.maxMessage
       || h.TotalMessageSize() < BASE_HEADER_SIZE
  }

  // What a failed poll costs: from_bytes reports how many bytes it was given, and those are gone.
  function ErrorCost(e: ProtocolError): nat
  {
    if e.IncompleteData? then e.available else 0
  }

  // A poll fails on exactly those headers, and costs bytes exactly when the header loses some.
  lemma PollFailsExactly(buffer: seq<Byte>, lim: Limits)
    ensures Poll(buffer, lim).0.Err? <==> HeaderFails(buffer, lim)
    ensures Poll(buffer, lim).0.Err? ==>
              var n := ErrorCost(Poll(buffer, lim).0.error);
              && n <= |buffer| && Poll(buffer, lim).1 == buffer[n..]
              && (n > 0 <==> LosesBytes(buffer, lim))
    ensures LosesBytes(buffer, lim) ==> HeaderFails(buffer, lim)
  {
    SizeErrorsExactly(buffer, lim);
    InnerParseFails(buffer, lim);
    if |buffer| >= BASE_HEADER_SIZE {
      BaseHeaderPrefix(buffer);
    }
  }

  // ----- The whole stream -----

  datatype Ending = Pending | Failed(error: ProtocolError)
  datatype Parsed = Parsed(messages: seq<Message>, ending: Ending, rest: seq<Byte>)

  function Prepend(ms: seq<Message>, p: Parsed): Parsed
  {
    p.(messages := ms + p.messages)
  }

  // The reference: cut messages off the front until no more can be cut.
  function ParseStream(s: seq<Byte>, lim: Limits): Parsed
    decreases |s|
  {
    var (r, rest) := Poll(s, lim);
    match r
    case Err(e) => Parsed([], Failed(e), rest)
    case Ok(None) => Parsed([], Pending, rest)
    case Ok(Some(m)) => Prepend([m], ParseStream(rest, lim))
  }

  function Raws(ms: seq<Message>): seq<seq<Byte>>
  {
    seq(|ms|, i requires 0 <= i < |ms| => ms[i].raw)
  }

  predicate AllAdmissible(ms: seq<Message>, lim: Limits)
  {
    forall m <- ms :: Admissible(m, lim)
  }

  lemma FlattenRawsCons(m: Message, ms: seq<Message>)
    ensures Flatten(Raws([m] + ms)) == m.raw + Flatten(Raws(ms))
  {
    var rs := Raws([m] + ms);
    assert rs[1..] == Raws(ms);
  }

  lemma FlattenNoRaws()
    ensures Flatten(Raws([])) == []
  {
  }

  // Reading side of the factorisation: the reference result splits the stream into admissible messages
  // and a part where the next poll stops.
  lemma {:induction false} ParseStreamFactors(s: seq<Byte>, lim: Limits) returns (stop: seq<Byte>)
    ensures var p := ParseStream(s, lim);
            && AllAdmissible(p.messages, lim)
            && s == Flatten(Raws(p.messages)) + stop
            && Poll(stop, lim) == (if p.ending.Pending? then Ok(None) else Err(p.ending.error), p.rest)
            && (p.ending.Pending? ==> p.rest == stop)
    decreases |s|
  {
    hide Poll, Admissible, Raws;
    var (r, rest) := Poll(s, lim);
    if r.Ok? && r.value.Some? {
      var m := r.value.value;
      PollEmits(s, lim);
      stop := ParseStreamFactors(rest, lim);
      FlattenRawsCons(m, ParseStream(rest, lim).messages);
    } else {
      stop := s;
      FlattenNoRaws();
      assert s == [] + s;
    }
  }

  lemma ParseStreamOfOne(m: Message, s: seq<Byte>, lim: Limits)
    requires Admissible(m, lim)
    ensures ParseStream(m.raw + s, lim) == Prepend([m], ParseStream(s, lim))
  {
    hide Poll, Admissible;
    PollFindsMessage(m, s, lim);
  }

  lemma NoPollYet(stream: seq<Byte>, lim: Limits)
    ensures ParseStream(stream, lim) == Prepend([], ParseStream(stream, lim))
  {
    hide ParseStream;
    assert [] + ParseStream(stream, lim).messages == ParseStream(stream, lim).messages;
  }

  // Writing side: any admissible messages written in front of any bytes come back, in order, before whatever
  // those bytes parse to. With ParseStreamFactors this makes the factorisation of a stream unique.
  lemma {:induction false} ParseStreamOfMessages(ms: seq<Message>, tail: seq<Byte>, lim: Limits)
    requires AllAdmissible(ms, lim)
    ensures ParseStream(Flatten(Raws(ms)) + tail, lim) == Prepend(ms, ParseStream(tail, lim))
  {
    hide Poll, Admissible, Raws, ParseStream;
    if ms == [] {
      FlattenNoRaws();
      assert [] + tail == tail;
      NoPollYet(tail, lim);
    } else {
      var later := ms[1..];
      assert ms == [ms[0]] + later;
      assert ms[0] in ms && forall m <- later :: m in ms;
      FlattenRawsCons(ms[0], later);
      var s := Flatten(Raws(later)) + tail;
      assert (ms[0].raw + Flatten(Raws(later))) + tail == ms[0].raw + s;
      ParseStreamOfOne(ms[0], s, lim);
      ParseStreamOfMessages(later, tail, lim);
      assert [ms[0]] + (later + ParseStream(tail, lim).messages) == ms + ParseStream(tail, lim).messages;
    }
  }

  // Parsing a stream in two goes: if the first part only ran out of bytes, its leftover and the second part
  // give the remaining messages; if it failed, the second part changes nothing but the bytes left over.
  lemma ParseStreamInTwo(s: seq<Byte>, more: seq<Byte>, lim: Limits)
    ensures var p := ParseStream(s, lim);
            ParseStream(s + more, lim) ==
              if p.ending.Pending? then Prepend(p.messages, ParseStream(p.rest + more, lim))
              else p.(rest := p.rest + more)
  {
    hide Poll;
    var p := ParseStream(s, lim);
    var stop := ParseStreamFactors(s, lim);
    assert s + more == Flatten(Raws(p.messages)) + (stop + more);
    ParseStreamOfMessages(p.messages, stop + more, lim);
    if p.ending.Failed? {
      PollIsStable(stop, more, lim);
      assert p.messages + [] == p.messages;
    }
  }

  // One more poll of a loop that has already cut ms off the stream.
  lemma OneMorePoll(stream: seq<Byte>, ms: seq<Message>, s: seq<Byte>, lim: Limits)
    requires ParseStream(stream, lim) == Prepend(ms, ParseStream(s, lim))
    ensures var (r, rest) := Poll(s, lim);
            match r
            case Err(e) => ParseStream(stream, lim) == Parsed(ms, Failed(e), rest)
            case Ok(None) => ParseStream(stream, lim) == Parsed(ms, Pending, rest)
            case Ok(Some(m)) => ParseStream(stream, lim) == Prepend(ms + [m], ParseStream(rest, lim))
  {
    hide Poll;
    var (r, rest) := Poll(s, lim);
    if r.Ok? && r.value.Some? {
      var later := ParseStream(rest, lim).messages;
      assert ms + ([r.value.value] + later) == (ms + [r.value.value]) + later;
    } else {
      assert ms + [] == ms;
    }
  }

  function EndingCost(ending: Ending): nat
  {
    if ending.Failed? then ErrorCost(ending.error) else 0
  }

  // A pass accounts for every byte: in a message, left over, or the cost of its error.
  lemma PassAccounts(s: seq<Byte>, lim: Limits)
    ensures var p := ParseStream(s, lim);
            |s| == |Flatten(Raws(p.messages))| + EndingCost(p.ending) + |p.rest|
  {
    hide Poll, ParseStream;
    var stop := ParseStreamFactors(s, lim);
    PollFailsExactly(stop, lim);
  }

  // A stream of admissible messages in front of a header that fails is passed in exactly one way.
  lemma PassFails(s: seq<Byte>, ms: seq<Message>, tail: seq<Byte>, lim: Limits)
    requires AllAdmissible(ms, lim) && s == Flatten(Raws(ms)) + tail && HeaderFails(tail, lim)
    ensures Poll(tail, lim).0.Err?
    ensures ParseStream(s, lim) == Parsed(ms, Failed(Poll(tail, lim).0.error), Poll(tail, lim).1)
  {
    hide Poll, HeaderFails, Admissible, Raws;
    PollFailsExactly(tail, lim);
    ParseStreamOfMessages(ms, tail, lim);
    assert ms + [] == ms;
  }

  // The stream holds, behind some admissible messages, a header that loses bytes.
  ghost predicate LosesInPass(s: seq<Byte>, lim: Limits)
  {
    exists ms, tail :: AllAdmissible(ms, lim) && s == Flatten(Raws(ms)) + tail && LosesBytes(tail, lim)
  }

  // A pass costs bytes exactly on those streams.
  lemma PassLosesExactly(s: seq<Byte>, lim: Limits)
    ensures EndingCost(ParseStream(s, lim).ending) > 0 <==> LosesInPass(s, lim)
  {
    hide Poll, HeaderFails, LosesBytes, Admissible, Raws, ParseStream;
    var p := ParseStream(s, lim);
    if EndingCost(p.ending) > 0 {
      var stop := ParseStreamFactors(s, lim);
      PollFailsExactly(stop, lim);
    }
    if LosesInPass(s, lim) {
      var ms, tail :| AllAdmissible(ms, lim) && s == Flatten(Raws(ms)) + tail && LosesBytes(tail, lim);
      PollFailsExactly(tail, lim);
      PassFails(s, ms, tail, lim);
    }
  }

  predicate DropsBehind(s: seq<Byte>, ms: seq<Message>, tail: seq<Byte>, lim: Limits)
  {
    && AllAdmissible(ms, lim) && s == Flatten(Raws(ms)) + tail
    && HeaderFails(tail, lim) && (ms != [] || LosesBytes(tail, lim))
  }

  // The stream holds a header that fails, and in front of it at least one admissible message, or it loses bytes.
  ghost predicate DropsInPass(s: seq<Byte>, lim: Limits)
  {
    exists ms, tail :: DropsBehind(s, ms, tail, lim)
  }

  lemma MessagesHaveBytes(ms: seq<Message>, lim: Limits)
    requires AllAdmissible(ms, lim) && ms != []
    ensures Flatten(Raws(ms)) != []
  {
    assert Admissible(ms[0], lim);
    assert ms == [ms[0]] + ms[1..];
    FlattenRawsCons(ms[0], ms[1..]);
  }

  // parse_all returns its messages only when the pass does not fail. What it returns and what it leaves in the buffer
  // are then all the bytes there were exactly when the stream is not one of those.
  lemma PassReturnsAllExactly(s: seq<Byte>, lim: Limits)
    ensures var p := ParseStream(s, lim);
            s == (if p.ending.Pending? then Flatten(Raws(p.messages)) else []) + p.rest <==> !DropsInPass(s, lim)
  {
    hide Poll, HeaderFails, LosesBytes, Admissible, Raws, ParseStream;
    var p := ParseStream(s, lim);
    var stop := ParseStreamFactors(s, lim);
    PollFailsExactly(stop, lim);
    if DropsInPass(s, lim) {
      var ms, tail :| DropsBehind(s, ms, tail, lim);
      PassFails(s, ms, tail, lim);
      PollFailsExactly(tail, lim);
      if ms != [] {
        MessagesHaveBytes(ms, lim);
      }
      assert |p.rest| < |s|;
    } else if p.ending.Failed? {
      assert !DropsBehind(s, p.messages, stop, lim);
      FlattenNoRaws();
      assert [] + stop == stop && [] + p.rest == p.rest;
    }
  }

  // ----- Any schedule of pushes and polls -----

  datatype Op = Push(data: seq<Byte>) | TryParse | Clear

  // A parser's buffer with the record of what went in and what came out.
  datatype History = History(
    buffer: seq<Byte>,
    accepted: seq<Byte>,
    emitted: seq<Message>,
    errors: seq<ProtocolError>)

  const FRESH := History([], [], [], [])

  predicate PushFits(buffer: seq<Byte>, data: seq<Byte>, lim: Limits)
  {
    |buffer| + |data| <= lim.maxMessage
  }

  function Step(h: History, op: Op, lim: Limits): History
  {
    match op
    case Push(data) =>
      if PushFits(h.buffer, data, lim) then h.(buffer := h.buffer + data, accepted := h.accepted + data) else h
    case Clear => h.(buffer := [])
    case TryParse =>
      var (r, rest) := Poll(h.buffer, lim);
      match r
      case Err(e) => h.(buffer := rest, errors := h.errors + [e])
      case Ok(None) => h.(buffer := rest)
      case Ok(Some(m)) => h.(buffer := rest, emitted := h.emitted + [m])
  }

  function Run(ops: seq<Op>, lim: Limits): History
  {
    if ops == [] then FRESH else Step(Run(ops[..|ops| - 1], lim), ops[|ops| - 1], lim)
  }

  // Some poll of the run meets a header that loses bytes.
  predicate LosesBytesInRun(ops: seq<Op>, lim: Limits)
  {
    exists i | 0 <= i < |ops| :: ops[i].TryParse? && LosesBytes(Run(ops[..i], lim).buffer, lim)
  }

  lemma LosesBytesNext(ops: seq<Op>, lim: Limits)
    requires ops != []
    ensures var init, last := ops[..|ops| - 1], ops[|ops| - 1];
            LosesBytesInRun(ops, lim) <==>
              LosesBytesInRun(init, lim) || (last.TryParse? && LosesBytes(Run(init, lim).buffer, lim))
  {
    hide LosesBytes, Run;
    var init := ops[..|ops| - 1];
    assert forall i | 0 <= i < |init| :: init[i] == ops[i] && init[..i] == ops[..i];
    if LosesBytesInRun(init, lim) {
      var i :| 0 <= i < |init| && init[i].TryParse? && LosesBytes(Run(init[..i], lim).buffer, lim);
      assert ops[i].TryParse? && LosesBytes(Run(ops[..i], lim).buffer, lim);
    }
    if LosesBytesInRun(ops, lim) {
      var i :| 0 <= i < |ops| && ops[i].TryParse? && LosesBytes(Run(ops[..i], lim).buffer, lim);
      if i < |init| {
        assert init[i].TryParse? && LosesBytes(Run(init[..i], lim).buffer, lim);
      }
    }
  }

  // The bytes a history can account for, and whether they are all there.
  predicate Accounted(h: History)
  {
    h.accepted == Flatten(Raws(h.emitted)) + h.buffer
  }

  predicate Short(h: History)
  {
    |h.accepted| > |Flatten(Raws(h.emitted))| + |h.buffer|
  }

  lemma EmittingAccounts(h: History, m: Message, rest: seq<Byte>)
    requires h.buffer == m.raw + rest
    ensures var h' := h.(buffer := rest, emitted := h.emitted + [m]);
            && (Accounted(h) ==> Accounted(h'))
            && (Short(h) ==> Short(h'))
  {
    FlattenSnoc(Raws(h.emitted), m.raw);
    assert Raws(h.emitted + [m]) == Raws(h.emitted) + [m.raw];
    var done := Flatten(Raws(h.emitted));
    assert done + (m.raw + rest) == (done + m.raw) + rest;
  }

  lemma PollAccounts(h: History, lim: Limits)
    ensures var h' := Step(h, TryParse, lim);
            && (Accounted(h) && !LosesBytes(h.buffer, lim) ==> Accounted(h'))
            && (Accounted(h) && LosesBytes(h.buffer, lim) ==> Short(h'))
            && (Short(h) ==> Short(h'))
    ensures AllAdmissible(h.emitted, lim) ==> AllAdmissible(Step(h, TryParse, lim).emitted, lim)
  {
    hide Poll, LosesBytes, Admissible, Raws, Flatten;
    PollConserves(h.buffer, lim);
    var (r, rest) := Poll(h.buffer, lim);
    if r.Ok? && r.value.Some? {
      PollEmits(h.buffer, lim);
      EmittingAccounts(h, r.value.value, rest);
    } else {
      assert [] + rest == rest;
    }
  }

  lemma NothingLostYet(lim: Limits)
    ensures !LosesBytesInRun([], lim)
  {
  }

  // Bytes are neither lost nor duplicated in a run without a clear, even one with refused pushes and size errors,
  // exactly when no poll of it meets a header that loses bytes.
  lemma {:induction false} BytesAreConserved(ops: seq<Op>, lim: Limits)
    requires Clear !in ops
    ensures var h := Run(ops, lim);
            && (Accounted(h) <==> !LosesBytesInRun(ops, lim))
            && (LosesBytesInRun(ops, lim) ==> Short(h))
            && AllAdmissible(h.emitted, lim)
  {
    hide Poll, LosesBytes, LosesBytesInRun, Admissible, Raws;
    if ops == [] {
      FlattenNoRaws();
      NothingLostYet(lim);
    } else {
      var before := ops[..|ops| - 1];
      var b := Run(before, lim);
      BytesAreConserved(before, lim);
      LosesBytesNext(ops, lim);
      match ops[|ops| - 1] {
        case Push(data) =>
          assert Flatten(Raws(b.emitted)) + (b.buffer + data) == (Flatten(Raws(b.emitted)) + b.buffer) + data;
        case TryParse => PollAccounts(b, lim);
        case Clear =>
      }
    }
  }

  // "What has come out, then what the buffer still holds, is what one pass over all accepted input gives."
  ghost predicate OnCourse(h: History, lim: Limits)
  {
    ParseStream(h.accepted, lim) == Prepend(h.emitted, ParseStream(h.buffer, lim))
  }

  lemma PushKeepsCourse(h: History, data: seq<Byte>, lim: Limits)
    requires OnCourse(h, lim)
    ensures OnCourse(h.(buffer := h.buffer + data, accepted := h.accepted + data), lim)
  {
    hide Poll, ParseStream;
    ParseStreamInTwo(h.accepted, data, lim);
    ParseStreamInTwo(h.buffer, data, lim);
    var p := ParseStream(h.buffer, lim);
    if p.ending.Pending? {
      var q := ParseStream(p.rest + data, lim);
      assert (h.emitted + p.messages) + q.messages == h.emitted + (p.messages + q.messages);
    }
  }

  lemma PollKeepsCourse(h: History, lim: Limits)
    requires OnCourse(h, lim) && !LosesBytes(h.buffer, lim)
    ensures OnCourse(Step(h, TryParse, lim), lim)
  {
    hide Poll, LosesBytes;
    PollFailsExactly(h.buffer, lim);
    if Poll(h.buffer, lim).0.Ok? {
      OneMorePoll(h.accepted, h.emitted, h.buffer, lim);
      if Poll(h.buffer, lim).0 == Ok(None) {
        OneMorePoll(h.buffer, [], h.buffer, lim);
      }
    }
  }

  lemma FreshIsOnCourse(lim: Limits)
    ensures OnCourse(FRESH, lim)
  {
    NoPollYet([], lim);
  }

  lemma ShortIsOffCourse(h: History, lim: Limits)
    requires Short(h)
    ensures !OnCourse(h, lim)
  {
    PassAccounts(h.accepted, lim);
    PassAccounts(h.buffer, lim);
    hide ParseStream;
    var p := ParseStream(h.buffer, lim);
    if OnCourse(h, lim) {
      assert Raws(h.emitted + p.messages) == Raws(h.emitted) + Raws(p.messages);
      FlattenConcat(Raws(h.emitted), Raws(p.messages));
    }
  }

  // A run without a clear stays on course, however pushes and polls interleave and whatever errors they report,
  // exactly as long as no poll of it meets a header that loses bytes.
  lemma {:induction false} ScheduleDoesNotMatter(ops: seq<Op>, lim: Limits)
    requires Clear !in ops
    ensures OnCourse(Run(ops, lim), lim) <==> !LosesBytesInRun(ops, lim)
  {
    hide Poll, OnCourse, LosesBytes, LosesBytesInRun, Raws;
    if LosesBytesInRun(ops, lim) {
      BytesAreConserved(ops, lim);
      ShortIsOffCourse(Run(ops, lim), lim);
    } else if ops == [] {
      FreshIsOnCourse(lim);
    } else {
      var before := ops[..|ops| - 1];
      var b := Run(before, lim);
      LosesBytesNext(ops, lim);
      ScheduleDoesNotMatter(before, lim);
      match ops[|ops| - 1] {
        case Push(data) => PushKeepsCourse(b, data, lim);
        case TryParse => PollKeepsCourse(b, lim);
        case Clear =>
      }
    }
  }

  // The first error a pass would stop at is the one the next poll reports, after the same messages.
  lemma FirstErrorIsTheStreams(ops: seq<Op>, more: seq<Byte>, lim: Limits)
    requires Clear !in ops
    requires !LosesBytesInRun(ops, lim)
    requires Poll(Run(ops, lim).buffer, lim).0.Err?
    ensures var h := Run(ops, lim);
            var p := ParseStream(h.accepted + more, lim);
            p.messages == h.emitted && p.ending == Failed(Poll(h.buffer, lim).0.error)
  {
    ScheduleDoesNotMatter(ops, lim);
    var h := Run(ops, lim);
    hide Poll, Run;
    ParseStreamInTwo(h.accepted, more, lim);
    assert h.emitted + [] == h.emitted;
  }

  function TotalCost(errors: seq<ProtocolError>): nat
  {
    if errors == [] then 0 else TotalCost(errors[..|errors| - 1]) + ErrorCost(errors[|errors| - 1])
  }

  lemma RawsSnoc(ms: seq<Message>, m: Message)
    ensures Raws(ms + [m]) == Raws(ms) + [m.raw]
  {
  }

  lemma PollReportsItsCost(h: History, lim: Limits)
    ensures var h' := Step(h, TryParse, lim);
            |h.buffer| + |Flatten(Raws(h.emitted))| + TotalCost(h.errors)
            == |h'.buffer| + |Flatten(Raws(h'.emitted))| + TotalCost(h'.errors)
  {
    PollFailsExactly(h.buffer, lim);
    var (r, rest) := Poll(h.buffer, lim);
    hide Poll, ErrorCost, Raws, Flatten;
    if r.Err? {
      assert (h.errors + [r.error])[..|h.errors|] == h.errors;
    } else if r.value.Some? {
      PollEmits(h.buffer, lim);
      var m := r.value.value;
      FlattenSnoc(Raws(h.emitted), m.raw);
      RawsSnoc(h.emitted, m);
    }
  }

  // Every lost byte is reported: the errors of a run without a clear add up to what is missing.
  lemma {:induction false} ErrorsReportTheLoss(ops: seq<Op>, lim: Limits)
    requires Clear !in ops
    ensures var h := Run(ops, lim);
            |h.accepted| == |Flatten(Raws(h.emitted))| + |h.buffer| + TotalCost(h.errors)
  {
    hide Poll, Raws, Flatten;
    if ops == [] {
      FlattenNoRaws();
    } else {
      ErrorsReportTheLoss(ops[..|ops| - 1], lim);
      if ops[|ops| - 1].TryParse? {
        PollReportsItsCost(Run(ops[..|ops| - 1], lim), lim);
      }
    }
  }

  // A run that loses bytes has reported an error.
  lemma {:induction false} LossIsReported(ops: seq<Op>, lim: Limits)
    requires LosesBytesInRun(ops, lim)
    ensures Run(ops, lim).errors != []
  {
    hide Poll, LosesBytes, LosesBytesInRun;
    if ops == [] {
      NothingLostYet(lim);
    } else {
      var before := ops[..|ops| - 1];
      LosesBytesNext(ops, lim);
      PollFailsExactly(Run(before, lim).buffer, lim);
      if LosesBytesInRun(before, lim) {
        LossIsReported(before, lim);
      }
    }
  }

  lemma JoinIsAdmissible(lim: Limits) returns (m: Message)
    requires lim.maxMessage >= BASE_HEADER_SIZE
    ensures var h := BaseHeader.New(Join, 0, 0, 0);
            m == Message(h, PrintBaseHeader(h)) && |m.raw| == BASE_HEADER_SIZE && Admissible(m, lim)
  {
    var h := BaseHeader.New(Join, 0, 0, 0);
    m := Message(h, PrintBaseHeader(h));
    BaseHeaderRoundTrip(h, []);
    assert m.raw + [] == m.raw;
  }

  lemma HugeHeaderFails(lim: Limits)
    requires lim.maxMessage < 0xFFFF_FFFF_FFFF_FFFF
    ensures var bytes := PrintBaseHeader(BaseHeader.New(Join, 0, 0, 0xFFFF_FFFF_FFFF_FFDD));
            |bytes| == BASE_HEADER_SIZE && HeaderFails(bytes, lim) && Poll(bytes, lim).1 == bytes
  {
    var h := BaseHeader.New(Join, 0, 0, 0xFFFF_FFFF_FFFF_FFDD);
    var bytes := PrintBaseHeader(h);
    BaseHeaderRoundTrip(h, []);
    assert bytes + [] == bytes == bytes[..BASE_HEADER_SIZE];
  }

  lemma DropsOne(m: Message, tail: seq<Byte>, lim: Limits)
    requires Admissible(m, lim) && HeaderFails(tail, lim)
    ensures var p := ParseStream(m.raw + tail, lim);
            p.messages == [m] && p.ending.Failed? && p.rest == Poll(tail, lim).1
    ensures DropsInPass(m.raw + tail, lim)
  {
    hide Poll, HeaderFails, Admissible, ParseStream;
    assert AllAdmissible([m], lim);
    assert Flatten(Raws([m])) == m.raw;
    PassFails(m.raw + tail, [m], tail, lim);
    assert DropsBehind(m.raw + tail, [m], tail, lim);
  }

  lemma TwoPushes(one: seq<Byte>, two: seq<Byte>, lim: Limits)
    requires PushFits(one, two, lim)
    ensures Run([Push(one), Push(two)], lim) == History(one + two, one + two, [], [])
  {
    var ops := [Push(one), Push(two)];
    assert ops[..1] == [Push(one)] && ops[..1][..0] == [];
    assert Run([Push(one)], lim) == History(one, one, [], []) by {
      assert [] + one == one;
    }
  }

  // A message and a header over the limit behind it, pushed to a new parser: the pass fails, and the message is
  // neither in what parse_all returns nor in what it leaves.
  lemma PassCanDropAMessage(lim: Limits)
    requires 2 * BASE_HEADER_SIZE <= lim.maxMessage < 0xFFFF_FFFF_FFFF_FFFF
    ensures var first := PrintBaseHeader(BaseHeader.New(Join, 0, 0, 0));
            var second := PrintBaseHeader(BaseHeader.New(Join, 0, 0, 0xFFFF_FFFF_FFFF_FFDD));
            var h := Run([Push(first), Push(second)], lim);
            var p := ParseStream(h.buffer, lim);
            && h == History(first + second, first + second, [], [])
            && p.messages == [Message(BaseHeader.New(Join, 0, 0, 0), first)]
            && p.ending.Failed? && p.rest == second
            && DropsInPass(h.buffer, lim)
  {
    var m := JoinIsAdmissible(lim);
    var second := PrintBaseHeader(BaseHeader.New(Join, 0, 0, 0xFFFF_FFFF_FFFF_FFDD));
    HugeHeaderFails(lim);
    hide Poll, HeaderFails, Admissible, ParseStream, Run, DropsInPass, PrintBaseHeader;
    DropsOne(m, second, lim);
    TwoPushes(m.raw, second, lim);
  }

  lemma PollLosesOne(lim: Limits)
    requires lim.maxMessage >= 1
    ensures var bytes := PrintBaseHeader(BaseHeader.New(Join, 0, 0, 0xFFFF_FFFF_FFFF_FFDF));
            Poll(bytes, lim) == (Err(IncompleteData(BASE_HEADER_SIZE, 1)), bytes[1..])
  {
    var h := BaseHeader.New(Join, 0, 0, 0xFFFF_FFFF_FFFF_FFDF);
    var bytes := PrintBaseHeader(h);
    BaseHeaderRoundTrip(h, []);
    assert bytes + [] == bytes == bytes[..BASE_HEADER_SIZE];
  }

  // A header that loses one byte: its sizes add up to 2^64 + 1.
  lemma PollCanLoseAByte(lim: Limits)
    requires lim.maxMessage >= BASE_HEADER_SIZE
    ensures var bytes := PrintBaseHeader(BaseHeader.New(Join, 0, 0, 0xFFFF_FFFF_FFFF_FFDF));
            Run([Push(bytes), TryParse], lim) == History(bytes[1..], bytes, [], [IncompleteData(BASE_HEADER_SIZE, 1)])
  {
    var bytes := PrintBaseHeader(BaseHeader.New(Join, 0, 0, 0xFFFF_FFFF_FFFF_FFDF));
    PollLosesOne(lim);
    hide Poll;
    var ops := [Push(bytes), TryParse];
    assert ops[..1] == [Push(bytes)] && ops[..1][..0] == [];
    assert Run([Push(bytes)], lim) == History(bytes, bytes, [], []) by {
      assert [] + bytes == bytes;
    }
    assert [] + [IncompleteData(BASE_HEADER_SIZE, 1)] == [IncompleteData(BASE_HEADER_SIZE, 1)];
  }

  // In every reachable state the buffer is within the message limit.
  lemma {:induction false} BufferStaysWithinLimit(ops: seq<Op>, lim: Limits)
    ensures |Run(ops, lim).buffer| <= lim.maxMessage
  {
    if ops == [] {
    } else {
      BufferStaysWithinLimit(ops[..|ops| - 1], lim);
    }
  }

  // A first byte that is not the version, or a second one that is no message type.
  predicate Hopeless(buffer: seq<Byte>)
  {
    || (|buffer| >= 1 && buffer[0] != PROTOCOL_VERSION)
    || (|buffer| >= 2 && MessageType.FromU8(buffer[1]).None?)
  }

  lemma HopelessWaits(buffer: seq<Byte>, more: seq<Byte>, lim: Limits)
    requires Hopeless(buffer)
    ensures Poll(buffer, lim) == (Ok(None), buffer) && Hopeless(buffer + more)
  {
    if |buffer| >= BASE_HEADER_SIZE {
      BaseHeaderPrefix(buffer);
    }
  }

  lemma StepHopeless(h: History, op: Op, lim: Limits)
    requires Hopeless(h.buffer) && !op.Clear?
    ensures var h' := Step(h, op, lim);
            h.buffer <= h'.buffer && Hopeless(h'.buffer) && h'.emitted == h.emitted && h'.errors == h.errors
  {
    hide Poll, Hopeless;
    HopelessWaits(h.buffer, if op.Push? then op.data else [], lim);
  }

  // Once one of the first two bytes is wrong, no run of pushes and polls reports an error, emits anything, or moves
  // a byte: only a clear gets the parser going again.
  lemma {:induction false} StuckForever(before: seq<Op>, ops: seq<Op>, lim: Limits)
    requires Hopeless(Run(before, lim).buffer)
    requires Clear !in ops
    ensures var h := Run(before, lim);
            var h' := Run(before + ops, lim);
            h.buffer <= h'.buffer && Hopeless(h'.buffer) && h'.emitted == h.emitted && h'.errors == h.errors
  {
    hide Step, Hopeless;
    if ops == [] {
      assert before + ops == before;
    } else {
      var init, op := ops[..|ops| - 1], ops[|ops| - 1];
      assert (before + ops)[..|before + ops| - 1] == before + init;
      StuckForever(before, init, lim);
      assert op in ops;
      StepHopeless(Run(before + init, lim), op, lim);
    }
  }

  // Bytes that make a buffer with a valid base header answer.
  lemma AnswerBehindHeader(buffer: seq<Byte>, lim: Limits) returns (more: seq<Byte>)
    requires |buffer| <= lim.maxMessage && ParseBaseHeader(buffer).Ok?
    ensures PushFits(buffer, more, lim) && Poll(buffer + more, lim).0 != Ok(None)
  {
    BaseHeaderPrefix(buffer);
    var total := ParseBaseHeader(buffer).value.TotalMessageSize();
    if Poll(buffer, lim).0 == Ok(None) {
      more := seq(total - |buffer|, _ => 0);
      WaitingCompletes(buffer, more, lim);
    } else {
      more := [];
      assert buffer + more == buffer;
    }
  }

  // Bytes that complete the base header of any other buffer.
  lemma HeaderBehindHope(buffer: seq<Byte>) returns (more: seq<Byte>)
    requires !Hopeless(buffer) && |buffer| < BASE_HEADER_SIZE
    ensures |buffer + more| == BASE_HEADER_SIZE && ParseBaseHeader(buffer + more).Ok?
  {
    var full: seq<Byte> := [PROTOCOL_VERSION] + seq(33, _ => 0);
    more := full[|buffer|..];
    var all := buffer + more;
    assert all[0] == PROTOCOL_VERSION;
    assert MessageType.FromU8(all[1]).Some?;
  }

  // And every other buffer can still be answered: a buffer is hopeless exactly when no bytes that fit make it so.
  lemma HopelessExactly(buffer: seq<Byte>, lim: Limits)
    requires |buffer| <= lim.maxMessage && BASE_HEADER_SIZE <= lim.maxMessage
    ensures Hopeless(buffer) <==>
              forall more | PushFits(buffer, more, lim) :: Poll(buffer + more, lim).0 == Ok(None)
    ensures |buffer| >= BASE_HEADER_SIZE ==> (Hopeless(buffer) <==> ParseBaseHeader(buffer).Err?)
  {
    if Hopeless(buffer) {
      forall more | PushFits(buffer, more, lim)
        ensures Poll(buffer + more, lim).0 == Ok(None)
      {
        HopelessWaits(buffer, more, lim);
        HopelessWaits(buffer + more, [], lim);
      }
    } else {
      var more: seq<Byte>;
      if |buffer| < BASE_HEADER_SIZE {
        var start := HeaderBehindHope(buffer);
        var later := AnswerBehindHeader(buffer + start, lim);
        more := start + later;
        assert buffer + more == (buffer + start) + later;
      } else {
        more := AnswerBehindHeader(buffer, lim);
      }
      hide Poll;
      assert PushFits(buffer, more, lim) && Poll(buffer + more, lim).0 != Ok(None);
    }
  }
}
