// A stream delivered in chunks to a receiver that polls until nothing more comes out after each chunk
// (crates/protocol/src/codec.rs, crates/protocol/src/parser.rs).
module Delivery {
  import opened Bytes
  import opened Types
  import opened Wire
  import opened Stream

  // The error decode reports for a chunk it refuses; a refused chunk changes nothing.
  function PushError(buffer: seq<Byte>, chunk: seq<Byte>, lim: Limits): Option<ProtocolError>
  {
    if |chunk| > lim.maxMessage then Some(MessageTooLarge(|chunk|, lim.maxMessage))
    else if chunk != [] && !PushFits(buffer, chunk, lim) then
      Some(MessageTooLarge(|buffer| + |chunk|, lim.maxMessage))
    else None
  }

  // A chunk is refused exactly when buffer and chunk together exceed the limit; the error gives the size of the chunk
  // when that alone is too large, and their sum otherwise.
  lemma RefusedExactlyWhenFull(buffer: seq<Byte>, chunk: seq<Byte>, lim: Limits)
    requires |buffer| <= lim.maxMessage
    ensures PushError(buffer, chunk, lim).None? <==> |buffer| + |chunk| <= lim.maxMessage
    ensures PushError(buffer, chunk, lim) == Some(MessageTooLarge(|chunk|, lim.maxMessage))
            <==> |chunk| > lim.maxMessage
    ensures |chunk| <= lim.maxMessage < |buffer| + |chunk| ==>
              PushError(buffer, chunk, lim) == Some(MessageTooLarge(|buffer| + |chunk|, lim.maxMessage))
  {
  }

  datatype Outcome = Drained | ParseFailed(error: ProtocolError) | PushRejected(error: ProtocolError)

  datatype Delivered = Delivered(
    messages: seq<Message>,
    outcome: Outcome,
    rest: seq<Byte>,
    unread: seq<seq<Byte>>)

  function Deliver(buffer: seq<Byte>, chunks: seq<seq<Byte>>, lim: Limits): Delivered
    decreases |chunks|
  {
    if chunks == [] then Delivered([], Drained, buffer, [])
    else if PushError(buffer, chunks[0], lim).Some? then
      Delivered([], PushRejected(PushError(buffer, chunks[0], lim).value), buffer, chunks)
    else
      var p := ParseStream(buffer + chunks[0], lim);
      if p.ending.Failed? then Delivered(p.messages, ParseFailed(p.ending.error), p.rest, chunks[1..])
      else
        var d := Deliver(p.rest, chunks[1..], lim);
        d.(messages := p.messages + d.messages)
  }

  // What a delivery says about the whole stream: the messages so far are the reference's first messages, and
  // what is left over, with the chunks not read, is what the reference still has before it.
  ghost predicate Matches(d: Delivered, p: Parsed, lim: Limits)
  {
    var left := d.rest + Flatten(d.unread);
    match d.outcome
    case ParseFailed(e) => p == Parsed(d.messages, Failed(e), left)
    case _ => p == Prepend(d.messages, ParseStream(left, lim))
  }

  // A buffer on which the last poll said "wait".
  predicate IsDrained(buffer: seq<Byte>, lim: Limits)
  {
    Poll(buffer, lim).0 == Ok(None)
  }

  lemma PrependDelivered(ms: seq<Message>, d: Delivered, p: Parsed, lim: Limits)
    requires Matches(d, p, lim)
    ensures Matches(d.(messages := ms + d.messages), Prepend(ms, p), lim)
  {
    hide ParseStream;
    var left := ParseStream(d.rest + Flatten(d.unread), lim);
    assert ms + (d.messages + left.messages) == (ms + d.messages) + left.messages;
  }

  lemma {:induction false} DeliveryFollowsStream(buffer: seq<Byte>, chunks: seq<seq<Byte>>, lim: Limits)
    requires IsDrained(buffer, lim)
    ensures var d := Deliver(buffer, chunks, lim);
            && Matches(d, ParseStream(buffer + Flatten(chunks), lim), lim)
            && (d.outcome.Drained? ==> d.unread == [] && IsDrained(d.rest, lim))
    decreases |chunks|
  {
    hide Poll, PushError;
    var d := Deliver(buffer, chunks, lim);
    var whole := ParseStream(buffer + Flatten(chunks), lim);
    if chunks == [] || PushError(buffer, chunks[0], lim).Some? {
      assert d.messages == [] && d.rest == buffer && Flatten(d.unread) == Flatten(chunks);
      assert [] + whole.messages == whole.messages;
    } else {
      var s := buffer + chunks[0];
      var later := Flatten(chunks[1..]);
      assert buffer + Flatten(chunks) == s + later;
      ParseStreamInTwo(s, later, lim);
      var p := ParseStream(s, lim);
      if p.ending.Pending? {
        var stop := ParseStreamFactors(s, lim);
        DeliveryFollowsStream(p.rest, chunks[1..], lim);
        PrependDelivered(p.messages, Deliver(p.rest, chunks[1..], lim), ParseStream(p.rest + later, lim), lim);
      }
    }
  }

  // A drained buffer holds no message: the reference stops on it at once.
  lemma DrainedParsesToNothing(buffer: seq<Byte>, lim: Limits)
    requires IsDrained(buffer, lim)
    ensures ParseStream(buffer, lim) == Parsed([], Pending, buffer)
  {
    hide Poll;
  }

  // The bytes a parse error has cost the delivery.
  function Lost(outcome: Outcome): nat
  {
    if outcome.ParseFailed? then ErrorCost(outcome.error) else 0
  }

  lemma DeliverOneChunk(r: seq<Byte>, c: seq<Byte>, later: seq<seq<Byte>>, lim: Limits)
    requires PushError(r, c, lim).None?
    requires ParseStream(r + c, lim).ending.Pending?
    ensures var p := ParseStream(r + c, lim);
            var d := Deliver(p.rest, later, lim);
            Deliver(r, [c] + later, lim) == d.(messages := p.messages + d.messages)
  {
    assert ([c] + later)[1..] == later;
  }

  lemma DeliverFails(r: seq<Byte>, c: seq<Byte>, later: seq<seq<Byte>>, lim: Limits)
    requires PushError(r, c, lim).None?
    requires ParseStream(r + c, lim).ending.Failed?
    ensures var p := ParseStream(r + c, lim);
            Deliver(r, [c] + later, lim) == Delivered(p.messages, ParseFailed(p.ending.error), p.rest, later)
  {
    assert ([c] + later)[1..] == later;
  }

  // The bytes s are those of the messages, then the lost ones, then the leftover, then the bytes not read.
  predicate Accounts(s: seq<Byte>, messages: seq<Message>, lost: seq<Byte>, rest: seq<Byte>, unread: seq<Byte>)
  {
    s == Flatten(Raws(messages)) + (lost + (rest + unread))
  }

  lemma AccountsAtFirst(rest: seq<Byte>, unread: seq<Byte>)
    ensures Accounts(rest + unread, [], [], rest, unread)
  {
    FlattenNoRaws();
    assert [] + ([] + (rest + unread)) == rest + unread;
  }

  lemma AccountsAtEnd(ms: seq<Message>, lost: seq<Byte>, rest: seq<Byte>, unread: seq<Byte>)
    ensures Accounts((Flatten(Raws(ms)) + (lost + rest)) + unread, ms, lost, rest, unread)
  {
    var done := Flatten(Raws(ms));
    assert (done + (lost + rest)) + unread == done + (lost + (rest + unread));
  }

  lemma AccountsBehind(ms: seq<Message>, stop: seq<Byte>, later: seq<Byte>,
    messages: seq<Message>, lost: seq<Byte>, rest: seq<Byte>, unread: seq<Byte>)
    requires Accounts(stop + later, messages, lost, rest, unread)
    ensures Accounts((Flatten(Raws(ms)) + stop) + later, ms + messages, lost, rest, unread)
  {
    assert Raws(ms + messages) == Raws(ms) + Raws(messages);
    FlattenConcat(Raws(ms), Raws(messages));
    var a, b, left := Flatten(Raws(ms)), Flatten(Raws(messages)), lost + (rest + unread);
    assert (a + stop) + later == a + (stop + later);
    assert a + (b + left) == (a + b) + left;
  }

  lemma AdmissibleConcat(xs: seq<Message>, ys: seq<Message>, lim: Limits)
    requires AllAdmissible(xs, lim) && AllAdmissible(ys, lim)
    ensures AllAdmissible(xs + ys, lim)
  {
    hide Admissible;
  }

  lemma FailedStop(stop: seq<Byte>, lim: Limits) returns (lost: seq<Byte>)
    requires Poll(stop, lim).0.Err?
    ensures |lost| == ErrorCost(Poll(stop, lim).0.error) && stop == lost + Poll(stop, lim).1
  {
    hide Poll, LosesBytes, HeaderFails;
    PollFailsExactly(stop, lim);
    lost := stop[..ErrorCost(Poll(stop, lim).0.error)];
  }

  // Every byte of a delivery is in a message, in the leftover, in a chunk not read, or among the lost ones, in
  // stream order.
  lemma {:induction false} DeliveryAccountsForBytes(buffer: seq<Byte>, chunks: seq<seq<Byte>>, lim: Limits)
    returns (lost: seq<Byte>)
    ensures var d := Deliver(buffer, chunks, lim);
            && |lost| == Lost(d.outcome)
            && AllAdmissible(d.messages, lim)
            && Accounts(buffer + Flatten(chunks), d.messages, lost, d.rest, Flatten(d.unread))
    decreases |chunks|
  {
    hide Poll, PushError, Admissible, Raws, ParseStream, Accounts;
    if chunks == [] || PushError(buffer, chunks[0], lim).Some? {
      lost := [];
      AccountsAtFirst(buffer, Flatten(chunks));
    } else {
      var c, later := chunks[0], chunks[1..];
      var s := buffer + c;
      assert buffer + Flatten(chunks) == s + Flatten(later) by {
        assert buffer + (c + Flatten(later)) == (buffer + c) + Flatten(later);
      }
      assert chunks == [c] + later;
      hide Flatten, Deliver, AllAdmissible, ErrorCost;
      var p := ParseStream(s, lim);
      var stop := ParseStreamFactors(s, lim);
      if p.ending.Failed? {
        DeliverFails(buffer, c, later, lim);
        lost := FailedStop(stop, lim);
        AccountsAtEnd(p.messages, lost, p.rest, Flatten(later));
      } else {
        DeliverOneChunk(buffer, c, later, lim);
        lost := DeliveryAccountsForBytes(p.rest, later, lim);
        var d := Deliver(p.rest, later, lim);
        AdmissibleConcat(p.messages, d.messages, lim);
        AccountsBehind(p.messages, stop, Flatten(later), d.messages, lost, d.rest, Flatten(d.unread));
      }
    }
  }

  lemma EmptyIsDrained(lim: Limits)
    ensures IsDrained([], lim)
  {
  }

  // A delivery whose chunks were all accepted ends exactly as one pass over the whole stream does.
  lemma AcceptedDeliveryIsTheStream(chunks: seq<seq<Byte>>, lim: Limits)
    requires !Deliver([], chunks, lim).outcome.PushRejected?
    ensures var d := Deliver([], chunks, lim);
            var p := ParseStream(Flatten(chunks), lim);
            && d.messages == p.messages
            && d.outcome == (if p.ending.Pending? then Drained else ParseFailed(p.ending.error))
            && d.rest + Flatten(d.unread) == p.rest
            && (d.outcome.Drained? ==> d.unread == [])
  {
    EmptyIsDrained(lim);
    hide Poll;
    DeliveryFollowsStream([], chunks, lim);
    assert [] + Flatten(chunks) == Flatten(chunks);
    var d := Deliver([], chunks, lim);
    if d.outcome.Drained? {
      assert d.rest + Flatten(d.unread) == d.rest;
      DrainedParsesToNothing(d.rest, lim);
      assert d.messages + [] == d.messages;
    }
  }

  // A delivery with no refused chunk loses bytes exactly when its stream holds, behind some admissible messages, a
  // header that does.
  lemma DeliveryLosesExactly(chunks: seq<seq<Byte>>, lim: Limits)
    requires !Deliver([], chunks, lim).outcome.PushRejected?
    ensures Lost(Deliver([], chunks, lim).outcome) > 0 <==> LosesInPass(Flatten(chunks), lim)
  {
    hide Deliver, ParseStream, LosesInPass;
    AcceptedDeliveryIsTheStream(chunks, lim);
    PassLosesExactly(Flatten(chunks), lim);
  }

  // Cutting the same stream in two ways gives the same messages and the same ending, and with no error the
  // same leftover.
  lemma FragmentationDoesNotMatter(one: seq<seq<Byte>>, two: seq<seq<Byte>>, lim: Limits)
    requires Flatten(one) == Flatten(two)
    requires !Deliver([], one, lim).outcome.PushRejected? && !Deliver([], two, lim).outcome.PushRejected?
    ensures var d := Deliver([], one, lim);
            var d' := Deliver([], two, lim);
            && d.messages == d'.messages
            && d.outcome == d'.outcome
            && (d.outcome.Drained? ==> d.rest == d'.rest)
  {
    hide Deliver, ParseStream;
    AcceptedDeliveryIsTheStream(one, lim);
    AcceptedDeliveryIsTheStream(two, lim);
    if Deliver([], one, lim).outcome.Drained? {
      assert forall r: seq<Byte> :: r + Flatten([]) == r;
    }
  }

  // Even a delivery that is cut short by a refused chunk has delivered the first messages of the stream.
  lemma DeliveredMessagesArePrefix(chunks: seq<seq<Byte>>, lim: Limits)
    ensures Deliver([], chunks, lim).messages <= ParseStream(Flatten(chunks), lim).messages
  {
    EmptyIsDrained(lim);
    hide Poll, Deliver, ParseStream;
    DeliveryFollowsStream([], chunks, lim);
    assert [] + Flatten(chunks) == Flatten(chunks);
  }

  // ----- When chunks are accepted -----

  // A leftover shorter than the message it is the beginning of.
  predicate Unfinished(r: seq<Byte>, ms: seq<Message>)
  {
    if ms == [] then r == [] else r < ms[0].raw
  }

  lemma UnfinishedIsDrained(m: Message, r: seq<Byte>, lim: Limits)
    requires Admissible(m, lim) && r < m.raw
    ensures IsDrained(r, lim)
  {
    if !IsDrained(r, lim) {
      hide Poll, Admissible;
      var more := m.raw[|r|..];
      assert r + more == m.raw == m.raw + [];
      PollIsStable(r, more, lim);
      PollFindsMessage(m, [], lim);
      PollEmits(r, lim);
      assert false;
    }
  }

  lemma UnfinishedNothing(ms: seq<Message>, lim: Limits)
    requires AllAdmissible(ms, lim)
    ensures Unfinished([], ms)
  {
    if ms != [] {
      assert Admissible(ms[0], lim);
    }
  }

  // The bytes s have brought out the first k messages and left the unfinished beginning of the next.
  predicate Reached(messages: seq<Message>, rest: seq<Byte>, s: seq<Byte>, ms: seq<Message>, k: nat)
  {
    && k <= |ms|
    && messages == ms[..k]
    && Unfinished(rest, ms[k..])
    && s == Flatten(Raws(ms[..k])) + rest
  }

  lemma ReachedNothing(r: seq<Byte>, ms: seq<Message>)
    requires Unfinished(r, ms)
    ensures Reached([], r, r, ms, 0)
  {
    assert ms[0..] == ms && Raws(ms[..0]) == [];
    assert [] + r == r;
  }

  lemma CancelPrefix(done: seq<Byte>, x: seq<Byte>, y: seq<Byte>, ahead: seq<Byte>)
    ensures (done + x) + y == done + (x + y)
    ensures done + (x + y) <= done + ahead ==> x + y <= ahead
  {
    assert (done + x) + y == done + (x + y);
    if done + (x + y) <= done + ahead {
      assert forall i | 0 <= i < |x + y| :: (x + y)[i] == (done + (x + y))[|done| + i] == (done + ahead)[|done| + i];
    }
  }

  lemma ReachedFurther(messages: seq<Message>, rest: seq<Byte>, s: seq<Byte>, ms: seq<Message>, i: nat, j: nat)
    requires i <= |ms| && Reached(messages, rest, s, ms[i..], j)
    ensures Reached(ms[..i] + messages, rest, Flatten(Raws(ms[..i])) + s, ms, i + j)
  {
    assert ms[..i + j] == ms[..i] + ms[i..][..j] && ms[i + j..] == ms[i..][j..];
    assert Raws(ms[..i + j]) == Raws(ms[..i]) + Raws(ms[i..][..j]);
    FlattenConcat(Raws(ms[..i]), Raws(ms[i..][..j]));
    CancelPrefix(Flatten(Raws(ms[..i])), Flatten(Raws(ms[i..][..j])), rest, []);
  }

  lemma FlattenRawsInTwo(ms: seq<Message>, i: nat)
    requires i <= |ms|
    ensures Flatten(Raws(ms)) == Flatten(Raws(ms[..i])) + Flatten(Raws(ms[i..]))
  {
    assert Raws(ms) == Raws(ms[..i]) + Raws(ms[i..]);
    FlattenConcat(Raws(ms[..i]), Raws(ms[i..]));
  }

  lemma OneRaw(ms: seq<Message>)
    requires ms != []
    ensures ms[..1] == [ms[0]] && Flatten(Raws(ms[..1])) == ms[0].raw
  {
    assert Raws(ms[..1]) == [] + [ms[0].raw];
    FlattenSnoc([], ms[0].raw);
  }

  lemma UnfinishedBeginning(s: seq<Byte>, ms: seq<Message>, lim: Limits)
    requires AllAdmissible(ms, lim)
    requires s <= Flatten(Raws(ms))
    requires ms == [] || |s| < |ms[0].raw|
    ensures Unfinished(s, ms) && IsDrained(s, lim)
  {
    if ms == [] {
      EmptyIsDrained(lim);
    } else {
      FlattenRawsInTwo(ms, 1);
      OneRaw(ms);
      assert s == Flatten(Raws(ms))[..|s|] == ms[0].raw[..|s|];
      UnfinishedIsDrained(ms[0], s, lim);
    }
  }

  // Any beginning of a well-formed stream parses to its complete messages and an unfinished leftover.
  lemma {:induction false} BeginningOfStream(s: seq<Byte>, ms: seq<Message>, lim: Limits) returns (k: nat)
    requires AllAdmissible(ms, lim)
    requires s <= Flatten(Raws(ms))
    ensures var p := ParseStream(s, lim);
            p.ending.Pending? && Reached(p.messages, p.rest, s, ms, k)
  {
    hide Poll, Admissible, Raws, Reached;
    if ms == [] || |s| < |ms[0].raw| {
      k := 0;
      UnfinishedBeginning(s, ms, lim);
      DrainedParsesToNothing(s, lim);
      ReachedNothing(s, ms);
    } else {
      var tail := s[|ms[0].raw|..];
      FlattenRawsInTwo(ms, 1);
      OneRaw(ms);
      assert s == ms[0].raw + tail;
      CancelPrefix(ms[0].raw, tail, [], Flatten(Raws(ms[1..])));
      assert tail + [] == tail;
      PollFindsMessage(ms[0], tail, lim);
      var j := BeginningOfStream(tail, ms[1..], lim);
      k := 1 + j;
      var p := ParseStream(tail, lim);
      ReachedFurther(p.messages, p.rest, tail, ms, 1, j);
    }
  }

  predicate ChunksWithin(chunks: seq<seq<Byte>>, chunkSize: nat)
  {
    forall c <- chunks :: |c| <= chunkSize
  }

  predicate SizesWithin(ms: seq<Message>, chunks: seq<seq<Byte>>, messageSize: nat, chunkSize: nat)
  {
    (forall m <- ms :: |m.raw| <= messageSize) && ChunksWithin(chunks, chunkSize)
  }

  // All but one byte of message k and a chunk of C bytes behind it are more than the limit, and the stream has
  // that many bytes from there on.
  predicate Overfills(ms: seq<Message>, k: nat, chunkSize: nat, lim: Limits)
    requires k < |ms|
  {
    && |ms[k].raw| - 1 + chunkSize > lim.maxMessage
    && |Flatten(Raws(ms[k..]))| > lim.maxMessage
  }

  predicate NeverOverfills(ms: seq<Message>, chunkSize: nat, lim: Limits)
  {
    forall k | 0 <= k < |ms| :: !Overfills(ms, k, chunkSize, lim)
  }

  lemma NeverOverfillsLater(ms: seq<Message>, i: nat, chunkSize: nat, lim: Limits)
    requires NeverOverfills(ms, chunkSize, lim) && i <= |ms|
    ensures NeverOverfills(ms[i..], chunkSize, lim)
  {
    forall k | 0 <= k < |ms[i..]|
      ensures !Overfills(ms[i..], k, chunkSize, lim)
    {
      assert ms[i..][k..] == ms[i + k..];
      assert !Overfills(ms, i + k, chunkSize, lim);
    }
  }

  // What is still to come after a chunk begins with the leftover.
  lemma NextChunks(
    messages: seq<Message>, rest: seq<Byte>, s: seq<Byte>, later: seq<Byte>, ms: seq<Message>, i: nat)
    requires Reached(messages, rest, s, ms, i)
    requires s + later <= Flatten(Raws(ms))
    ensures i <= |ms| && messages == ms[..i] && Unfinished(rest, ms[i..])
    ensures rest + later <= Flatten(Raws(ms[i..]))
    ensures s + later == Flatten(Raws(ms[..i])) + (rest + later)
  {
    FlattenRawsInTwo(ms, i);
    CancelPrefix(Flatten(Raws(ms[..i])), rest, later, Flatten(Raws(ms[i..])));
  }

  lemma FirstChunkFits(r: seq<Byte>, c: seq<Byte>, ms: seq<Message>, chunkSize: nat, lim: Limits)
    requires |c| <= chunkSize && NeverOverfills(ms, chunkSize, lim)
    requires Unfinished(r, ms) && |r + c| <= |Flatten(Raws(ms))|
    ensures PushError(r, c, lim).None?
  {
    if ms == [] {
      FlattenNoRaws();
    } else {
      assert ms[0..] == ms;
      assert !Overfills(ms, 0, chunkSize, lim);
    }
  }

  // One chunk of such a delivery: it is accepted, brings out the next i messages, and leaves the beginning of the rest.
  lemma NoRefusalOfOne(
    r: seq<Byte>, c: seq<Byte>, later: seq<seq<Byte>>, ms: seq<Message>, chunkSize: nat, lim: Limits)
    returns (i: nat)
    requires AllAdmissible(ms, lim)
    requires |c| <= chunkSize && NeverOverfills(ms, chunkSize, lim)
    requires Unfinished(r, ms) && (r + c) + Flatten(later) <= Flatten(Raws(ms))
    ensures i <= |ms| && NeverOverfills(ms[i..], chunkSize, lim)
    ensures var p := ParseStream(r + c, lim);
            var d := Deliver(p.rest, later, lim);
            && Deliver(r, [c] + later, lim) == d.(messages := ms[..i] + d.messages)
            && Unfinished(p.rest, ms[i..])
            && p.rest + Flatten(later) <= Flatten(Raws(ms[i..]))
            && (r + c) + Flatten(later) == Flatten(Raws(ms[..i])) + (p.rest + Flatten(later))
  {
    hide Poll, Admissible, ParseStream, Raws, Unfinished, Reached, PushError, NeverOverfills, Deliver;
    FirstChunkFits(r, c, ms, chunkSize, lim);
    i := BeginningOfStream(r + c, ms, lim);
    var p := ParseStream(r + c, lim);
    DeliverOneChunk(r, c, later, lim);
    NextChunks(p.messages, p.rest, r + c, Flatten(later), ms, i);
    NeverOverfillsLater(ms, i, chunkSize, lim);
  }

  // On a well-formed stream that never overfills, no chunk is refused; every drained leftover is shorter than the
  // message it begins.
  lemma {:induction false} NoRefusal(
    r: seq<Byte>, chunks: seq<seq<Byte>>, ms: seq<Message>, chunkSize: nat, lim: Limits)
    returns (k: nat)
    requires AllAdmissible(ms, lim)
    requires ChunksWithin(chunks, chunkSize) && NeverOverfills(ms, chunkSize, lim)
    requires Unfinished(r, ms) && r + Flatten(chunks) <= Flatten(Raws(ms))
    ensures var d := Deliver(r, chunks, lim);
            d.outcome == Drained && Reached(d.messages, d.rest, r + Flatten(chunks), ms, k)
    decreases |chunks|
  {
    hide Poll, Admissible, ParseStream, Raws, Unfinished, Reached, PushError, NeverOverfills;
    if chunks == [] {
      k := 0;
      assert r + [] == r;
      ReachedNothing(r, ms);
    } else {
      var c, later := chunks[0], chunks[1..];
      assert chunks == [c] + later;
      assert r + (c + Flatten(later)) == (r + c) + Flatten(later);
      assert r + Flatten(chunks) == (r + c) + Flatten(later);
      hide Deliver, Flatten;
      var i := NoRefusalOfOne(r, c, later, ms, chunkSize, lim);
      var rest := ParseStream(r + c, lim).rest;
      var j := NoRefusal(rest, later, ms[i..], chunkSize, lim);
      k := i + j;
      var d := Deliver(rest, later, lim);
      ReachedFurther(d.messages, d.rest, rest + Flatten(later), ms, i, j);
    }
  }

  // In particular with messages of at most M bytes, chunks of at most C bytes and M - 1 + C within the limit.
  lemma NoSpuriousRejection(
    r: seq<Byte>, chunks: seq<seq<Byte>>, ms: seq<Message>, messageSize: nat, chunkSize: nat, lim: Limits)
    returns (k: nat)
    requires AllAdmissible(ms, lim)
    requires SizesWithin(ms, chunks, messageSize, chunkSize)
    requires 0 < messageSize && messageSize - 1 + chunkSize <= lim.maxMessage
    requires Unfinished(r, ms) && r + Flatten(chunks) <= Flatten(Raws(ms))
    ensures var d := Deliver(r, chunks, lim);
            d.outcome == Drained && Reached(d.messages, d.rest, r + Flatten(chunks), ms, k)
  {
    forall i | 0 <= i < |ms|
      ensures !Overfills(ms, i, chunkSize, lim)
    {
      assert ms[i] in ms;
    }
    k := NoRefusal(r, chunks, ms, chunkSize, lim);
  }

  // ----- When some chunk is refused -----

  // Delivering more chunks behind a delivery that drained, or behind one that stopped.
  lemma {:induction false} DeliverInTwo(buffer: seq<Byte>, xs: seq<seq<Byte>>, ys: seq<seq<Byte>>, lim: Limits)
    ensures var d := Deliver(buffer, xs, lim);
            var e := Deliver(d.rest, ys, lim);
            Deliver(buffer, xs + ys, lim) ==
              if d.outcome.Drained? then e.(messages := d.messages + e.messages) else d.(unread := d.unread + ys)
    decreases |xs|
  {
    hide Poll, PushError, ParseStream;
    if xs == [] {
      assert xs + ys == ys;
      assert [] + Deliver(buffer, ys, lim).messages == Deliver(buffer, ys, lim).messages;
    } else {
      assert (xs + ys)[0] == xs[0] && (xs + ys)[1..] == xs[1..] + ys;
      var p := ParseStream(buffer + xs[0], lim);
      if PushError(buffer, xs[0], lim).None? && p.ending.Pending? {
        DeliverInTwo(p.rest, xs[1..], ys, lim);
        var d := Deliver(p.rest, xs[1..], lim);
        var e := Deliver(d.rest, ys, lim);
        assert p.messages + (d.messages + e.messages) == (p.messages + d.messages) + e.messages;
      }
    }
  }

  // A whole well-formed stream in accepted chunks gives its messages and leaves nothing.
  lemma WholeDelivery(ms: seq<Message>, chunks: seq<seq<Byte>>, lim: Limits)
    requires AllAdmissible(ms, lim)
    requires Flatten(chunks) == Flatten(Raws(ms))
    requires !Deliver([], chunks, lim).outcome.PushRejected?
    ensures Deliver([], chunks, lim) == Delivered(ms, Drained, [], [])
  {
    EmptyIsDrained(lim);
    hide Poll, Admissible, Deliver;
    ParseStreamOfMessages(ms, [], lim);
    DrainedParsesToNothing([], lim);
    assert Flatten(Raws(ms)) + [] == Flatten(Raws(ms)) && ms + [] == ms;
    AcceptedDeliveryIsTheStream(chunks, lim);
  }

  function Singles(s: seq<Byte>): (chunks: seq<seq<Byte>>)
    ensures ChunksWithin(chunks, 1)
  {
    if s == [] then [] else [[s[0]]] + Singles(s[1..])
  }

  lemma {:induction false} FlattenSingles(s: seq<Byte>)
    ensures Flatten(Singles(s)) == s
  {
    if s == [] {
    } else {
      FlattenSingles(s[1..]);
      assert Singles(s)[1..] == Singles(s[1..]);
      assert s == [s[0]] + s[1..];
    }
  }

  // Whole messages are always accepted byte by byte.
  lemma SinglesDeliverAll(ms: seq<Message>, lim: Limits)
    requires AllAdmissible(ms, lim)
    ensures Deliver([], Singles(Flatten(Raws(ms))), lim) == Delivered(ms, Drained, [], [])
  {
    var s := Flatten(Raws(ms));
    FlattenSingles(s);
    assert [] + s == s;
    forall i | 0 <= i < |ms|
      ensures !Overfills(ms, i, 1, lim)
    {
      assert ms[i] in ms;
    }
    UnfinishedNothing(ms, lim);
    hide Poll, Admissible, Deliver, Raws, Singles, Unfinished;
    var k := NoRefusal([], Singles(s), ms, 1, lim);
    WholeDelivery(ms, Singles(s), lim);
  }

  // All but the last byte of a message, sent byte by byte, and then a chunk that exceeds the limit with it.
  lemma {:induction false} SinglesThenChunk(
    m: Message, sent: seq<Byte>, unsent: seq<Byte>, chunk: seq<Byte>, lim: Limits)
    requires Admissible(m, lim)
    requires sent + unsent == m.raw[..|m.raw| - 1]
    requires |sent| + |unsent| + |chunk| > lim.maxMessage
    ensures Deliver(sent, Singles(unsent) + [chunk], lim).outcome.PushRejected?
    decreases |unsent|
  {
    var chunks := Singles(unsent) + [chunk];
    if unsent == [] {
    } else {
      var sent' := sent + [unsent[0]];
      assert sent' + unsent[1..] == sent + unsent;
      assert sent' <= sent + unsent && sent' < m.raw;
      UnfinishedIsDrained(m, sent', lim);
      DrainedParsesToNothing(sent', lim);
      hide Poll, ParseStream;
      assert chunks[0] == [unsent[0]] && chunks[1..] == Singles(unsent[1..]) + [chunk];
      SinglesThenChunk(m, sent', unsent[1..], chunk, lim);
    }
  }

  // The chunks cut a beginning of the stream, none is larger than C, and one of them is refused.
  predicate Refuses(chunks: seq<seq<Byte>>, ms: seq<Message>, chunkSize: nat, lim: Limits)
  {
    && ChunksWithin(chunks, chunkSize)
    && Flatten(chunks) <= Flatten(Raws(ms))
    && Deliver([], chunks, lim).outcome.PushRejected?
  }

  lemma FlattenCutting(done: seq<Byte>, some: seq<Byte>, last: seq<Byte>, ahead: seq<Byte>)
    requires some + last <= ahead
    ensures Flatten(Singles(done) + (Singles(some) + [last])) <= done + ahead
  {
    FlattenSingles(done);
    FlattenSingles(some);
    FlattenConcat(Singles(done), Singles(some) + [last]);
    FlattenSnoc(Singles(some), last);
  }

  lemma TwoSlices(raw: seq<Byte>, later: seq<Byte>, n: nat, size: nat)
    requires n < |raw| && n + size <= |raw| + |later|
    ensures var s := raw + later;
            [] + s[..n] == raw[..n] && s[..n] + s[n..n + size] <= s
  {
    var s := raw + later;
    assert s[..n] + s[n..n + size] == s[..n + size];
  }

  // The cutting that is refused at the first message of what is ahead.
  lemma RefusedAtFirst(ms: seq<Message>, chunkSize: nat, lim: Limits) returns (some: seq<Byte>, last: seq<Byte>)
    requires AllAdmissible(ms, lim) && 0 < chunkSize
    requires ms != [] && Overfills(ms, 0, chunkSize, lim)
    ensures some + last <= Flatten(Raws(ms)) && |last| <= chunkSize
    ensures Deliver([], Singles(some) + [last], lim).outcome.PushRejected?
  {
    var m := ms[0];
    assert m in ms && Admissible(m, lim) && |m.raw| >= BASE_HEADER_SIZE;
    assert ms[0..] == ms;
    hide Poll, ParseStream, Admissible, Deliver, Raws, Singles, PushError;
    var s := Flatten(Raws(ms));
    FlattenRawsInTwo(ms, 1);
    OneRaw(ms);
    var n := |m.raw| - 1;
    var size := if chunkSize <= |s| - n then chunkSize else |s| - n;
    some, last := s[..n], s[n..n + size];
    TwoSlices(m.raw, Flatten(Raws(ms[1..])), n, size);
    SinglesThenChunk(m, [], some, last, lim);
  }

  // Where the stream overfills, at any message, it has a cutting that is refused: byte by byte up to the last byte of
  // that message, and then the largest chunk.
  lemma RejectionBoundIsTight(ms: seq<Message>, k: nat, chunkSize: nat, lim: Limits) returns (chunks: seq<seq<Byte>>)
    requires AllAdmissible(ms, lim) && 0 < chunkSize
    requires k < |ms| && Overfills(ms, k, chunkSize, lim)
    ensures Refuses(chunks, ms, chunkSize, lim)
  {
    assert ms[k..][0..] == ms[k..];
    hide Poll, ParseStream, Admissible, Deliver, Raws, Singles;
    var done, ahead := Flatten(Raws(ms[..k])), Flatten(Raws(ms[k..]));
    var some, last := RefusedAtFirst(ms[k..], chunkSize, lim);
    SinglesDeliverAll(ms[..k], lim);
    var tail := Singles(some) + [last];
    DeliverInTwo([], Singles(done), tail, lim);
    chunks := Singles(done) + tail;
    FlattenRawsInTwo(ms, k);
    FlattenCutting(done, some, last, ahead);
  }

  // Exactly when a well-formed stream can be refused: for chunks of at most C bytes, some cutting of a beginning of it
  // is refused if and only if it overfills at one of its messages.
  lemma RefusedExactlyWhenOverfilled(ms: seq<Message>, chunkSize: nat, lim: Limits)
    requires AllAdmissible(ms, lim) && 0 < chunkSize
    ensures (exists chunks :: Refuses(chunks, ms, chunkSize, lim))
            <==> (exists k :: 0 <= k < |ms| && Overfills(ms, k, chunkSize, lim))
  {
    hide Overfills;
    if NeverOverfills(ms, chunkSize, lim) {
      UnfinishedNothing(ms, lim);
      forall chunks: seq<seq<Byte>>
        ensures !Refuses(chunks, ms, chunkSize, lim)
      {
        if Refuses(chunks, ms, chunkSize, lim) {
          assert [] + Flatten(chunks) == Flatten(chunks);
          var k := NoRefusal([], chunks, ms, chunkSize, lim);
          assert false;
        }
      }
    } else {
      var k :| 0 <= k < |ms| && Overfills(ms, k, chunkSize, lim);
      var chunks := RejectionBoundIsTight(ms, k, chunkSize, lim);
    }
  }

  // ----- Round trip -----

  predicate Encodable(item: RawMessage)
  {
    item.EncodeError().None? && |item.HeaderBytes()| < 0x1_0000_0000
  }

  // The receiver's limits admit the item; the sender does not check a receiver's header limit.
  predicate Receivable(item: RawMessage, lim: Limits)
  {
    && Encodable(item)
    && |item.HeaderBytes()| <= lim.HeaderCap()
    && |item.Frame()| <= lim.maxMessage
  }

  const DEFAULT_LIMITS: Limits := Limits(DEFAULT_MAX_MESSAGE_SIZE, DEFAULT_MAX_HEADER_SIZE)

  // What to_bytes accepts is exactly what a receiver with default limits admits, for every header its length field can
  // hold.
  lemma EncodableExactlyWhenReceivable(item: RawMessage)
    requires !item.header.Unserializable? && |item.HeaderBytes()| < 0x1_0000_0000
    ensures Encodable(item) <==> Admissible(Message(item.BaseHeaderFor(), item.Frame()), DEFAULT_LIMITS)
    ensures Encodable(item) <==> Receivable(item, DEFAULT_LIMITS)
  {
    hide PrintBaseHeader, FromBytes;
    if item.EncodeError().None? {
      MessageRoundTrip(item);
    }
  }

  function Sent(item: RawMessage): Message
    requires Encodable(item)
  {
    Message(item.BaseHeaderFor(), item.Frame())
  }

  predicate AllEncodable(items: seq<RawMessage>)
  {
    forall i | 0 <= i < |items| :: Encodable(items[i])
  }

  predicate AllReceivable(items: seq<RawMessage>, lim: Limits)
  {
    AllEncodable(items) && forall i | 0 <= i < |items| :: Receivable(items[i], lim)
  }

  function SentAll(items: seq<RawMessage>): (ms: seq<Message>)
    requires AllEncodable(items)
    ensures |ms| == |items|
  {
    seq(|items|, i requires 0 <= i < |items| => Sent(items[i]))
  }

  predicate AllCarry(ms: seq<Message>, items: seq<RawMessage>)
    requires AllEncodable(items)
  {
    |ms| == |items| && forall i | 0 <= i < |items| :: Carries(ms[i], items[i])
  }

  lemma SentIsAdmissible(item: RawMessage, lim: Limits)
    requires Encodable(item)
    ensures Carries(Sent(item), item)
    ensures Admissible(Sent(item), lim) <==> Receivable(item, lim)
  {
    MessageRoundTrip(item);
  }

  lemma SentAllAdmissible(items: seq<RawMessage>, lim: Limits)
    requires AllReceivable(items, lim)
    ensures AllAdmissible(SentAll(items), lim)
    ensures AllCarry(SentAll(items), items)
  {
    hide Admissible, Receivable, Carries, Sent;
    forall i | 0 <= i < |items|
      ensures Carries(SentAll(items)[i], items[i]) && Admissible(SentAll(items)[i], lim)
    {
      SentIsAdmissible(items[i], lim);
    }
  }

  // Messages encoded back to back and delivered in any cutting whose chunks are accepted decode to exactly the
  // messages sent, with their type, client id, header bytes and payload bytes, and leave an empty buffer.
  lemma EndToEnd(items: seq<RawMessage>, chunks: seq<seq<Byte>>, lim: Limits)
    requires AllReceivable(items, lim)
    requires Flatten(chunks) == Flatten(Raws(SentAll(items)))
    requires !Deliver([], chunks, lim).outcome.PushRejected?
    ensures Deliver([], chunks, lim) == Delivered(SentAll(items), Drained, [], [])
    ensures AllCarry(SentAll(items), items)
  {
    hide Poll, Admissible, Receivable, Encodable, AllCarry, SentAll, Deliver;
    SentAllAdmissible(items, lim);
    WholeDelivery(SentAll(items), chunks, lim);
  }

  // With chunks of at most C bytes and M - 1 + C within the limit no acceptance has to be assumed.
  lemma EndToEndBySize(items: seq<RawMessage>, chunks: seq<seq<Byte>>, messageSize: nat, chunkSize: nat, lim: Limits)
    requires AllReceivable(items, lim)
    requires Flatten(chunks) == Flatten(Raws(SentAll(items)))
    requires 0 < messageSize && messageSize - 1 + chunkSize <= lim.maxMessage
    requires SizesWithin(SentAll(items), chunks, messageSize, chunkSize)
    ensures Deliver([], chunks, lim) == Delivered(SentAll(items), Drained, [], [])
    ensures AllCarry(SentAll(items), items)
  {
    hide Poll, Receivable, Encodable, AllCarry, SentAll, Deliver, SizesWithin;
    SentAllAdmissible(items, lim);
    var ms := SentAll(items);
    if ms != [] {
      assert Admissible(ms[0], lim);
      assert |ms[0].raw| >= BASE_HEADER_SIZE;
    }
    hide Admissible;
    assert [] + Flatten(chunks) == Flatten(chunks);
    var k := NoSpuriousRejection([], chunks, ms, messageSize, chunkSize, lim);
    EndToEnd(items, chunks, lim);
  }

  // A receiver whose limits do not admit an item never delivers it, nor anything behind it.
  lemma ReceiverLimitIsNecessary(item: RawMessage, tail: seq<Byte>, lim: Limits)
    requires Encodable(item)
    ensures (ParseStream(item.Frame() + tail, lim).messages != [] &&
             ParseStream(item.Frame() + tail, lim).messages[0] == Sent(item)) <==> Receivable(item, lim)
    ensures !Receivable(item, lim) ==>
              && ParseStream(item.Frame() + tail, lim).messages == []
              && ParseStream(item.Frame() + tail, lim).ending.Failed?
  {
    SentIsAdmissible(item, lim);
    var s := item.Frame() + tail;
    if Receivable(item, lim) {
      PollFindsMessage(Sent(item), tail, lim);
    } else {
      MessageRoundTrip(item);
      BaseHeaderPrefix(item.Frame());
      assert s[..BASE_HEADER_SIZE] == item.Frame()[..BASE_HEADER_SIZE];
    }
  }
}
