# Verified model of the fleximq wire protocol, channel rendezvous and connection tracker

This project models three parts of the Rust implementation of fleximq and proves what they promise.

1. **Streaming framing** (`Bytes`, `Types`, `Wire`, `Stream`, `Parser`, `Delivery`, `Codec`). A message is a
   34-byte base header with big-endian fields, a header section and a payload section. `MessageParser` collects
   chunks in a buffer and cuts messages off its front; `MessageCodec` wraps it. The central object is
   `Stream.ParseStream`, one pass over a whole stream. Every schedule of pushes and polls, every cutting into chunks
   and the imperative classes are proved to agree with it, and what was encoded is proved to be what is decoded.
2. **Validation and replies** (`Validation`). The required and forbidden field lists are proved to be one table of
   types and fields, and every valid request to have a valid, correlated reply.
3. **Channel rendezvous** (`Rendezvous`). A connect is two separate steps on a shared registry. The model is a
   transition system with any number of callers and names; conservation, counting, the bound on waiters and the
   hand-out order hold under every interleaving.
4. **Connection tracker** (`Tracker`). The least-recently-used list of URLs is proved to be a window on an unbounded
   history, sorted by time, with exact cleanup and exact success counts.

## Conventions

- Integers keep the width the code gives them. `total_message_size` is a u64 sum without a check, and wraps as in an
  optimised build (a build with overflow checks panics there instead); `as u32` keeps the low 32 bits; `usize` has 64
  bits. A buffer holds at most `isize::MAX` bytes, so sums of two buffer lengths do not wrap.
- `Bytes::slice` panics on a range outside the buffer; the model returns `None` there.
- MessagePack, URL parsing and the clock are parameters: a serialised or decoded header or payload, or the error
  instead of it; the parsed URL; the instant of each step.
- The Tokio read loop is an explicit driver: decode the chunk, then decode an empty buffer until nothing comes out, and
  stop at the first error.
- `lru::LruCache` is a list with the most recent entry in front: `put` adds in front and evicts at the back, `get_mut`
  promotes, `peek` and `iter` do not.

## What the code does that its comments do not say

- A first byte that is not the version, or a second one that is no message type, makes `try_parse` answer "wait for
  more data" for ever (`Stream.StuckForever`); only `clear` helps. Any other buffer can still be answered
  (`Stream.HopelessExactly`).
- The limit checked by `push_data` is on the whole buffer, not on one message, so a stream of messages that all fit
  can be refused. `Delivery.RefusedExactlyWhenOverfilled` says exactly for which streams and chunk sizes.
- `parse_all` drops the messages it has already cut off when a later one fails (`Stream.PassCanDropAMessage`).
  `Stream.PassReturnsAllExactly` says exactly on which buffers bytes go missing.
- `try_parse` casts its header limit to 32 bits, so a parser given a limit of 2^32 or more can refuse headers within it
  (`Stream.HeaderLimitHoldsExactly`), and `to_bytes` casts the header length before it checks it
  (`Wire.RawMessage.LimitsHoldExactly`).
- With a wrapping size sum `from_bytes` and `parse_message_bytes` disagree, sections cannot be sliced and
  `try_parse` can lose bytes. The lemmas give the exact conditions and an input for each.
- Overlapping `connect` calls on one name can all end up waiting (`Rendezvous.OverlappingConnectsCanAllWait`). Callers
  are paired two by two exactly as long as every push finds the queue empty, which `connect` saw at its lookup and does
  not check again (`Rendezvous.AlternatesExactly`). That cannot fail while no two callers of the name are between lookup
  and push at once; when two are, it can (`Rendezvous.RaceBreaksAlternation`) but need not
  (`Rendezvous.RaceCanBeHarmless`).
- `create_response` does not validate the request, so a request with two routes gets an invalid reply
  (`Validation.ReplyConformsIffSingleRoute`).
- `crates/protocol/README.md` lists PING and PONG; the code has neither, and the model follows the code.

## Model

| member | source | states |
|---|---|---|
| `Wire.BaseHeaderRoundTrip` | crates/protocol/src/parser.rs:28-68 | parsing a printed base header, whatever follows it, gives the header back, through the 4- and 8-byte big-endian fields |
| `Wire.BaseHeaderReprint` | crates/protocol/src/parser.rs:38-68 | printing a parsed base header gives back the 34 bytes it was read from, reserved bytes included |
| `Wire.BaseHeaderLayout` | crates/protocol/src/parser.rs:38-68 | the 34 bytes one by one: version 1, a type code below 8, client id, 16 reserved bytes, header length and payload length, each number given by the weights of its bytes; these are exactly the inputs that parse |
| `Wire.PeekAgreesWithParse` | crates/protocol/src/parser.rs:412-436 | `peek_message_info` succeeds exactly when the base header parses, with the same type and client id, though it reads the id with its own arithmetic |
| `Wire.PeekBlamesTheFirstFault` | crates/protocol/src/parser.rs:412-436 | a rejection gives the length of an input below 34 bytes, else a version other than 1, else a type code of 8 or more |
| `Wire.FromBytesBlamesTheFirstFault` | crates/protocol/src/message.rs:51-78 | `from_bytes` rejects an input shorter than 34 bytes, then a front that is no base header, then a length other than the wrapped size sum, each with its numbers, and otherwise keeps the input |
| `Wire.SectionsPartition` | crates/protocol/src/message.rs:193-212 | a message accepted by `from_bytes` has readable header and payload sections exactly when its u64 size sum does not wrap; then base header, header and payload are the whole input |
| `Wire.WholeMessageParsersAgree` | crates/protocol/src/parser.rs:80-134 | `parse_message_bytes` accepts exactly the inputs `from_bytes` accepts without a wrapping size sum, with the same base header and sections |
| `Wire.WholeMessageParsersDisagree` | crates/protocol/src/message.rs:51-78 | a 34-byte input that `from_bytes` accepts and `parse_message_bytes` rejects, and whose header section cannot be sliced |
| `Wire.RawMessage.ToBytes` | crates/protocol/src/message.rs:341-395 | the buffer filled step by step is the printed base header, header and payload; for headers below 2^32 bytes it succeeds exactly up to 65 536 header bytes and 1 073 741 824 bytes in all, and otherwise reports the actual size and the limit it broke, the header first |
| `Wire.RawMessage.EncodeErrorExactly` | crates/protocol/src/message.rs:341-367 | which error, with which numbers, belongs to which lengths, for every header, the length field holding it modulo 2^32 |
| `Wire.RawMessage.LimitsHoldExactly` | crates/protocol/src/message.rs:349-367 | the checks admit exactly the messages within 64 KiB of header and 1 GiB in all, unless the header has 2^32 bytes or more and its cast length passes them |
| `Wire.FrameLayout` | crates/protocol/src/message.rs:369-395 | what stands at which byte of a frame: version, type code, client id, zero reserved bytes, the two lengths, header and payload |
| `Wire.MessageRoundTrip` | crates/protocol/src/message.rs:341-395 | an encoded message parses back, with type, client id, header bytes and payload bytes, exactly when the header is shorter than 2^32 bytes, the range of the cast length field |
| `Wire.OversizedHeaderIsMisprinted` | crates/protocol/src/message.rs:349-358 | a 2^32-byte header passes the size checks and prints a message that does not parse |
| `Stream.PollEmits` | crates/protocol/src/parser.rs:196-233 | every message cut out is admissible under the limits, stood at the front of the buffer, and is the only thing removed |
| `Stream.PollFindsMessage` | crates/protocol/src/parser.rs:196-233 | an admissible message at the front of the buffer is always cut out, whatever follows it |
| `Stream.MessagesArePrefixFree` | crates/protocol/src/parser.rs:196-233 | at most one admissible message stands at the front of a buffer |
| `Stream.WaitingCompletes` | crates/protocol/src/parser.rs:224-232 | behind a valid base header, any bytes that bring a waiting buffer to the announced size complete a message |
| `Stream.InnerParseFails` | crates/protocol/src/parser.rs:229-230 | `from_bytes` fails inside `try_parse` exactly on headers whose size sum wraps below 34 |
| `Stream.PollConserves` | crates/protocol/src/parser.rs:228-232 | one `try_parse` loses no byte unless the size sum wraps to a value strictly between 0 and 34 |
| `Stream.PollFailsExactly` | crates/protocol/src/parser.rs:196-233 | one `try_parse` fails exactly on a valid base header over a limit or with a size sum below 34; a failure costs the bytes its error reports as available, and costs some exactly when the size sum wraps to a value strictly between 0 and 34 |
| `Stream.SizeErrorsExactly` | crates/protocol/src/parser.rs:207-222 | each error of `try_parse` comes with its own numbers; a size error exactly when its limit is broken, the header limit first |
| `Stream.HeaderLimitHoldsExactly` | crates/protocol/src/parser.rs:207-213 | for every buffer a header is refused exactly when it exceeds the limit the parser was given, if and only if that limit is below 2^32 or ends in 32 one bits |
| `Stream.PollCanLoseAByte` | crates/protocol/src/parser.rs:228-232 | a base header which, pushed to a new parser and polled, costs one byte |
| `Stream.PollIsStable` | crates/protocol/src/parser.rs:196-233 | a message or an error is the same however many bytes have arrived behind it; the leftover gains exactly those bytes; size errors consume nothing |
| `Stream.ParseStreamFactors` | crates/protocol/src/parser.rs:266-274 | a pass over a stream splits it into admissible messages and a part where the next poll stops |
| `Stream.ParseStreamOfMessages` | crates/protocol/src/parser.rs:266-274 | admissible messages written in front of any bytes come back in order, before what those bytes parse to |
| `Stream.ParseStreamInTwo` | crates/protocol/src/parser.rs:173-233 | parsing a stream in two goes, keeping the leftover, is parsing it in one |
| `Stream.PassLosesExactly` | crates/protocol/src/parser.rs:266-274 | a pass loses bytes exactly when its stream has a header that loses some behind admissible messages |
| `Stream.PassReturnsAllExactly` | crates/protocol/src/parser.rs:266-274 | what `parse_all` returns and what it leaves are all the bytes it had exactly when the buffer holds neither a header that fails behind at least one admissible message nor, behind any number of them, one that loses bytes |
| `Stream.PassCanDropAMessage` | crates/protocol/src/parser.rs:266-274 | a message and a header over the limit, pushed to a new parser: the pass fails, and the message is neither returned nor left |
| `Stream.ScheduleDoesNotMatter` | crates/protocol/src/parser.rs:173-233 | in a run of pushes and polls in any order, refused pushes and errors included, the emitted messages followed by what the buffer parses to are one pass over all accepted input exactly when no poll of the run meets a header that loses bytes |
| `Stream.FirstErrorIsTheStreams` | crates/protocol/src/parser.rs:196-233 | after a run that has lost no bytes, the error the next poll reports is the one a single pass stops at, after the same messages, whatever arrives later |
| `Stream.BytesAreConserved` | crates/protocol/src/parser.rs:173-233 | in a run without `clear`, refused pushes and size errors included, the raw bytes of the emitted messages followed by the buffer are all accepted input exactly when no poll of the run meets a header whose size sum wraps to a value strictly between 0 and 34; otherwise bytes are missing |
| `Stream.ErrorsReportTheLoss` | crates/protocol/src/parser.rs:173-233 | in a run without `clear` the bytes that are neither emitted nor in the buffer are as many as its errors report |
| `Stream.LossIsReported` | crates/protocol/src/parser.rs:228-232 | a run that has lost bytes has reported an error |
| `Stream.BufferStaysWithinLimit` | crates/protocol/src/parser.rs:173-184 | no reachable buffer exceeds the message limit |
| `Stream.StuckForever` | crates/protocol/src/parser.rs:202-205 | once the first byte of the buffer is not the version or the second is no message type, every later mix of pushes and polls emits nothing, reports nothing and keeps those bytes |
| `Stream.HopelessExactly` | crates/protocol/src/parser.rs:196-205 | those are exactly the buffers for which no bytes that fit behind them make `try_parse` answer; from 34 bytes on, exactly the ones without a valid base header |
| `Parser.MessageParser.PushData` | crates/protocol/src/parser.rs:173-184 | a push is accepted exactly when the whole buffer stays within the limit; a refused push changes nothing |
| `Parser.MessageParser.TryParse` | crates/protocol/src/parser.rs:196-233 | the method on the mutable buffer refines the function all stream results are about; with a header limit below 2^32 it refuses exactly the headers above that limit |
| `Parser.MessageParser.Clear` | crates/protocol/src/parser.rs:242-244 | the buffer becomes empty |
| `Parser.MessageParser.ParseAll` | crates/protocol/src/parser.rs:266-274 | the loop terminates and parses the buffered stream to its end: on success the old buffer is the messages followed by a leftover that yields nothing; what is returned and left is the old buffer exactly when that does not hold a header that fails behind a message, or one that loses bytes |
| `Parser.Execute` | crates/protocol/src/parser.rs:151-275 | any schedule of calls on a new parser goes through the states the run results are about |
| `Delivery.DeliveryFollowsStream` | crates/protocol/src/codec.rs:58-75 | at every point of a chunked delivery, messages so far, leftover and unread chunks add up to one pass over the whole stream |
| `Delivery.DeliveryAccountsForBytes` | crates/protocol/src/codec.rs:58-75 | however a delivery ends, every byte is in a message, in the leftover, in an unread chunk, or among the ones a parse error has cost, whose number the error reports |
| `Delivery.AcceptedDeliveryIsTheStream` | crates/protocol/src/codec.rs:58-75 | a delivery with no refused chunk has the messages, the ending and the leftover of one pass over the stream |
| `Delivery.DeliveryLosesExactly` | crates/protocol/src/codec.rs:58-75 | a delivery with no refused chunk loses bytes exactly when its stream has a header that loses some behind admissible messages |
| `Delivery.FragmentationDoesNotMatter` | crates/protocol/src/parser.rs:173-233 | two cuttings of the same stream, both accepted, give the same messages, the same ending and, with no error, the same leftover |
| `Delivery.DeliveredMessagesArePrefix` | crates/protocol/src/codec.rs:58-75 | a delivery stopped by a refused chunk has delivered the first messages of the stream |
| `Delivery.BeginningOfStream` | crates/protocol/src/parser.rs:196-233 | any beginning of a well-formed stream parses to its complete messages and a leftover shorter than the next |
| `Delivery.RefusedExactlyWhenFull` | crates/protocol/src/codec.rs:58-71 | a chunk is refused exactly when it does not fit behind what the buffer holds; the error gives the size of the chunk if that alone is too large, and the sum otherwise |
| `Delivery.NoRefusal` | crates/protocol/src/parser.rs:175-180 | no chunk of a well-formed stream is refused when at no message both its size - 1 + C and the bytes from it on exceed the limit, and every drained leftover is shorter than the message it begins |
| `Delivery.NoSpuriousRejection` | crates/protocol/src/parser.rs:175-180 | in particular none is refused with messages of at most M bytes, chunks of at most C bytes and M - 1 + C within the limit |
| `Delivery.RejectionBoundIsTight` | crates/protocol/src/parser.rs:175-180 | where all but one byte of some message and a largest chunk exceed the limit, and the stream has more bytes than the limit from that message on, a cutting into chunks of at most C bytes is refused |
| `Delivery.RefusedExactlyWhenOverfilled` | crates/protocol/src/parser.rs:175-180 | for every well-formed stream and chunk size C, some cutting of a beginning of the stream into chunks of at most C bytes is refused if and only if some message k has min(its size - 1 + C, the bytes from it on) above the limit |
| `Delivery.EndToEnd` | crates/protocol/src/codec.rs:54-97 | messages encoded back to back and delivered in any accepted cutting decode to exactly those messages and leave an empty buffer |
| `Delivery.EndToEndBySize` | crates/protocol/src/codec.rs:54-97 | the same from sizes alone, with no acceptance assumed |
| `Delivery.EncodableExactlyWhenReceivable` | crates/protocol/src/message.rs:349-367 | for headers below 2^32 bytes, `to_bytes` accepts exactly the messages that are admissible under the default limits of a receiver |
| `Delivery.ReceiverLimitIsNecessary` | crates/protocol/src/parser.rs:207-222 | a receiver delivers an encoded message exactly when its own limits admit it; otherwise it stops there |
| `Codec.MessageCodec.Decode` | crates/protocol/src/codec.rs:58-75 | a refused chunk stays in `src` and changes nothing; any other is taken over whole before one poll; it is refused exactly when it does not fit behind the buffer |
| `Codec.MessageCodec.EncodeRaw` | crates/protocol/src/codec.rs:81-96 | succeeds exactly for an encodable message whose frame fits the limit, and then the frame is appended; otherwise the error is that of `to_bytes`, or else the size of the frame, and `dst` is unchanged |
| `Codec.MessageCodec.EncodeMessage` | crates/protocol/src/codec.rs:102-117 | the raw bytes are appended exactly when they fit the frame limit |
| `Codec.ReceiveChunk` | crates/protocol/src/codec.rs:58-75 | decoding a chunk and then an empty buffer until nothing comes out terminates and is one pass over buffer and chunk |
| `Codec.Receive` | crates/protocol/src/codec.rs:58-75 | driving the codec over a list of chunks is the delivery all delivery results are about |
| `Codec.Send` | crates/protocol/src/codec.rs:78-97 | encoding a list appends the frames up to the first message that cannot be encoded or does not fit, and reports that error |
| `Codec.Forward` | crates/protocol/src/codec.rs:99-118 | re-encoding received messages appends their raw bytes up to the first that does not fit, and reports that error |
| `Codec.SentUpToTheFirstError` | crates/protocol/src/codec.rs:81-96 | for every list, what is written is the frames in front of the first item that cannot be encoded or does not fit, and the error reported is that item's own |
| `Codec.SentWhole` | crates/protocol/src/codec.rs:81-96 | a list is sent without error exactly when every item can be encoded and fits the sender's limit; with headers below 2^32 bytes what is then written is what the receiver is to read |
| `Codec.DefaultLimitsAdmitAllSent` | crates/protocol/src/codec.rs:81-96 | a receiver with default limits admits whatever any sender writes, headers of 2^32 bytes or more aside |
| `Codec.ForwardedWhole` | crates/protocol/src/codec.rs:102-117 | messages received under a limit no larger than the frame size are forwarded without error, as the bytes they came in |
| `Codec.Relay` | crates/protocol/src/codec.rs:99-118 | however the delivery ends, decoding and re-encoding writes a beginning of the stream, and what is written, the leftover and the unread chunks are the whole stream exactly when a parse error has cost no bytes; with no refused chunk, exactly when the stream has no header that loses bytes behind admissible messages |
| `Codec.Transfer` | crates/protocol/src/codec.rs:54-97 | from codec to codec, for every list and cutting: what was written before the first error is what is received, and nothing is left over, if the receiver's limits admit it; default limits always do, headers of 2^32 bytes or more aside |
| `Validation.ListsAreTheRule` | crates/protocol/src/parser.rs:304-339 | the required and forbidden lists of each type are the cells of one table of types and fields |
| `Validation.ListsAreInOrder` | crates/protocol/src/parser.rs:304-339 | each list names its fields in the order of their declaration |
| `Validation.ConformingHeaders` | crates/protocol/src/parser.rs:304-393 | what each message type must and must not carry, type by type, a Response with exactly one route and a client id in it |
| `Validation.ValidateMessageStructure` | crates/protocol/src/parser.rs:292-396 | accepts exactly the headers that keep the table and the routing rule; a rejection names the first missing field in declaration order, else the first forbidden one, else the routing |
| `Validation.CreateResponse` | crates/protocol/src/message.rs:241-288 | succeeds exactly for a request with correlation and a route, and the reply correlates and routes back; each failure has its own error |
| `Validation.OneReplyAnswers` | crates/protocol/src/message.rs:260-288 | the reply header is determined: the request's routes with the requester in the first, its id as a Correlation, the given status, nothing else |
| `Validation.ReplyConformsIffSingleRoute` | crates/protocol/src/message.rs:260-288 | a reply passes validation exactly when the request had a single route |
| `Validation.ValidRequestsGetValidReplies` | crates/protocol/src/message.rs:241-288 | every valid request can be answered, and its reply is a valid Response with the same id as a Correlation and the given status, routed to the requester alone under the name and path of the request |
| `Rendezvous.ChannelRegistry.PopWaiting` | crates/transport/src/channel.rs:155-159 | the first locked step takes the oldest waiting endpoint of the name, if any |
| `Rendezvous.ChannelRegistry.CreateAndPark` | crates/transport/src/channel.rs:162-166 | the second locked step queues one half of a new duplex and keeps the other |
| `Rendezvous.ChannelRegistry.Connect` | crates/transport/src/channel.rs:139-167 | uninterrupted, a connect succeeds exactly for scheme `chan` with a non-empty host, and takes the oldest endpoint waiting under that host or leaves one; another scheme is unsupported, anything else invalid, and both change nothing |
| `Rendezvous.Execute` | crates/transport/src/channel.rs:139-167 | the registry driven through the steps of any run goes through the registries of its states and hands each caller what they say |
| `Rendezvous.CallersKeepTheirUrl` | crates/transport/src/channel.rs:139-167 | in every run each caller got where it is by a call of its own, under the host of that URL or with the error that URL deserves |
| `Rendezvous.NobodyIsNameless` | crates/transport/src/channel.rs:149-152 | no reachable state has a caller or a waiting endpoint under the empty name |
| `Rendezvous.RunsConserve` | crates/transport/src/channel.rs:155-166 | under every interleaving each duplex has one half with its creator and the other in exactly one place |
| `Rendezvous.EveryEndpointHasOneOwner` | crates/transport/src/channel.rs:155-166 | no endpoint has two owners, none is both held and queued, and the other end is waiting or with another caller of that name |
| `Rendezvous.CompletedIsTwicePairsPlusWaiting` | crates/transport/src/channel.rs:155-166 | on every name the completed connects are twice the pairs plus the waiting endpoints |
| `Rendezvous.MissesBoundWaiting` | crates/transport/src/channel.rs:155-164 | with at most K callers of a name between lookup and push, waiting endpoints and those callers never exceed K |
| `Rendezvous.WaitingIsBounded` | crates/transport/src/channel.rs:155-164 | in particular with at most K connects in flight on the name |
| `Rendezvous.HandOutIsFifo` | crates/transport/src/channel.rs:155-164 | under every interleaving endpoints are handed out in the order they were parked |
| `Rendezvous.AlternatesExactly` | crates/transport/src/channel.rs:154-166 | in every run the callers of a name are paired strictly two by two, in order, exactly when every push under the name found its queue empty |
| `Rendezvous.WithoutRaceConnectsAlternate` | crates/transport/src/channel.rs:3-8 | in particular as long as no two callers of a name are between lookup and push at once |
| `Rendezvous.RaceBreaksAlternation` | crates/transport/src/channel.rs:154-164 | every reachable state with two such callers can go on, by their two pushes, to a run that is not paired two by two |
| `Rendezvous.RaceCanBeHarmless` | crates/transport/src/channel.rs:154-164 | a run in which two callers of a name have both found nobody, and which is paired two by two all the same |
| `Rendezvous.SequentialConnectsAlternate` | crates/transport/src/channel.rs:3-8 | in particular with one connect in flight at a time, as the module promises |
| `Rendezvous.OverlappingConnectsCanAllWait` | crates/transport/src/channel.rs:154-164 | for every K, K overlapping connects on a name can all find nobody and all end up waiting: the bound is reached, and from two on the promised pairing fails |
| `Tracker.TransportManager.TrackConnectionAttempt` | crates/transport/src/manager.rs:193-208 | the method on the mutable list refines the attempt step, and keeps URLs unique and the size within capacity; what that step does to times, counts and order is stated by the lemmas on runs |
| `Tracker.TransportManager.TrackSuccessfulConnection` | crates/transport/src/manager.rs:211-218 | the method refines the success step |
| `Tracker.TransportManager.GetConnectionFrequency` | crates/transport/src/manager.rs:222-226 | reports the count of the entry, or nothing exactly when there is none |
| `Tracker.TransportManager.ClearCache` | crates/transport/src/manager.rs:236-240 | the list becomes empty |
| `Tracker.TransportManager.CacheStats` | crates/transport/src/manager.rs:244-265 | counts the entries, the capacity and the unexpired entries |
| `Tracker.TransportManager.CleanupExpiredEntries` | crates/transport/src/manager.rs:268-281 | collecting the expired URLs and popping them one by one leaves exactly the unexpired entries, in order |
| `Tracker.Execute` | crates/transport/src/manager.rs:193-281 | any list of calls on a new manager goes through the states the run results are about |
| `Tracker.RecencyIsTimeOrder` | crates/transport/src/manager.rs:193-218 | with a monotone clock every reachable list is sorted by time of use, newest first |
| `Tracker.ReplayKeepsShape` | crates/transport/src/manager.rs:193-218 | every reachable list has unique URLs and at most `capacity` entries |
| `Tracker.CleanupIsExact` | crates/transport/src/manager.rs:268-281 | cleanup cuts off exactly the expired suffix, and statistics at the same instant count every remaining entry as active |
| `Tracker.EvictionTakesTheOldest` | crates/transport/src/manager.rs:199-205 | an attempt drops another entry only from a full list, and one with the oldest time of use |
| `Tracker.RecentIsRecencyOrder` | crates/transport/src/manager.rs:193-218 | the unbounded history lists each touched URL in decreasing order of its last touch |
| `Tracker.ListIsRecentHistory` | crates/transport/src/manager.rs:193-218 | with no cleanup or clear, the tracked URLs in order are the first `capacity` distinct URLs by most recent touch |
| `Tracker.TrackedIffFewTouchedSince` | crates/transport/src/manager.rs:193-218 | a touched URL is tracked exactly while fewer than `capacity` distinct URLs have been touched since its last touch |
| `Tracker.LastUsedIsLastUse` | crates/transport/src/manager.rs:193-218 | in every run an entry carries the time of the last use of its URL: the last attempt, or success that found it |
| `Tracker.SurvivesCleanupExactly` | crates/transport/src/manager.rs:268-281 | a tracked URL survives a cleanup exactly when that comes before its last use plus the time to live, and never with a time to live of zero |
| `Tracker.TrackedAfterCleanupExactly` | crates/transport/src/manager.rs:193-281 | after attempts and successes and then a cleanup, a used URL is tracked exactly when its last use is recent enough and fewer than `capacity` distinct URLs have been touched since |
| `Tracker.CountIsSuccessesSinceInsertion` | crates/transport/src/manager.rs:193-218 | a present entry's count is the number of successes on its URL since the attempt that inserted it |
| `Tracker.CountIsAtMostAllSuccesses` | crates/transport/src/manager.rs:222-226 | no reported frequency exceeds the successes of the run |
| `Tracker.LeavesOnlyIfDropped` | crates/transport/src/manager.rs:193-281 | a step removes an entry exactly when it evicts it from a full list, cleans it up expired, or clears the list |
| `Tracker.LostSuccessHasACause` | crates/transport/src/manager.rs:211-218 | a success that finds no entry after an attempt on its URL was preceded, in between, by a step that removed the entry |
| `Tracker.LostExactlyWhenDropped` | crates/transport/src/manager.rs:211-218 | after the last attempt on a URL, its entry is absent, so that a success goes unrecorded, exactly when some step since then has dropped it |

## Left out

- MessagePack contents, `Message::header`, `Message::payload`, the `OnceCell` caches and `payload_as`: foreign decoding and type erasure.
- `MessageDecoder` and `MessageEncoder`: their bodies repeat those of `MessageCodec`.
- `MessageBuilder`, the `with_` setters, `is_size_valid`, status-code ranges, error texts: record updates and single comparisons.
- Behaviour after the first parse error of a delivery: the driver stops there; runs of the parser alone continue.
- Builds with overflow checks, which panic where the size sum wraps.
- Poisoned locks, which turn every tracker method into a no-op, and a `connection_count` beyond the range of `usize`.
- The transports' own connecting, the lookup of a transport for a URL, `is_frequently_accessed` and the float ratios of `CacheStats`.
- Duplex contents, `close`, and endpoints whose owner has gone before they are paired.
- TCP, IPC, WebSocket and STDIO transports and the peer handshake: I/O, and simpler framing than the codec's.
