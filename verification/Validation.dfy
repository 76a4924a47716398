// Which header fields a message type may carry, and replies to requests
// (crates/protocol/src/parser.rs, crates/protocol/src/message.rs).
module Validation {
  import opened Bytes
  import opened Types

  // ----- The rule, one cell for each type and field -----

  datatype Presence = Required | Forbidden | Free

  function Rule(t: MessageType, f: HeaderField): Presence
  {
    match f
    case RoutingField =>
      if t.Request? || t.Response? || t.Notification? then Required else Forbidden
    case ReqrepField =>
      if t.Request? || t.Response? then Required else Forbidden
    case TopicField =>
      if t.Publish? || t.Subscribe? || t.Unsubscribe? then Required else Forbidden
    case StatusField =>
      if t.Join? || t.Subscribe? || t.Unsubscribe? then Forbidden else Free
    case AuthField =>
      if t.Join? then Free else Forbidden
    case ClientNameField =>
      if t.Join? then Required else Free
  }

  predicate FieldConforms(t: MessageType, h: Header, f: HeaderField)
  {
    && (Rule(t, f) == Required ==> f.IsPresentIn(h))
    && (Rule(t, f) == Forbidden ==> !f.IsPresentIn(h))
  }

  predicate FieldsConform(t: MessageType, h: Header)
  {
    forall f: HeaderField :: FieldConforms(t, h, f)
  }

  predicate RoutingConforms(t: MessageType, h: Header)
  {
    h.routing.Some? ==>
      var routes := h.routing.value;
      match t
      case Request => |routes| == 1
      case Response => |routes| == 1 && routes[0].clientId.Some?
      case Notification => |routes| >= 1
      case _ => true
  }

  predicate Conforms(t: MessageType, h: Header)
  {
    FieldsConform(t, h) && RoutingConforms(t, h)
  }

  // What that comes to, type by type.
  lemma ConformingHeaders(t: MessageType, h: Header)
    ensures Conforms(t, h) <==>
              match t
              case Join =>
                h.clientName.Some? && h.routing.None? && h.reqrep.None? && h.topic.None? && h.status.None?
              case Request =>
                && h.routing.Some? && |h.routing.value| == 1 && h.reqrep.Some?
                && h.topic.None? && h.auth.None?
              case Response =>
                && h.routing.Some? && |h.routing.value| == 1 && h.routing.value[0].clientId.Some? && h.reqrep.Some?
                && h.topic.None? && h.auth.None?
              case Notification =>
                && h.routing.Some? && |h.routing.value| >= 1
                && h.reqrep.None? && h.topic.None? && h.auth.None?
              case Broadcast => h.routing.None? && h.reqrep.None? && h.topic.None? && h.auth.None?
              case Publish => h.topic.Some? && h.routing.None? && h.reqrep.None? && h.auth.None?
              case Subscribe =>
                h.topic.Some? && h.routing.None? && h.reqrep.None? && h.status.None? && h.auth.None?
              case Unsubscribe =>
                h.topic.Some? && h.routing.None? && h.reqrep.None? && h.status.None? && h.auth.None?
  {
    assert FieldsConform(t, h) <==>
             && FieldConforms(t, h, RoutingField) && FieldConforms(t, h, ReqrepField)
             && FieldConforms(t, h, TopicField) && FieldConforms(t, h, StatusField)
             && FieldConforms(t, h, AuthField) && FieldConforms(t, h, ClientNameField);
  }

  // ----- The check, as the two field lists and the routing cases -----

  function RequiredFields(t: MessageType): seq<HeaderField>
  {
    match t
    case Join => [ClientNameField]
    case Request | Response => [RoutingField, ReqrepField]
    case Notification => [RoutingField]
    case Broadcast => []
    case Publish => [TopicField]
    case Subscribe | Unsubscribe => [TopicField]
  }

  function ForbiddenFields(t: MessageType): seq<HeaderField>
  {
    match t
    case Join => [RoutingField, ReqrepField, TopicField, StatusField]
    case Request | Response => [TopicField, AuthField]
    case Notification => [ReqrepField, TopicField, AuthField]
    case Broadcast => [RoutingField, ReqrepField, TopicField, AuthField]
    case Publish => [RoutingField, ReqrepField, AuthField]
    case Subscribe | Unsubscribe => [RoutingField, ReqrepField, StatusField, AuthField]
  }

  // The order in which the fields are declared.
  function Rank(f: HeaderField): nat
  {
    match f
    case RoutingField => 0
    case ReqrepField => 1
    case TopicField => 2
    case StatusField => 3
    case AuthField => 4
    case ClientNameField => 5
  }

  predicate InOrder(fields: seq<HeaderField>)
  {
    forall i, j | 0 <= i < j < |fields| :: Rank(fields[i]) < Rank(fields[j])
  }

  // The two lists say the same as the table.
  lemma ListsAreTheRule(t: MessageType, f: HeaderField)
    ensures Rule(t, f) == Required <==> f in RequiredFields(t)
    ensures Rule(t, f) == Forbidden <==>
              f in ForbiddenFields(t)
  {
  }

  // And each is in the order of the fields.
  lemma ListsAreInOrder(t: MessageType)
    ensures InOrder(RequiredFields(t)) && InOrder(ForbiddenFields(t))
  {
  }

  // A required field is missing, and none declared before it is.
  predicate FirstMissing(t: MessageType, h: Header, f: HeaderField)
  {
    && Rule(t, f) == Required && !f.IsPresentIn(h)
    && forall g: HeaderField | Rule(t, g) == Required && Rank(g) < Rank(f) :: g.IsPresentIn(h)
  }

  // A forbidden field is there, and none declared before it is.
  predicate FirstUnwanted(t: MessageType, h: Header, f: HeaderField)
  {
    && Rule(t, f) == Forbidden && f.IsPresentIn(h)
    && forall g: HeaderField | Rule(t, g) == Forbidden && Rank(g) < Rank(f) :: !g.IsPresentIn(h)
  }

  predicate NothingMissing(t: MessageType, h: Header)
  {
    forall f: HeaderField | Rule(t, f) == Required :: f.IsPresentIn(h)
  }

  lemma AllRequiredPresent(t: MessageType, h: Header)
    requires forall i | 0 <= i < |RequiredFields(t)| :: RequiredFields(t)[i].IsPresentIn(h)
    ensures NothingMissing(t, h)
  {
    forall f: HeaderField | Rule(t, f) == Required
      ensures f.IsPresentIn(h)
    {
      ListsAreTheRule(t, f);
    }
  }

  lemma AllForbiddenAbsent(t: MessageType, h: Header)
    requires NothingMissing(t, h)
    requires forall i | 0 <= i < |ForbiddenFields(t)| :: !ForbiddenFields(t)[i].IsPresentIn(h)
    ensures FieldsConform(t, h)
  {
    forall f: HeaderField
      ensures FieldConforms(t, h, f)
    {
      ListsAreTheRule(t, f);
    }
  }

  lemma MissingAt(t: MessageType, h: Header, i: nat)
    requires i < |RequiredFields(t)| && !RequiredFields(t)[i].IsPresentIn(h)
    requires forall j | 0 <= j < i :: RequiredFields(t)[j].IsPresentIn(h)
    ensures FirstMissing(t, h, RequiredFields(t)[i]) && !FieldsConform(t, h)
  {
    var missing := RequiredFields(t)[i];
    ListsAreTheRule(t, missing);
    ListsAreInOrder(t);
    assert !FieldConforms(t, h, missing);
    hide Rule, RequiredFields, Rank;
    forall f: HeaderField | Rule(t, f) == Required && Rank(f) < Rank(missing)
      ensures f.IsPresentIn(h)
    {
      ListsAreTheRule(t, f);
    }
  }

  lemma UnwantedAt(t: MessageType, h: Header, i: nat)
    requires i < |ForbiddenFields(t)| && ForbiddenFields(t)[i].IsPresentIn(h)
    requires forall j | 0 <= j < i :: !ForbiddenFields(t)[j].IsPresentIn(h)
    ensures FirstUnwanted(t, h, ForbiddenFields(t)[i]) && !FieldsConform(t, h)
  {
    var unwanted := ForbiddenFields(t)[i];
    ListsAreTheRule(t, unwanted);
    ListsAreInOrder(t);
    assert !FieldConforms(t, h, unwanted);
    hide Rule, ForbiddenFields, Rank;
    forall f: HeaderField | Rule(t, f) == Forbidden && Rank(f) < Rank(unwanted)
      ensures !f.IsPresentIn(h)
    {
      ListsAreTheRule(t, f);
    }
  }

  // Accepts exactly the conforming headers; a rejection names the first field at fault, missing fields first,
  // and blames the routing only when every field is right.
  method ValidateMessageStructure(t: MessageType, h: Header) returns (r: Result<()>)
    ensures r.Ok? <==> Conforms(t, h)
    ensures r.Err? ==>
              match r.error
              case MissingRequiredField(f, t') => t' == t && FirstMissing(t, h, f)
              case ForbiddenField(f, t') =>
                t' == t && FirstUnwanted(t, h, f) && NothingMissing(t, h)
              case InvalidRouting => FieldsConform(t, h) && !RoutingConforms(t, h)
              case _ => false
  {
    hide FirstMissing, FirstUnwanted, NothingMissing, FieldsConform, RequiredFields, ForbiddenFields;
    hide HeaderField.IsPresentIn;
    var required := RequiredFields(t);
    for i := 0 to |required|
      invariant forall j | 0 <= j < i :: required[j].IsPresentIn(h)
    {
      if !required[i].IsPresentIn(h) {
        MissingAt(t, h, i);
        return Err(MissingRequiredField(required[i], t));
      }
    }
    AllRequiredPresent(t, h);
    var forbidden := ForbiddenFields(t);
    for i := 0 to |forbidden|
      invariant forall j | 0 <= j < i :: !forbidden[j].IsPresentIn(h)
    {
      if forbidden[i].IsPresentIn(h) {
        UnwantedAt(t, h, i);
        return Err(ForbiddenField(forbidden[i], t));
      }
    }
    AllForbiddenAbsent(t, h);
    if t == Request || t == Response {
      if h.routing.Some? {
        if |h.routing.value| != 1 {
          return Err(InvalidRouting);
        }
        if t == Response && h.routing.value[0].clientId.None? {
          return Err(InvalidRouting);
        }
      }
    } else if t == Notification {
      if h.routing.Some? && h.routing.value == [] {
        return Err(InvalidRouting);
      }
    }
    return Ok(());
  }

  // ----- Replies -----

  datatype Reply = Reply(messageType: MessageType, clientId: ClientId, header: Header, payloadData: seq<Byte>)

  // A request header with someone to answer and something to correlate with.
  predicate Answerable(h: Header)
  {
    h.reqrep.Some? && h.routing.Some? && h.routing.value != []
  }

  // The reply goes back along the request's routes, the first now naming the requester.
  predicate Answers(reply: Header, request: Header, requester: ClientId, status: Option<StatusCode>)
    requires Answerable(request)
  {
    && reply.reqrep == Some(RequestResponse(Correlation, request.reqrep.value.id))
    && reply.routing.Some?
    && |reply.routing.value| == |request.routing.value|
    && reply.routing.value[0] == request.routing.value[0].(clientId := Some(requester))
    && reply.routing.value[1..] == request.routing.value[1..]
    && reply.status == status
    && reply.topic.None? && reply.auth.None? && reply.clientName.None? && reply.additional == map[]
  }

  // create_response. The request's decoded header and the serialised payload come from MessagePack and are
  // parameters, each possibly an error.
  method CreateResponse(request: BaseHeader, header: Result<Header>, sender: ClientId,
    status: Option<StatusCode>, payload: Result<seq<Byte>>)
    returns (r: Result<Reply>)
    ensures r.Ok? <==> request.messageType == Request && header.Ok? && Answerable(header.value) && payload.Ok?
    ensures r.Ok? ==>
              && r.value.messageType == Response && r.value.clientId == sender
              && r.value.payloadData == payload.value
              && Answers(r.value.header, header.value, request.clientId, status)
    ensures r.Err? ==>
              r.error == if request.messageType != Request then InvalidFormat
                         else if header.Err? then header.error
                         else if !Answerable(header.value) then InvalidFormat
                         else payload.error
  {
    if request.messageType != Request {
      return Err(InvalidFormat);
    }
    if header.Err? {
      return Err(header.error);
    }
    if header.value.reqrep.None? {
      return Err(InvalidFormat);
    }
    if header.value.routing.None? {
      return Err(InvalidFormat);
    }
    var originalRouting := header.value.routing.value;
    if originalRouting == [] {
      return Err(InvalidFormat);
    }
    originalRouting := originalRouting[0 := originalRouting[0].(clientId := Some(request.clientId))];
    var responseHeader := Header.New();
    responseHeader := responseHeader.(reqrep := Some(RequestResponse(Correlation, header.value.reqrep.value.id)));
    responseHeader := responseHeader.(routing := Some(originalRouting));
    responseHeader := responseHeader.(status := status);
    if payload.Err? {
      return Err(payload.error);
    }
    return Ok(Reply(Response, sender, responseHeader, payload.value));
  }

  // That leaves one reply: the request's routes with the requester in the first, its id as a correlation, the status,
  // and nothing else.
  lemma OneReplyAnswers(reply: Header, request: Header, requester: ClientId, status: Option<StatusCode>)
    requires Answerable(request)
    ensures Answers(reply, request, requester, status) <==>
              reply == Header(
                Some(request.routing.value[0 := request.routing.value[0].(clientId := Some(requester))]),
                Some(RequestResponse(Correlation, request.reqrep.value.id)), None, status, None, None, map[])
  {
    var routes := request.routing.value;
    var answered := routes[0 := routes[0].(clientId := Some(requester))];
    assert answered[1..] == routes[1..];
    if Answers(reply, request, requester, status) {
      assert reply.routing.value == [reply.routing.value[0]] + reply.routing.value[1..];
      assert answered == [answered[0]] + answered[1..];
    }
  }

  // A reply passes validation exactly when the request had a single route.
  lemma ReplyConformsIffSingleRoute(reply: Header, request: Header, requester: ClientId, status: Option<StatusCode>)
    requires Answerable(request) && Answers(reply, request, requester, status)
    ensures Conforms(Response, reply) <==> |request.routing.value| == 1
  {
  }

  // So every request that passes validation can be answered, by a reply that passes validation as a Response,
  // correlates with the request and routes to the requester alone.
  lemma ValidRequestsGetValidReplies(request: Header, requester: ClientId)
    requires Conforms(Request, request)
    ensures Answerable(request)
    ensures forall reply: Header, status: Option<StatusCode> | Answers(reply, request, requester, status) ::
              && Conforms(Response, reply)
              && |reply.routing.value| == 1
              && reply.routing.value[0].clientId == Some(requester)
              && reply.routing.value[0].clientName == request.routing.value[0].clientName
              && reply.routing.value[0].path == request.routing.value[0].path
              && reply.reqrep == Some(RequestResponse(Correlation, request.reqrep.value.id))
              && reply.status == status
  {
    ConformingHeaders(Request, request);
    forall reply: Header, status: Option<StatusCode> | Answers(reply, request, requester, status)
      ensures Conforms(Response, reply)
    {
      ReplyConformsIffSingleRoute(reply, request, requester, status);
    }
  }

  // The request itself is not validated first: one with two routes is answered by an invalid reply.
  lemma TwoRoutesGiveAnInvalidReply(route: Routing, requester: ClientId, reply: Header, status: Option<StatusCode>)
    requires var id := RequestResponse(RequestId, "id");
             var request := Header.New().(routing := Some([route, route]), reqrep := Some(id));
             Answers(reply, request, requester, status)
    ensures !Conforms(Response, reply)
  {
  }
}
