// The protocol's value types (crates/protocol/src/types.rs, errors.rs, lib.rs).
module Types {
  import opened Bytes

  const PROTOCOL_VERSION: Byte := 1
  const BASE_HEADER_SIZE: nat := 34
  const RESERVED_SIZE: nat := 16
  const DEFAULT_MAX_MESSAGE_SIZE: Usize := 1024 * 1024 * 1024
  const DEFAULT_MAX_HEADER_SIZE: Usize := 64 * 1024

  type ClientId = U32
  type Reserved = s: seq<Byte> | |s| == 16 witness seq(16, _ => 0)

  datatype MessageType =
    | Join | Request | Response | Notification | Broadcast | Publish | Subscribe | Unsubscribe
  {
    static function FromU8(value: Byte): Option<MessageType>
    {
      match value
      case 0 => Some(Join)
      case 1 => Some(Request)
      case 2 => Some(Response)
      case 3 => Some(Notification)
      case 4 => Some(Broadcast)
      case 5 => Some(Publish)
      case 6 => Some(Subscribe)
      case 7 => Some(Unsubscribe)
      case _ => None
    }

    function ToU8(): Byte
    {
      match this
      case Join => 0
      case Request => 1
      case Response => 2
      case Notification => 3
      case Broadcast => 4
      case Publish => 5
      case Subscribe => 6
      case Unsubscribe => 7
    }
  }

  datatype BaseHeader = BaseHeader(
    version: Byte,
    messageType: MessageType,
    clientId: ClientId,
    reserved: Reserved,
    headerLength: U32,
    payloadLength: U64)
  {
    // The three parts added up without a width limit.
    function ExactSize(): nat
    {
      BASE_HEADER_SIZE + headerLength + payloadLength
    }

    // total_message_size: the same sum in u64 arithmetic, wrapping as an optimised build does.
    function TotalMessageSize(): U64
    {
      WrapU64(ExactSize())
    }

    predicate Overflows()
    {
      ExactSize() >= 0x1_0000_0000_0000_0000
    }

    static function New(messageType: MessageType, clientId: ClientId, headerLength: U32, payloadLength: U64): BaseHeader
    {
      BaseHeader(PROTOCOL_VERSION, messageType, clientId, seq(16, _ => 0), headerLength, payloadLength)
    }
  }

  // Header contents, used by validation and create_response.
  datatype Routing = Routing(clientName: string, path: string, clientId: Option<ClientId>)
  datatype RequestResponseType = RequestId | Correlation
  datatype RequestResponse = RequestResponse(reqType: RequestResponseType, id: string)
  datatype AuthType = TokenAuth | BasicAuth | ApiKeyAuth
  datatype AuthCredentials =
    | Token(token: string)
    | Basic(username: string, password: string)
    | ApiKey(apiKey: string)
  datatype Auth = Auth(authType: AuthType, credentials: AuthCredentials)
  type StatusCode = x: int | 0 <= x < 0x1_0000

  // The values of the additional fields are MessagePack and stay opaque bytes.
  datatype Header = Header(
    routing: Option<seq<Routing>>,
    reqrep: Option<RequestResponse>,
    topic: Option<string>,
    status: Option<StatusCode>,
    auth: Option<Auth>,
    clientName: Option<string>,
    additional: map<string, seq<Byte>>)
  {
    static function New(): Header
    {
      Header(None, None, None, None, None, None, map[])
    }
  }

  datatype HeaderField = RoutingField | ReqrepField | TopicField | StatusField | AuthField | ClientNameField
  {
    predicate IsPresentIn(h: Header)
    {
      match this
      case RoutingField => h.routing.Some?
      case ReqrepField => h.reqrep.Some?
      case TopicField => h.topic.Some?
      case StatusField => h.status.Some?
      case AuthField => h.auth.Some?
      case ClientNameField => h.clientName.Some?
    }
  }

  // Errors carry their numbers; message texts are not modelled.
  datatype ProtocolError =
    | InvalidVersion(expected: Byte, actual: Byte)
    | UnknownMessageType(value: Byte)
    | InvalidFormat
    | MessageTooLarge(size: nat, max: nat)
    | HeaderTooLarge(size: nat, max: nat)
    | MissingRequiredField(field: HeaderField, messageType: MessageType)
    | ForbiddenField(field: HeaderField, messageType: MessageType)
    | MessagePackSerialization
    | MessagePackDeserialization
    | IncompleteData(needed: nat, available: nat)
    | ParseError
    | InvalidRouting

  datatype Result<+T> = Ok(value: T) | Err(error: ProtocolError)

  // A code names a type exactly when it is that type's code.
  lemma TypeCodes(value: Byte, t: MessageType)
    ensures MessageType.FromU8(value) == Some(t) <==> value == t.ToU8()
    ensures MessageType.FromU8(value).Some? <==> value < 8
  {
  }
}
