/** The RpcMessage record as a value, and its wire format as the generated parser,
    serializer, size and merge code define it. */
module Message {
  import opened MachineInt
  import opened ByteOrder
  import opened Varint

  type MsgType = x: int | 1 <= x <= 3 witness 1
  type ErrorCode = x: int | 0 <= x <= 7
  type FieldNumber = x: int | 1 <= x < 0x2000_0000 witness 1

  const REQUEST: MsgType := 1
  const RESPONSE: MsgType := 2
  const NO_ERROR: ErrorCode := 0
  const INVALID_REQUEST: ErrorCode := 4
  const TIMEOUT: ErrorCode := 6
  const PENDING_LIMIT: ErrorCode := 7

  /** How deeply the parser lets groups nest. */
  const RECURSION_LIMIT := 100

  /** One record of the wire format, of any field. */
  datatype Record =
    | Varint(number: FieldNumber, value: uint64)
    | Fixed64(number: FieldNumber, value: uint64)
    | Bytes(number: FieldNumber, bytes: seq<byte>)
    | Group(number: FieldNumber, fields: seq<Record>)
    | Fixed32(number: FieldNumber, value32: uint32)
  {
    function WireType(): nat {
      match this
      case Varint(_, _) => 0
      case Fixed64(_, _) => 1
      case Bytes(_, _) => 2
      case Group(_, _) => 3
      case Fixed32(_, _) => 5
    }

    function Tag(): uint32 { 8 * number + WireType() }

    /** The tag that closes a group. */
    function EndTag(): uint32 { 8 * number + 4 }

    /** Not a record that the parser assigns to one of the seven fields, and in the
        form in which it keeps such records. */
    predicate Unknown() {
      match this
      case Varint(n, v) =>
        if n == 1 then !(1 <= ToInt32(v) <= 3) && ToUint64(ToInt32(v)) == v
        else if n == 7 then !(0 <= ToInt32(v) <= 7) && ToUint64(ToInt32(v)) == v
        else n !in {2, 3, 4}
      case Bytes(n, _) => n !in {5, 6}
      case _ => true
    }
  }

  /** Byte payloads have lengths that fit `int`, and groups nest no deeper than that. */
  predicate Readable(r: Record, depth: nat) {
    match r
    case Bytes(_, b) => |b| < TWO_31
    case Group(_, fields) => depth > 0 && AllReadable(fields, depth - 1)
    case _ => true
  }

  predicate AllReadable(rs: seq<Record>, depth: nat) {
    rs == [] || (Readable(rs[0], depth) && AllReadable(rs[1..], depth))
  }

  predicate Wellformed(r: Record) { Readable(r, RECURSION_LIMIT) }

  datatype Message = Message(
    msgType: Option<MsgType>, id: Option<int64>, serviceId: Option<uint32>, methodId: Option<uint32>,
    request: Option<seq<byte>>, response: Option<seq<byte>>, error: Option<ErrorCode>,
    unknown: seq<Record>)
  {
    function GetType(): MsgType { if msgType.Some? then msgType.value else 1 }
    function GetId(): int64 { if id.Some? then id.value else 0 }
    function GetServiceId(): uint32 { if serviceId.Some? then serviceId.value else 0 }
    function GetMethodId(): uint32 { if methodId.Some? then methodId.value else 0 }
    function GetRequest(): seq<byte> { if request.Some? then request.value else [] }
    function GetResponse(): seq<byte> { if response.Some? then response.value else [] }
    function GetError(): ErrorCode { if error.Some? then error.value else 0 }

    /** Byte fields have lengths that fit `int`. */
    predicate PayloadsFit() { |GetRequest()| < TWO_31 && |GetResponse()| < TWO_31 }

    /** Within what the wire format carries back. */
    predicate Encodable() {
      && PayloadsFit()
      && forall u :: u in unknown ==> u.Unknown() && Wellformed(u)
    }

    /** An enum value that is not valid is kept as an unknown record. */
    function WithType(value: int32): Message {
      if 1 <= value <= 3 then this.(msgType := Some(value))
      else this.(unknown := unknown + [Varint(1, ToUint64(value))])
    }

    function WithError(value: int32): Message {
      if 0 <= value <= 7 then this.(error := Some(value)) else this.(unknown := unknown + [Varint(7, ToUint64(value))])
    }

    function Merge(from: Message): Message {
      Message(Latest(msgType, from.msgType), Latest(id, from.id), Latest(serviceId, from.serviceId),
              Latest(methodId, from.methodId), Latest(request, from.request),
              Latest(response, from.response), Latest(error, from.error), unknown + from.unknown)
    }
  }

  const EMPTY := Message(None, None, None, None, None, None, None, [])

  function Latest<T>(earlier: Option<T>, recent: Option<T>): Option<T> {
    if recent.Some? then recent else earlier
  }

  // ---------- Serializing ----------

  /** Numbers are written as 64 bits, negative ones in two's complement. */
  function VarintOf(number: FieldNumber, value: Option<int>): seq<Record> {
    if value.Some? then [Varint(number, ToUint64(value.value))] else []
  }

  function BytesOf(number: FieldNumber, value: Option<seq<byte>>): seq<Record> {
    if value.Some? then [Bytes(number, value.value)] else []
  }

  /** The records of a message, in the order in which they are written. */
  function RecordsOf(m: Message): seq<Record> {
    VarintOf(1, m.msgType) + VarintOf(2, m.id) + VarintOf(3, m.serviceId) + VarintOf(4, m.methodId)
    + BytesOf(5, m.request) + BytesOf(6, m.response) + VarintOf(7, m.error) + m.unknown
  }

  function Body(r: Record): (s: seq<byte>)
    decreases r, 0
  {
    match r
    case Varint(_, v) => Encode(v)
    case Fixed64(_, v) => ToLittle(v, 8)
    case Bytes(_, b) => Encode(|b|) + b
    case Group(_, fields) => WireAll(fields) + Encode(r.EndTag())
    case Fixed32(_, v) => ToLittle(v, 4)
  }

  function Wire(r: Record): seq<byte>
    decreases r, 1
  {
    Encode(r.Tag()) + Body(r)
  }

  function WireAll(rs: seq<Record>): seq<byte>
    decreases rs, 2
  {
    if rs == [] then [] else Wire(rs[0]) + WireAll(rs[1..])
  }

  function Serialize(m: Message): seq<byte> { WireAll(RecordsOf(m)) }

  // ---------- Parsing ----------

  /** A record read, or what a failed read has stored of it: nothing, or one record. */
  datatype Skipped = Kept(record: Record, rest: seq<byte>) | Broken(partial: seq<Record>)

  /** The fields of a group up to the tag that ends them, or those there are. */
  datatype Contents = Ended(fields: seq<Record>, tag: uint32, rest: seq<byte>) | Unended(fields: seq<Record>)

  /** The rest of a record whose tag has been read; groups may nest `depth` deep. */
  function ReadBody(tag: uint32, s: seq<byte>, depth: nat): (r: Skipped)
    ensures r.Kept? ==> |r.rest| <= |s|
    decreases depth, |s|
  {
    var number := tag / 8;
    if number == 0 then Broken([])
    else if tag % 8 == 0 then
      match Read64(s)
      case None => Broken([])
      case Some((v, rest)) => Kept(Varint(number, v), rest)
    else if tag % 8 == 1 then
      if |s| < 8 then Broken([]) else Kept(Fixed64(number, ToUint64(FromLittle(s[..8]))), s[8..])
    else if tag % 8 == 2 then
      match ReadBytes(s)
      case None => Broken(if Read32(s).Some? then [Bytes(number, CutOff([], s))] else [])
      case Some((b, rest)) => Kept(Bytes(number, b), rest)
    else if tag % 8 == 3 then
      if depth == 0 then Broken([])
      else ClosedGroup(number, ReadFields(s, depth - 1))
    else if tag % 8 == 5 then
      if |s| < 4 then Broken([]) else Kept(Fixed32(number, ToUint32(FromLittle(s[..4]))), s[4..])
    else Broken([])
  }

  /** A group must end with its own end tag. */
  function ClosedGroup(number: FieldNumber, contents: Contents): Skipped {
    var group := Group(number, contents.fields);
    if contents.Ended? && contents.tag == group.EndTag() then Kept(group, contents.rest) else Broken([group])
  }

  function ReadFields(s: seq<byte>, depth: nat): (r: Contents)
    ensures r.Ended? ==> |r.rest| <= |s|
    decreases depth, |s|
  {
    if s == [] then Unended([])
    else
      match Read32(s)
      case None => Unended([])
      case Some((tag, rest)) =>
        if tag == 0 then Unended([])
        else if tag % 8 == 4 then Ended([], tag, rest)
        else
          match ReadBody(tag, rest, depth)
          case Broken(partial) => Unended(partial)
          case Kept(record, left) => FieldBefore(record, ReadFields(left, depth))
  }

  function FieldBefore(record: Record, contents: Contents): Contents {
    contents.(fields := [record] + contents.fields)
  }

  /** What a record does to the message: the last value of a field wins, an enum
      value that is not valid is kept as unknown, and so is every other record. */
  function Apply(m: Message, r: Record): Message {
    match r
    case Varint(1, v) => m.WithType(ToInt32(v))
    case Varint(2, v) => m.(id := Some(ToInt64(v)))
    case Varint(3, v) => m.(serviceId := Some(ToUint32(v)))
    case Varint(4, v) => m.(methodId := Some(ToUint32(v)))
    case Bytes(5, b) => m.(request := Some(b))
    case Bytes(6, b) => m.(response := Some(b))
    case Varint(7, v) => m.WithError(ToInt32(v))
    case _ => m.(unknown := m.unknown + [r])
  }

  function ApplyAll(m: Message, rs: seq<Record>): Message
    decreases |rs|
  {
    if rs == [] then m else ApplyAll(Apply(m, rs[0]), rs[1..])
  }

  /** A presence bit set before a read that then fails stays set; a byte field cut short
      keeps its piece, and so does an unknown record. */
  function Marked(m: Message, tag: uint32, s: seq<byte>, partial: seq<Record>): Message {
    if tag == 8 || tag == 56 then m
    else if tag == 16 then m.(id := Some(m.GetId()))
    else if tag == 24 then m.(serviceId := Some(m.GetServiceId()))
    else if tag == 32 then m.(methodId := Some(m.GetMethodId()))
    else if tag == 42 then m.(request := Some(CutOff(m.GetRequest(), s)))
    else if tag == 50 then m.(response := Some(CutOff(m.GetResponse(), s)))
    else m.(unknown := m.unknown + partial)
  }

  /** How a parse ends. A tag that reads as zero ends it too, as a success that
      did not consume the whole input. */
  datatype Status = EndOfInput | ZeroTag | Malformed

  datatype Iteration = Continue(m: Message, rest: seq<byte>) | Stop(m: Message, status: Status)

  function ParseTagged(m: Message, tag: uint32, s: seq<byte>): (r: Iteration)
    ensures r.Continue? ==> |r.rest| <= |s|
  {
    match ReadBody(tag, s, RECURSION_LIMIT)
    case Broken(partial) => Stop(Marked(m, tag, s, partial), Malformed)
    case Kept(record, rest) => Continue(Apply(m, record), rest)
  }

  /** One turn of the parse loop. */
  function ParseField(m: Message, s: seq<byte>): (r: Iteration)
    ensures r.Continue? ==> |r.rest| < |s|
  {
    if s == [] then Stop(m, EndOfInput)
    else
      match Read32(s)
      case None => Stop(m, ZeroTag)
      case Some((tag, rest)) => if tag == 0 then Stop(m, ZeroTag) else ParseTagged(m, tag, rest)
  }

  /** Parsing `s` into a message that already holds `m`. */
  function Parse(m: Message, s: seq<byte>): (Message, Status)
    decreases |s|
  {
    match ParseField(m, s)
    case Stop(m', status) => (m', status)
    case Continue(m', rest) => Parse(m', rest)
  }
}
