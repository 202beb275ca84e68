/** Laws of the RpcMessage wire format: round trip, concatenation as merge, sizes. */
module MessageLaws {
  import opened MachineInt
  import opened ByteOrder
  import opened Varint
  import opened Message

  // ---------- Records ----------

  lemma FixedReads(v: uint64, width: nat, rest: seq<byte>)
    requires width == 8 || (width == 4 && v < TWO_32)
    ensures var s := ToLittle(v, width) + rest;
            FromLittle(s[..width]) == v && s[width..] == rest
  {
    assert Capacity(2) == 65536;
    assert Capacity(4) == TWO_32;
    assert Capacity(6) == 65536 * TWO_32;
    BytesRoundTrip(v, width, false);
    ModulusUnique(v, Capacity(width), 0, v);
    assert (ToLittle(v, width) + rest)[..width] == ToLittle(v, width);
  }

  lemma VarintReads(number: FieldNumber, v: uint64, rest: seq<byte>, depth: nat)
    ensures ReadBody(8 * number, Encode(v) + rest, depth) == Kept(Record.Varint(number, v), rest)
  {
    Read64Encode(v, rest);
  }

  lemma DelimitedBody(number: FieldNumber, s: seq<byte>, depth: nat)
    requires ReadBytes(s).Some?
    ensures ReadBody(8 * number + 2, s, depth) == Kept(Record.Bytes(number, ReadBytes(s).value.0), ReadBytes(s).value.1)
  {
  }

  lemma BytesRead(number: FieldNumber, b: seq<byte>, rest: seq<byte>, depth: nat)
    requires |b| < TWO_31
    ensures ReadBody(8 * number + 2, Encode(|b|) + b + rest, depth) == Kept(Record.Bytes(number, b), rest)
  {
    ReadBytesEncode(b, rest);
    DelimitedBody(number, Encode(|b|) + b + rest, depth);
  }

  lemma Fixed64Reads(number: FieldNumber, v: uint64, rest: seq<byte>, depth: nat)
    ensures ReadBody(8 * number + 1, ToLittle(v, 8) + rest, depth) == Kept(Record.Fixed64(number, v), rest)
  {
    FixedReads(v, 8, rest);
  }

  lemma Fixed32Reads(number: FieldNumber, v: uint32, rest: seq<byte>, depth: nat)
    ensures ReadBody(8 * number + 5, ToLittle(v, 4) + rest, depth) == Kept(Record.Fixed32(number, v), rest)
  {
    FixedReads(v, 4, rest);
  }

  lemma GroupBody(number: FieldNumber, s: seq<byte>, depth: nat)
    requires depth > 0
    ensures ReadBody(8 * number + 3, s, depth) == ClosedGroup(number, ReadFields(s, depth - 1))
  {
  }

  lemma GroupReads(r: Record, rest: seq<byte>, depth: nat)
    requires r.Group? && depth > 0
    requires ReadFields(WireAll(r.fields) + (Encode(8 * r.number + 4) + rest), depth - 1)
          == Ended(r.fields, 8 * r.number + 4, rest)
    ensures ReadBody(r.Tag(), Body(r) + rest, depth) == Kept(r, rest)
  {
    GroupBytes(r, rest);
    GroupBody(r.number, Body(r) + rest, depth);
  }

  lemma GroupBytes(r: Record, rest: seq<byte>)
    requires r.Group?
    ensures Body(r) + rest == WireAll(r.fields) + (Encode(8 * r.number + 4) + rest)
  {
    assert Body(r) == WireAll(r.fields) + Encode(8 * r.number + 4);
  }

  lemma FlatReads(r: Record, rest: seq<byte>, depth: nat)
    requires Readable(r, depth) && !r.Group?
    ensures ReadBody(r.Tag(), Body(r) + rest, depth) == Kept(r, rest)
  {
    if r.Varint? {
      VarintReads(r.number, r.value, rest, depth);
    } else if r.Fixed64? {
      Fixed64Reads(r.number, r.value, rest, depth);
    } else if r.Bytes? {
      BytesRead(r.number, r.bytes, rest, depth);
    } else {
      Fixed32Reads(r.number, r.value32, rest, depth);
    }
  }

  /** Every record reads back as itself, groups with all that is in them. */
  lemma {:induction false} BodyReads(r: Record, rest: seq<byte>, depth: nat)
    requires Readable(r, depth)
    ensures ReadBody(r.Tag(), Body(r) + rest, depth) == Kept(r, rest)
    decreases r, 0
  {
    if r.Group? {
      FieldsRead(r.fields, r.number, rest, depth - 1);
      GroupReads(r, rest, depth);
    } else {
      FlatReads(r, rest, depth);
    }
  }

  lemma {:induction false} FieldsRead(rs: seq<Record>, number: FieldNumber, rest: seq<byte>, depth: nat)
    requires AllReadable(rs, depth)
    ensures ReadFields(WireAll(rs) + (Encode(8 * number + 4) + rest), depth) == Ended(rs, 8 * number + 4, rest)
    decreases rs, 1
  {
    var end := Encode(8 * number + 4) + rest;
    if rs == [] {
      assert WireAll(rs) + end == end;
      Read32Small(8 * number + 4, rest);
      EndRead(8 * number + 4, end, rest, depth);
    } else {
      var tail := WireAll(rs[1..]) + end;
      BodyReads(rs[0], tail, depth);
      FieldsRead(rs[1..], number, rest, depth);
      FieldRead(rs[0], tail, depth);
      WireFirst(rs, end);
      FirstField(rs, 8 * number + 4, rest);
    }
  }

  lemma FirstField(rs: seq<Record>, tag: uint32, rest: seq<byte>)
    requires rs != []
    ensures FieldBefore(rs[0], Ended(rs[1..], tag, rest)) == Ended(rs, tag, rest)
  {
    assert [rs[0]] + rs[1..] == rs;
  }

  lemma EndRead(tag: uint32, s: seq<byte>, rest: seq<byte>, depth: nat)
    requires tag % 8 == 4 && Read32(s) == Some((tag, rest))
    ensures ReadFields(s, depth) == Ended([], tag, rest)
  {
  }

  lemma FieldRead(r: Record, tail: seq<byte>, depth: nat)
    requires ReadBody(r.Tag(), Body(r) + tail, depth) == Kept(r, tail)
    ensures ReadFields(Encode(r.Tag()) + (Body(r) + tail), depth) == FieldBefore(r, ReadFields(tail, depth))
  {
    Read32Small(r.Tag(), Body(r) + tail);
    FieldAfterTag(r, Encode(r.Tag()) + (Body(r) + tail), Body(r) + tail, tail, depth);
  }

  lemma FieldAfterTag(r: Record, s: seq<byte>, body: seq<byte>, tail: seq<byte>, depth: nat)
    requires Read32(s) == Some((r.Tag(), body)) && ReadBody(r.Tag(), body, depth) == Kept(r, tail)
    ensures ReadFields(s, depth) == FieldBefore(r, ReadFields(tail, depth))
  {
    assert r.Tag() % 8 == r.WireType();
  }

  lemma WireFirst(rs: seq<Record>, end: seq<byte>)
    requires rs != []
    ensures WireAll(rs) + end == Encode(rs[0].Tag()) + (Body(rs[0]) + (WireAll(rs[1..]) + end))
  {
    Assoc4(Encode(rs[0].Tag()), Body(rs[0]), WireAll(rs[1..]), end);
  }

  lemma Assoc4(a: seq<byte>, b: seq<byte>, c: seq<byte>, d: seq<byte>)
    ensures ((a + b) + c) + d == a + (b + (c + d))
  {
  }

  lemma ParseRecord(m: Message, r: Record, rest: seq<byte>)
    requires Wellformed(r)
    ensures ParseField(m, Wire(r) + rest) == Continue(Apply(m, r), rest)
  {
    assert Wire(r) + rest == Encode(r.Tag()) + (Body(r) + rest);
    Read32Small(r.Tag(), Body(r) + rest);
    BodyReads(r, rest, RECURSION_LIMIT);
  }

  /** Parsing any records, in any order and with any repetitions, applies them one
      after the other. */
  lemma {:induction false} ParseRecords(m: Message, rs: seq<Record>, rest: seq<byte>)
    requires forall r :: r in rs ==> Wellformed(r)
    ensures Parse(m, WireAll(rs) + rest) == Parse(ApplyAll(m, rs), rest)
    decreases |rs|
  {
    if rs == [] {
      assert WireAll(rs) + rest == rest;
    } else {
      var tail := WireAll(rs[1..]) + rest;
      assert WireAll(rs) + rest == Wire(rs[0]) + tail;
      ParseRecord(m, rs[0], tail);
      ParseRecords(Apply(m, rs[0]), rs[1..], rest);
    }
  }

  lemma {:induction false} ApplyAllAppend(m: Message, rs: seq<Record>, more: seq<Record>)
    ensures ApplyAll(m, rs + more) == ApplyAll(ApplyAll(m, rs), more)
    decreases |rs|
  {
    if rs == [] {
      assert rs + more == more;
    } else {
      assert (rs + more)[1..] == rs[1..] + more;
      ApplyAllAppend(Apply(m, rs[0]), rs[1..], more);
    }
  }

  lemma {:induction false} WireAllAppend(rs: seq<Record>, more: seq<Record>)
    ensures WireAll(rs + more) == WireAll(rs) + WireAll(more)
    decreases |rs|
  {
    if rs == [] {
      assert rs + more == more;
    } else {
      assert (rs + more)[1..] == rs[1..] + more;
      WireAllAppend(rs[1..], more);
    }
  }

  lemma {:induction false} ApplyUnknown(m: Message, us: seq<Record>)
    requires forall u :: u in us ==> u.Unknown()
    ensures ApplyAll(m, us) == m.(unknown := m.unknown + us)
    decreases |us|
  {
    if us == [] {
      assert m.unknown + us == m.unknown;
    } else {
      assert us[0].Unknown();
      ApplyUnknown(Apply(m, us[0]), us[1..]);
      assert m.unknown + [us[0]] + us[1..] == m.unknown + us;
    }
  }

  /** Applying one optional record sets its field or does nothing. */
  lemma ApplyVarint(m: Message, number: FieldNumber, value: Option<int>)
    ensures ApplyAll(m, VarintOf(number, value))
         == if value == None then m else Apply(m, Varint(number, ToUint64(value.value)))
  {
    if value.Some? {
      var r := Varint(number, ToUint64(value.value));
      assert [r][1..] == [];
      assert ApplyAll(Apply(m, r), []) == Apply(m, r);
    }
  }

  lemma ApplyBytes(m: Message, number: FieldNumber, value: Option<seq<byte>>)
    ensures ApplyAll(m, BytesOf(number, value)) == if value == None then m else Apply(m, Bytes(number, value.value))
  {
    if value.Some? {
      var r := Bytes(number, value.value);
      assert [r][1..] == [];
      assert ApplyAll(Apply(m, r), []) == Apply(m, r);
    }
  }

  /** The records of a message, applied in their order, merge it. */
  lemma RecordsMerge(m: Message, a: Message)
    requires a.Encodable()
    ensures ApplyAll(m, RecordsOf(a)) == m.Merge(a)
  {
    var r1 := VarintOf(1, a.msgType);
    var r2 := r1 + VarintOf(2, a.id);
    var r3 := r2 + VarintOf(3, a.serviceId);
    var r4 := r3 + VarintOf(4, a.methodId);
    var r5 := r4 + BytesOf(5, a.request);
    var r6 := r5 + BytesOf(6, a.response);
    var r7 := r6 + VarintOf(7, a.error);
    var m1 := m.(msgType := Latest(m.msgType, a.msgType));
    assert ApplyAll(m, r1) == m1 by { ApplyVarint(m, 1, a.msgType); }
    var m2 := m1.(id := Latest(m.id, a.id));
    assert ApplyAll(m, r2) == m2 by { ApplyAllAppend(m, r1, VarintOf(2, a.id)); ApplyVarint(m1, 2, a.id); }
    var m3 := m2.(serviceId := Latest(m.serviceId, a.serviceId));
    assert ApplyAll(m, r3) == m3 by {
      ApplyAllAppend(m, r2, VarintOf(3, a.serviceId)); ApplyVarint(m2, 3, a.serviceId); }
    var m4 := m3.(methodId := Latest(m.methodId, a.methodId));
    assert ApplyAll(m, r4) == m4 by { ApplyAllAppend(m, r3, VarintOf(4, a.methodId)); ApplyVarint(m3, 4, a.methodId); }
    var m5 := m4.(request := Latest(m.request, a.request));
    assert ApplyAll(m, r5) == m5 by { ApplyAllAppend(m, r4, BytesOf(5, a.request)); ApplyBytes(m4, 5, a.request); }
    var m6 := m5.(response := Latest(m.response, a.response));
    assert ApplyAll(m, r6) == m6 by { ApplyAllAppend(m, r5, BytesOf(6, a.response)); ApplyBytes(m5, 6, a.response); }
    var m7 := m6.(error := Latest(m.error, a.error));
    assert ApplyAll(m, r7) == m7 by { ApplyAllAppend(m, r6, VarintOf(7, a.error)); ApplyVarint(m6, 7, a.error); }
    ApplyAllAppend(m, r7, a.unknown);
    ApplyUnknown(m7, a.unknown);
  }

  ghost predicate AllWellformed(rs: seq<Record>) {
    forall r :: r in rs ==> Wellformed(r)
  }

  lemma WellformedAppend(rs: seq<Record>, more: seq<Record>)
    requires AllWellformed(rs) && AllWellformed(more)
    ensures AllWellformed(rs + more)
  {
  }

  lemma RecordsWellformed(a: Message)
    requires a.Encodable()
    ensures AllWellformed(RecordsOf(a))
  {
    var r4 := VarintOf(1, a.msgType) + VarintOf(2, a.id) + VarintOf(3, a.serviceId) + VarintOf(4, a.methodId);
    var r5 := r4 + BytesOf(5, a.request);
    var r6 := r5 + BytesOf(6, a.response);
    WellformedAppend(r4, BytesOf(5, a.request));
    WellformedAppend(r5, BytesOf(6, a.response));
    WellformedAppend(r6, VarintOf(7, a.error));
    WellformedAppend(r6 + VarintOf(7, a.error), a.unknown);
  }

  /** The bytes of an unknown record: the wire types of the encoding, fixed widths in
      little-endian order, and a group between its own start and end tags. */
  lemma RecordLayout(r: Record)
    ensures Wire(r) ==
            match r
            case Varint(n, v) => Encode(8 * n) + Encode(v)
            case Fixed64(n, v) => Encode(8 * n + 1) + ToLittle(v, 8)
            case Bytes(n, b) => Encode(8 * n + 2) + (Encode(|b|) + b)
            case Group(n, fields) => Encode(8 * n + 3) + (WireAll(fields) + Encode(8 * n + 4))
            case Fixed32(n, v) => Encode(8 * n + 5) + ToLittle(v, 4)
  {
  }

  /** A group closed by the end tag of another number is malformed. */
  lemma WrongEndBreaks(number: FieldNumber, end: FieldNumber, fields: seq<Record>, rest: seq<byte>, depth: nat)
    requires depth > 0 && AllReadable(fields, depth - 1) && end != number
    ensures ReadBody(8 * number + 3, WireAll(fields) + (Encode(8 * end + 4) + rest), depth)
         == Broken([Record.Group(number, fields)])
  {
    FieldsRead(fields, end, rest, depth - 1);
    GroupBody(number, WireAll(fields) + (Encode(8 * end + 4) + rest), depth);
  }

  /** A zero tag, and one that cannot be read, end the parse as a success short of the
      end of the input. */
  lemma UnreadableTagStops(m: Message, s: seq<byte>)
    requires s != [] && (s[0] == 0 || Read32(s) == None)
    ensures Parse(m, s) == (m, ZeroTag)
  {
  }

  /** What each record does to a message, with the width its field is read with: the last
      value of a field wins, and an enum value that is not valid is kept as an unknown
      number, sign-extended. */
  lemma RecordEffect(m: Message, v: uint64, b: seq<byte>)
    ensures 1 <= ToInt32(v) <= 3 ==> Apply(m, Record.Varint(1, v)) == m.(msgType := Some(ToInt32(v)))
    ensures !(1 <= ToInt32(v) <= 3) ==>
              Apply(m, Record.Varint(1, v)) == m.(unknown := m.unknown + [Record.Varint(1, ToUint64(ToInt32(v)))])
    ensures Apply(m, Record.Varint(2, v)) == m.(id := Some(ToInt64(v)))
    ensures Apply(m, Record.Varint(3, v)) == m.(serviceId := Some(ToUint32(v)))
    ensures Apply(m, Record.Varint(4, v)) == m.(methodId := Some(ToUint32(v)))
    ensures Apply(m, Record.Bytes(5, b)) == m.(request := Some(b))
    ensures Apply(m, Record.Bytes(6, b)) == m.(response := Some(b))
    ensures 0 <= ToInt32(v) <= 7 ==> Apply(m, Record.Varint(7, v)) == m.(error := Some(ToInt32(v)))
    ensures !(0 <= ToInt32(v) <= 7) ==>
              Apply(m, Record.Varint(7, v)) == m.(unknown := m.unknown + [Record.Varint(7, ToUint64(ToInt32(v)))])
  {
  }

  /** What a field that is absent reads as. */
  lemma AbsentReadsDefault(m: Message)
    ensures m.GetType() == (if m.msgType.Some? then m.msgType.value else 1)
    ensures m.GetId() == (if m.id.Some? then m.id.value else 0)
    ensures m.GetServiceId() == (if m.serviceId.Some? then m.serviceId.value else 0)
    ensures m.GetMethodId() == (if m.methodId.Some? then m.methodId.value else 0)
    ensures m.GetRequest() == (if m.request.Some? then m.request.value else [])
    ensures m.GetResponse() == (if m.response.Some? then m.response.value else [])
    ensures m.GetError() == (if m.error.Some? then m.error.value else 0)
  {
  }

  // ---------- Whole messages ----------

  /** Parsing a serialized message, into any message and with anything behind it,
      is merging it. */
  lemma ParseSerialized(m: Message, a: Message, rest: seq<byte>)
    requires a.Encodable()
    ensures Parse(m, Serialize(a) + rest) == Parse(m.Merge(a), rest)
  {
    RecordsWellformed(a);
    ParseRecords(m, RecordsOf(a), rest);
    RecordsMerge(m, a);
  }

  /** Every field, presence and unknown record of a message survives the wire. */
  lemma MessageRoundTrip(a: Message)
    requires a.Encodable()
    ensures Parse(EMPTY, Serialize(a)) == (a, EndOfInput)
  {
    ParseSerialized(EMPTY, a, []);
    assert Serialize(a) + [] == Serialize(a);
    assert EMPTY.unknown + a.unknown == a.unknown;
    assert EMPTY.Merge(a) == a;
  }

  /** Concatenation is merge. */
  lemma ConcatenationIsMerge(a: Message, b: Message)
    requires a.Encodable() && b.Encodable()
    ensures Parse(EMPTY, Serialize(a) + Serialize(b)) == (EMPTY.Merge(a).Merge(b), EndOfInput)
  {
    ParseSerialized(EMPTY, a, Serialize(b));
    ParseSerialized(EMPTY.Merge(a), b, []);
    assert Serialize(b) + [] == Serialize(b);
  }

  lemma AllReadableEach(rs: seq<Record>, depth: nat)
    requires AllReadable(rs, depth)
    ensures forall r :: r in rs ==> Readable(r, depth)
  {
  }

  lemma OneReadable(r: Record, depth: nat)
    requires Readable(r, depth)
    ensures AllReadable([r], depth)
  {
    assert [r][1..] == [];
  }

  /** What is read, or left of a failed read, nests no deeper than the reader allows. */
  lemma {:induction false} ReadIsReadable(tag: uint32, s: seq<byte>, depth: nat)
    ensures match ReadBody(tag, s, depth)
            case Kept(r, _) => r.Tag() == tag && Readable(r, depth)
            case Broken(partial) =>
              AllReadable(partial, depth) &&
              forall r :: r in partial ==> r.Tag() == tag && (r.Bytes? || r.Group?)
    decreases depth, |s|, 0
  {
    if tag % 8 == 3 && depth > 0 {
      FieldsAreReadable(s, depth - 1);
      var contents := ReadFields(s, depth - 1);
      if tag / 8 > 0 {
        OneReadable(Record.Group(tag / 8, contents.fields), depth);
      }
    } else if tag % 8 == 2 && tag / 8 > 0 {
      if ReadBytes(s) == None && Read32(s).Some? {
        OneReadable(Record.Bytes(tag / 8, CutOff([], s)), depth);
      }
    }
  }

  lemma {:induction false} FieldsAreReadable(s: seq<byte>, depth: nat)
    ensures AllReadable(ReadFields(s, depth).fields, depth)
    decreases depth, |s|, 1
  {
    if s != [] && Read32(s).Some? && Read32(s).value.0 != 0 && Read32(s).value.0 % 8 != 4 {
      var (tag, rest) := Read32(s).value;
      ReadIsReadable(tag, rest, depth);
      var read := ReadBody(tag, rest, depth);
      if read.Kept? {
        FieldsAreReadable(read.rest, depth);
        assert ([read.record] + ReadFields(read.rest, depth).fields)[1..] == ReadFields(read.rest, depth).fields;
      }
    }
  }

  /** Whatever the bytes, a parsed message can be serialized and read back
      unchanged: what parsing keeps as unknown stays unknown. */
  lemma {:induction false} ParsedIsEncodable(m: Message, s: seq<byte>)
    requires m.Encodable()
    ensures Parse(m, s).0.Encodable()
    decreases |s|
  {
    if s != [] && Read32(s).Some? && Read32(s).value.0 != 0 {
      var (tag, body) := Read32(s).value;
      ReadIsReadable(tag, body, RECURSION_LIMIT);
      match ReadBody(tag, body, RECURSION_LIMIT) {
        case Kept(record, rest) =>
          ApplyEncodable(m, record);
          ParsedIsEncodable(Apply(m, record), rest);
        case Broken(partial) => MarkedEncodable(m, tag, body, partial);
      }
    }
  }

  lemma MarkedEncodable(m: Message, tag: uint32, s: seq<byte>, partial: seq<Record>)
    requires m.Encodable() && ReadBody(tag, s, RECURSION_LIMIT) == Broken(partial)
    requires AllReadable(partial, RECURSION_LIMIT)
    requires forall r :: r in partial ==> r.Tag() == tag && (r.Bytes? || r.Group?)
    ensures Marked(m, tag, s, partial).Encodable()
  {
    AllReadableEach(partial, RECURSION_LIMIT);
    forall r | r in partial && tag !in {42, 50}
      ensures r.Unknown()
    {
      assert r.Tag() == 8 * r.number + r.WireType();
    }
  }

  lemma ApplyEncodable(m: Message, r: Record)
    requires m.Encodable() && Wellformed(r)
    ensures Apply(m, r).Encodable()
  {
    match r
    case Varint(n, v) =>
      var e := ToInt32(v);
      assert ToInt32(ToUint64(e)) == e by { NarrowTwice(e); }
    case _ =>
  }

  /** Reading anything and sending it on loses nothing. */
  lemma RelayRoundTrip(s: seq<byte>)
    ensures Parse(EMPTY, Serialize(Parse(EMPTY, s).0)) == (Parse(EMPTY, s).0, EndOfInput)
  {
    ParsedIsEncodable(EMPTY, s);
    MessageRoundTrip(Parse(EMPTY, s).0);
  }

  // ---------- Sizes ----------

  /** The size functions narrow the length of a payload to 32 bits before they size its
      varint, so from 2^32 bytes on they need not be exact. */
  predicate SizeAgrees(size: nat, length: nat) {
    size == length || (size >= TWO_32 && length >= TWO_32)
  }

  function DelimitedSize(length: nat): nat { Size64(ToUint32(length)) + length }

  lemma DelimitedAgrees(b: seq<byte>)
    ensures SizeAgrees(DelimitedSize(|b|), |Encode(|b|) + b|)
  {
    if |b| < TWO_32 { Size64Exact(|b|); }
  }

  /** Size of one record from the size functions, without building its bytes. */
  function RecordSize(r: Record): nat
    decreases r, 0
  {
    Size64(r.Tag()) + match r
                      case Varint(_, v) => Size64(v)
                      case Fixed64(_, _) => 8
                      case Bytes(_, b) => DelimitedSize(|b|)
                      case Group(_, fields) => RecordsSize(fields) + Size64(r.EndTag())
                      case Fixed32(_, _) => 4
  }

  function RecordsSize(rs: seq<Record>): nat
    decreases rs, 1
  {
    if rs == [] then 0 else RecordSize(rs[0]) + RecordsSize(rs[1..])
  }

  lemma {:induction false} RecordSizeExact(r: Record)
    ensures SizeAgrees(RecordSize(r), |Wire(r)|)
    decreases r, 0
  {
    Size64Exact(r.Tag());
    match r
    case Varint(_, v) => Size64Exact(v);
    case Bytes(_, b) => DelimitedAgrees(b);
    case Group(_, fields) =>
      RecordsSizeExact(fields);
      Size64Exact(r.EndTag());
    case _ =>
  }

  lemma {:induction false} RecordsSizeExact(rs: seq<Record>)
    ensures SizeAgrees(RecordsSize(rs), |WireAll(rs)|)
    decreases rs, 1
  {
    if rs != [] {
      RecordSizeExact(rs[0]);
      RecordsSizeExact(rs[1..]);
    }
  }
}
