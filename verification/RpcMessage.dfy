/** The generated class RpcMessage: fields, presence bits, and the code that parses,
    serializes, sizes, merges and clears them. */
module RpcMessage {
  import opened MachineInt
  import opened Varint
  import opened Message
  import opened MessageLaws

  /** The bits of the presence word, from the lowest up. */
  datatype Bit = RequestBit | ResponseBit | IdBit | ServiceIdBit | MethodIdBit | ErrorBit | TypeBit

  /** The mask 0x5c. */
  const REQUIRED := {IdBit, ServiceIdBit, MethodIdBit, TypeBit}

  /** A field as its presence bit and its storage show it. */
  function Field<T>(bits: set<Bit>, bit: Bit, value: T): Option<T> { if bit in bits then Some(value) else None }

  /** A field whose presence bit is clear holds its default. */
  predicate Defaulted<T(==)>(bits: set<Bit>, bit: Bit, value: T, default: T) { bit in bits || value == default }

  lemma FieldMerge<T>(bits: set<Bit>, more: set<Bit>, bit: Bit, value: T, recent: T, default: T)
    requires Defaulted(bits, bit, value, default) && Defaulted(more, bit, recent, default)
    ensures var merged := if bit in more then recent else value;
            && Field(bits + more, bit, merged) == Latest(Field(bits, bit, value), Field(more, bit, recent))
            && Defaulted(bits + more, bit, merged, default)
  {
  }

  /** A 32-bit read sees the low half of what a 64-bit read of the same bytes sees. */
  lemma NarrowRead(s: seq<byte>)
    ensures match Read64(s)
            case None => Read32(s) == None
            case Some((v, rest)) => Read32(s) == Some((ToUint32(v), rest)) && ToInt32(ToUint32(v)) == ToInt32(v)
  {
    if Read(s, MAX_VARINT_BYTES).Some? {
      ModulusTwice(Read(s, MAX_VARINT_BYTES).value.0);
    }
  }

  /** The seven cases of the parse switch, field by field: the width each is read
      with and what it assigns. */
  function KnownField(m: Message, tag: uint32, s: seq<byte>): Iteration
    requires tag in {8, 16, 24, 32, 42, 50, 56}
  {
    if tag == 16 then
      match Read64(s)
      case None => Stop(m.(id := Some(m.GetId())), Malformed)
      case Some((v, rest)) => Continue(m.(id := Some(ToInt64(v))), rest)
    else if tag == 42 then
      match ReadBytes(s)
      case None => Stop(m.(request := Some(CutOff(m.GetRequest(), s))), Malformed)
      case Some((b, rest)) => Continue(m.(request := Some(b)), rest)
    else if tag == 50 then
      match ReadBytes(s)
      case None => Stop(m.(response := Some(CutOff(m.GetResponse(), s))), Malformed)
      case Some((b, rest)) => Continue(m.(response := Some(b)), rest)
    else
      match Read32(s)
      case None => Stop(Marked(m, tag, s, []), Malformed)
      case Some((v, rest)) =>
        Continue(if tag == 8 then m.WithType(ToInt32(v))
             else if tag == 24 then m.(serviceId := Some(v))
             else if tag == 32 then m.(methodId := Some(v))
             else m.WithError(ToInt32(v)), rest)
  }

  /** Reading a known field with its own width is reading a generic record and
      applying it. */
  lemma TaggedKnown(m: Message, tag: uint32, s: seq<byte>)
    ensures tag in {8, 16, 24, 32, 42, 50, 56} ==> ParseTagged(m, tag, s) == KnownField(m, tag, s)
  {
    NarrowRead(s);
  }

  lemma WireOne(r: Record)
    ensures WireAll([r]) == Wire(r)
  {
    assert WireAll([r][1..]) == [];
    assert Wire(r) + [] == Wire(r);
  }

  class RpcMessage {
    /** The presence word, as the set of its bits that are on. */
    var hasBits: set<Bit>
    var id: int64
    var serviceId: uint32
    var methodId: uint32
    var request: seq<byte>
    var response: seq<byte>
    var error: ErrorCode
    var msgType: MsgType
    var unknown: seq<Record>

    predicate Valid()
      reads this
    {
      && Defaulted(hasBits, RequestBit, request, [])
      && Defaulted(hasBits, ResponseBit, response, [])
      && Defaulted(hasBits, IdBit, id, 0)
      && Defaulted(hasBits, ServiceIdBit, serviceId, 0)
      && Defaulted(hasBits, MethodIdBit, methodId, 0)
      && Defaulted(hasBits, ErrorBit, error, 0)
      && Defaulted(hasBits, TypeBit, msgType, 1)
    }

    /** The record the object stands for. */
    function Value(): Message
      reads this
    {
      Message(Field(hasBits, TypeBit, msgType), Field(hasBits, IdBit, id),
              Field(hasBits, ServiceIdBit, serviceId), Field(hasBits, MethodIdBit, methodId),
              Field(hasBits, RequestBit, request), Field(hasBits, ResponseBit, response),
              Field(hasBits, ErrorBit, error), unknown)
    }

    constructor ()
      ensures Valid() && Value() == EMPTY
    {
      hasBits, id, serviceId, methodId := {}, 0, 0, 0;
      request, response, error, msgType, unknown := [], [], 0, 1, [];
    }

    method SetType(value: MsgType)
      requires Valid()
      modifies this
      ensures Valid() && Value() == old(Value()).(msgType := Some(value))
    {
      hasBits, msgType := hasBits + {TypeBit}, value;
    }

    method SetId(value: int64)
      requires Valid()
      modifies this
      ensures Valid() && Value() == old(Value()).(id := Some(value))
    {
      hasBits, id := hasBits + {IdBit}, value;
    }

    method SetServiceId(value: uint32)
      requires Valid()
      modifies this
      ensures Valid() && Value() == old(Value()).(serviceId := Some(value))
    {
      hasBits, serviceId := hasBits + {ServiceIdBit}, value;
    }

    method SetMethodId(value: uint32)
      requires Valid()
      modifies this
      ensures Valid() && Value() == old(Value()).(methodId := Some(value))
    {
      hasBits, methodId := hasBits + {MethodIdBit}, value;
    }

    method SetRequest(value: seq<byte>)
      requires Valid()
      modifies this
      ensures Valid() && Value() == old(Value()).(request := Some(value))
    {
      hasBits, request := hasBits + {RequestBit}, value;
    }

    method SetResponse(value: seq<byte>)
      requires Valid()
      modifies this
      ensures Valid() && Value() == old(Value()).(response := Some(value))
    {
      hasBits, response := hasBits + {ResponseBit}, value;
    }

    method SetError(value: ErrorCode)
      requires Valid()
      modifies this
      ensures Valid() && Value() == old(Value()).(error := Some(value))
    {
      hasBits, error := hasBits + {ErrorBit}, value;
    }

    method MarkId()
      requires Valid()
      modifies this
      ensures Valid() && Value() == old(Value()).(id := Some(old(Value()).GetId()))
    {
      hasBits := hasBits + {IdBit};
    }

    method MarkServiceId()
      requires Valid()
      modifies this
      ensures Valid() && Value() == old(Value()).(serviceId := Some(old(Value()).GetServiceId()))
    {
      hasBits := hasBits + {ServiceIdBit};
    }

    method MarkMethodId()
      requires Valid()
      modifies this
      ensures Valid() && Value() == old(Value()).(methodId := Some(old(Value()).GetMethodId()))
    {
      hasBits := hasBits + {MethodIdBit};
    }

    method MarkRequest()
      requires Valid()
      modifies this
      ensures Valid() && Value() == old(Value()).(request := Some(old(Value()).GetRequest()))
    {
      hasBits := hasBits + {RequestBit};
    }

    method MarkResponse()
      requires Valid()
      modifies this
      ensures Valid() && Value() == old(Value()).(response := Some(old(Value()).GetResponse()))
    {
      hasBits := hasBits + {ResponseBit};
    }

    method AddUnknown(record: Record)
      requires Valid()
      modifies this
      ensures Valid() && Value() == old(Value()).(unknown := old(Value()).unknown + [record])
    {
      unknown := unknown + [record];
    }

    method IsInitialized() returns (r: bool)
      ensures r <==> Value().msgType.Some? && Value().id.Some? && Value().serviceId.Some? && Value().methodId.Some?
    {
      r := hasBits * REQUIRED == REQUIRED;
    }

    method Clear()
      requires Valid()
      modifies this
      ensures Valid() && Value() == EMPTY
    {
      if hasBits * {RequestBit, ResponseBit} != {} {
        if RequestBit in hasBits { request := []; }
        if ResponseBit in hasBits { response := []; }
      }
      if hasBits * {IdBit, ServiceIdBit, MethodIdBit, ErrorBit, TypeBit} != {} {
        id, serviceId, methodId, error := 0, 0, 0, 0;
        msgType := 1;
      }
      hasBits := {};
      unknown := [];
    }

    method MergeFrom(from: RpcMessage)
      requires from != this && Valid() && from.Valid()
      modifies this
      ensures Valid() && Value() == old(Value()).Merge(from.Value())
    {
      unknown := unknown + from.unknown;
      var cached := from.hasBits;
      if cached != {} {
        MergeStrings(from);
        MergeNumbers(from);
        hasBits := hasBits + cached;
      }
      assert hasBits == old(hasBits) + cached;
      FieldMerge(old(hasBits), cached, TypeBit, old(msgType), from.msgType, 1);
      FieldMerge(old(hasBits), cached, IdBit, old(id), from.id, 0);
      FieldMerge(old(hasBits), cached, ServiceIdBit, old(serviceId), from.serviceId, 0);
      FieldMerge(old(hasBits), cached, MethodIdBit, old(methodId), from.methodId, 0);
      FieldMerge(old(hasBits), cached, RequestBit, old(request), from.request, []);
      FieldMerge(old(hasBits), cached, ResponseBit, old(response), from.response, []);
      FieldMerge(old(hasBits), cached, ErrorBit, old(error), from.error, 0);
    }

    method MergeStrings(from: RpcMessage)
      requires from != this
      modifies this`hasBits, this`request, this`response
      ensures hasBits == old(hasBits) + from.hasBits * {RequestBit, ResponseBit}
      ensures request == if RequestBit in from.hasBits then from.request else old(request)
      ensures response == if ResponseBit in from.hasBits then from.response else old(response)
    {
      if RequestBit in from.hasBits {
        hasBits := hasBits + {RequestBit};
        request := from.request;
      }
      if ResponseBit in from.hasBits {
        hasBits := hasBits + {ResponseBit};
        response := from.response;
      }
    }

    method MergeNumbers(from: RpcMessage)
      requires from != this
      modifies this`id, this`serviceId, this`methodId, this`error, this`msgType
      ensures id == if IdBit in from.hasBits then from.id else old(id)
      ensures serviceId == if ServiceIdBit in from.hasBits then from.serviceId else old(serviceId)
      ensures methodId == if MethodIdBit in from.hasBits then from.methodId else old(methodId)
      ensures error == if ErrorBit in from.hasBits then from.error else old(error)
      ensures msgType == if TypeBit in from.hasBits then from.msgType else old(msgType)
    {
      if IdBit in from.hasBits { id := from.id; }
      if ServiceIdBit in from.hasBits { serviceId := from.serviceId; }
      if MethodIdBit in from.hasBits { methodId := from.methodId; }
      if ErrorBit in from.hasBits { error := from.error; }
      if TypeBit in from.hasBits { msgType := from.msgType; }
    }

    // ---------- Parsing ----------

    /** The parse loop: reads records until the input or a zero tag ends it. */
    method MergePartialFromCodedStream(input: CodedInputStream) returns (status: Status)
      requires Valid()
      modifies this, input
      ensures Valid() && (Value(), status) == Parse(old(Value()), old(input.rest))
    {
      status := EndOfInput;
      while true
        invariant Valid()
        invariant Parse(Value(), input.rest) == Parse(old(Value()), old(input.rest))
        decreases |input.rest|
      {
        if input.rest == [] {
          return EndOfInput;
        }
        var ok, tag := input.ReadVarint32();
        if !ok || tag == 0 {
          return ZeroTag;
        }
        ok := MergeTagged(tag, input);
        if !ok {
          return Malformed;
        }
      }
    }

    /** The switch on the tag. */
    method MergeTagged(tag: uint32, input: CodedInputStream) returns (ok: bool)
      requires Valid() && tag != 0
      modifies this, input
      ensures Valid()
      ensures ParseTagged(old(Value()), tag, old(input.rest)) ==
              if ok then Continue(Value(), input.rest) else Stop(Value(), Malformed)
    {
      TaggedKnown(Value(), tag, input.rest);
      if tag == 8 {
        ok := MergeType(input);
      } else if tag == 16 {
        ok := MergeId(input);
      } else if tag == 24 {
        ok := MergeServiceId(input);
      } else if tag == 32 {
        ok := MergeMethodId(input);
      } else if tag == 42 {
        ok := MergeRequest(input);
      } else if tag == 50 {
        ok := MergeResponse(input);
      } else if tag == 56 {
        ok := MergeError(input);
      } else {
        ok := SkipField(tag, input);
      }
    }

    method MergeType(input: CodedInputStream) returns (ok: bool)
      requires Valid()
      modifies this, input
      ensures Valid()
      ensures match Read32(old(input.rest))
              case None => !ok && Value() == old(Value())
              case Some((v, rest)) => ok && input.rest == rest && Value() == old(Value()).WithType(ToInt32(v))
      ensures ok ==>
                var value := ToInt32(Read32(old(input.rest)).value.0);
                Value() == if 1 <= value <= 3 then old(Value()).(msgType := Some(value))
                           else old(Value()).(unknown := old(Value()).unknown + [Record.Varint(1, ToUint64(value))])
    {
      var raw;
      ok, raw := input.ReadVarint32();
      if ok { StoreType(ToInt32(raw)); }
    }

    method StoreType(value: int32)
      requires Valid()
      modifies this
      ensures Valid() && Value() == old(Value()).WithType(value)
    {
      if value == 1 || value == 2 || value == 3 {
        SetType(value);
      } else {
        AddUnknown(Record.Varint(1, ToUint64(value)));
      }
    }

    /** For the fields read in place the presence bit is set before the read. */
    method MergeId(input: CodedInputStream) returns (ok: bool)
      requires Valid()
      modifies this, input
      ensures Valid()
      ensures match Read64(old(input.rest))
              case None => !ok && Value() == old(Value()).(id := Some(old(Value()).GetId()))
              case Some((v, rest)) => ok && input.rest == rest && Value() == old(Value()).(id := Some(ToInt64(v)))
    {
      MarkId();
      var raw;
      ok, raw := input.ReadVarint64();
      if ok { SetId(ToInt64(raw)); }
    }

    method MergeServiceId(input: CodedInputStream) returns (ok: bool)
      requires Valid()
      modifies this, input
      ensures Valid()
      ensures match Read32(old(input.rest))
              case None => !ok && Value() == old(Value()).(serviceId := Some(old(Value()).GetServiceId()))
              case Some((v, rest)) => ok && input.rest == rest && Value() == old(Value()).(serviceId := Some(v))
    {
      MarkServiceId();
      var raw;
      ok, raw := input.ReadVarint32();
      if ok { SetServiceId(raw); }
    }

    method MergeMethodId(input: CodedInputStream) returns (ok: bool)
      requires Valid()
      modifies this, input
      ensures Valid()
      ensures match Read32(old(input.rest))
              case None => !ok && Value() == old(Value()).(methodId := Some(old(Value()).GetMethodId()))
              case Some((v, rest)) => ok && input.rest == rest && Value() == old(Value()).(methodId := Some(v))
    {
      MarkMethodId();
      var raw;
      ok, raw := input.ReadVarint32();
      if ok { SetMethodId(raw); }
    }

    method MergeRequest(input: CodedInputStream) returns (ok: bool)
      requires Valid()
      modifies this, input
      ensures Valid()
      ensures match ReadBytes(old(input.rest))
              case None => !ok &&
                Value() == old(Value()).(request := Some(CutOff(old(Value()).GetRequest(), old(input.rest))))
              case Some((v, rest)) => ok && input.rest == rest && Value() == old(Value()).(request := Some(v))
      ensures !ok ==>
                var before := if old(Value()).request.Some? then old(Value()).request.value else [];
                match Read32(old(input.rest))
                case None => Value().request == Some(before)
                case Some((n, rest)) => Value().request == Some(if n < TWO_31 then rest else before)
    {
      MarkRequest();
      var bytes;
      ok, bytes := input.ReadLengthDelimited(request);
      SetRequest(bytes);
    }

    method MergeResponse(input: CodedInputStream) returns (ok: bool)
      requires Valid()
      modifies this, input
      ensures Valid()
      ensures match ReadBytes(old(input.rest))
              case None => !ok &&
                Value() == old(Value()).(response := Some(CutOff(old(Value()).GetResponse(), old(input.rest))))
              case Some((v, rest)) => ok && input.rest == rest && Value() == old(Value()).(response := Some(v))
      ensures !ok ==>
                var before := if old(Value()).response.Some? then old(Value()).response.value else [];
                match Read32(old(input.rest))
                case None => Value().response == Some(before)
                case Some((n, rest)) => Value().response == Some(if n < TWO_31 then rest else before)
    {
      MarkResponse();
      var bytes;
      ok, bytes := input.ReadLengthDelimited(response);
      SetResponse(bytes);
    }

    method MergeError(input: CodedInputStream) returns (ok: bool)
      requires Valid()
      modifies this, input
      ensures Valid()
      ensures match Read32(old(input.rest))
              case None => !ok && Value() == old(Value())
              case Some((v, rest)) => ok && input.rest == rest && Value() == old(Value()).WithError(ToInt32(v))
      ensures ok ==>
                var value := ToInt32(Read32(old(input.rest)).value.0);
                Value() == if 0 <= value <= 7 then old(Value()).(error := Some(value))
                           else old(Value()).(unknown := old(Value()).unknown + [Record.Varint(7, ToUint64(value))])
    {
      var raw;
      ok, raw := input.ReadVarint32();
      if ok { StoreError(ToInt32(raw)); }
    }

    method StoreError(value: int32)
      requires Valid()
      modifies this
      ensures Valid() && Value() == old(Value()).WithError(value)
    {
      if 0 <= value <= 7 {
        SetError(value);
      } else {
        AddUnknown(Record.Varint(7, ToUint64(value)));
      }
    }

    /** A record of no known field is kept as it is, and of a broken one what there is. */
    method SkipField(tag: uint32, input: CodedInputStream) returns (ok: bool)
      requires Valid() && tag !in {0, 8, 16, 24, 32, 42, 50, 56}
      modifies this, input
      ensures Valid()
      ensures ParseTagged(old(Value()), tag, old(input.rest)) ==
              if ok then Continue(Value(), input.rest) else Stop(Value(), Malformed)
    {
      var skipped := ReadBody(tag, input.rest, RECURSION_LIMIT);
      ok := skipped.Kept?;
      if ok {
        input.rest := skipped.rest;
        AddUnknown(skipped.record);
      } else {
        unknown := unknown + skipped.partial;
      }
    }

    // ---------- Serializing ----------

    /** Writes the present fields in field order to a growing stream. */
    method SerializeWithCachedSizes(output: CodedOutputStream)
      requires Value().PayloadsFit()
      modifies output
      ensures output.written == old(output.written) + Serialize(Value())
    {
      ghost var start, m := output.written, Value();
      ghost var r1 := VarintOf(1, m.msgType);
      ghost var r2 := r1 + VarintOf(2, m.id);
      ghost var r3 := r2 + VarintOf(3, m.serviceId);
      ghost var r4 := r3 + VarintOf(4, m.methodId);
      ghost var r5 := r4 + BytesOf(5, m.request);
      ghost var r6 := r5 + BytesOf(6, m.response);
      ghost var r7 := r6 + VarintOf(7, m.error);
      assert [] + r1 == r1;
      WriteNumber(1, Field(hasBits, TypeBit, msgType), output, start, []);
      WriteNumber(2, Field(hasBits, IdBit, id), output, start, r1);
      WriteNumber(3, Field(hasBits, ServiceIdBit, serviceId), output, start, r2);
      WriteNumber(4, Field(hasBits, MethodIdBit, methodId), output, start, r3);
      WriteBytes(5, Field(hasBits, RequestBit, request), output, start, r4);
      WriteBytes(6, Field(hasBits, ResponseBit, response), output, start, r5);
      WriteNumber(7, Field(hasBits, ErrorBit, error), output, start, r6);
      output.WriteRaw(WireAll(unknown));
      Snoc(start, r7, unknown);
    }

    /** If the field is there, one tag and one varint; numbers are sign-extended to
        64 bits. `done` is what has been written since `start`. */
    static method WriteNumber(number: FieldNumber, value: Option<int>, output: CodedOutputStream,
                              ghost start: seq<byte>, ghost done: seq<Record>)
      requires output.written == start + WireAll(done)
      modifies output
      ensures output.written == start + WireAll(done + VarintOf(number, value))
    {
      if value.Some? {
        output.WriteVarint(8 * number);
        output.WriteVarint(ToUint64(value.value));
      }
      NumberWire(number, value, old(output.written));
      Snoc(start, done, VarintOf(number, value));
    }

    static method WriteBytes(number: FieldNumber, value: Option<seq<byte>>, output: CodedOutputStream,
                             ghost start: seq<byte>, ghost done: seq<Record>)
      requires value.Some? ==> |value.value| < TWO_31
      requires output.written == start + WireAll(done)
      modifies output
      ensures output.written == start + WireAll(done + BytesOf(number, value))
    {
      if value.Some? {
        output.WriteVarint(8 * number + 2);
        output.WriteVarint(|value.value|);
        output.WriteRaw(value.value);
      }
      BytesWire(number, value, old(output.written));
      Snoc(start, done, BytesOf(number, value));
    }

    /** The same bytes written in place from `from` on; returns where they end. */
    method InternalSerializeWithCachedSizesToArray(target: array<byte>, from: nat) returns (end: nat)
      requires Value().PayloadsFit() && from + |Serialize(Value())| <= target.Length
      modifies target
      ensures end == from + |Serialize(Value())|
      ensures target[..end] == old(target[..from]) + Serialize(Value())
      ensures forall i :: end <= i < target.Length ==> target[i] == old(target[i])
    {
      ghost var m, start := Value(), target[..from];
      ghost var r1 := VarintOf(1, m.msgType);
      ghost var r2 := r1 + VarintOf(2, m.id);
      ghost var r3 := r2 + VarintOf(3, m.serviceId);
      ghost var r4 := r3 + VarintOf(4, m.methodId);
      ghost var r5 := r4 + BytesOf(5, m.request);
      ghost var r6 := r5 + BytesOf(6, m.response);
      ghost var r7 := r6 + VarintOf(7, m.error);
      ghost var limit := from + |Serialize(m)|;
      assert [] + r1 == r1;
      PrefixFits(r7, unknown);
      PrefixFits(r6, VarintOf(7, m.error));
      PrefixFits(r5, BytesOf(6, m.response));
      PrefixFits(r4, BytesOf(5, m.request));
      PrefixFits(r3, VarintOf(4, m.methodId));
      PrefixFits(r2, VarintOf(3, m.serviceId));
      PrefixFits(r1, VarintOf(2, m.id));
      end := from;
      end := WriteNumberToArray(1, Field(hasBits, TypeBit, msgType), target, end, limit, start, []);
      end := WriteNumberToArray(2, Field(hasBits, IdBit, id), target, end, limit, start, r1);
      end := WriteNumberToArray(3, Field(hasBits, ServiceIdBit, serviceId), target, end, limit, start, r2);
      end := WriteNumberToArray(4, Field(hasBits, MethodIdBit, methodId), target, end, limit, start, r3);
      end := WriteBytesToArray(5, Field(hasBits, RequestBit, request), target, end, limit, start, r4);
      end := WriteBytesToArray(6, Field(hasBits, ResponseBit, response), target, end, limit, start, r5);
      end := WriteNumberToArray(7, Field(hasBits, ErrorBit, error), target, end, limit, start, r6);
      Snoc(start, r7, unknown);
      end := CopyToArray(WireAll(unknown), target, end);
    }

    /** One optional record in place. The array holds `start` and then `done` up to
        `at`, and nothing from `limit` on is touched. */
    static method WriteNumberToArray(number: FieldNumber, value: Option<int>, target: array<byte>, at: nat,
                                     ghost limit: nat, ghost start: seq<byte>, ghost done: seq<Record>)
      returns (end: nat)
      requires |start| + |WireAll(done + VarintOf(number, value))| <= limit <= target.Length
      requires at == |start| + |WireAll(done)| <= target.Length && target[..at] == start + WireAll(done)
      modifies target
      ensures end == |start| + |WireAll(done + VarintOf(number, value))|
      ensures target[..end] == start + WireAll(done + VarintOf(number, value))
      ensures forall i :: limit <= i < target.Length ==> target[i] == old(target[i])
    {
      end := at;
      NumberWire(number, value, target[..at]);
      Snoc(start, done, VarintOf(number, value));
      if value.Some? {
        end := WriteVarintToArray(8 * number, target, end);
        end := WriteVarintToArray(ToUint64(value.value), target, end);
      }
    }

    static method WriteBytesToArray(number: FieldNumber, value: Option<seq<byte>>, target: array<byte>, at: nat,
                                    ghost limit: nat, ghost start: seq<byte>, ghost done: seq<Record>)
      returns (end: nat)
      requires value.Some? ==> |value.value| < TWO_31
      requires |start| + |WireAll(done + BytesOf(number, value))| <= limit <= target.Length
      requires at == |start| + |WireAll(done)| <= target.Length && target[..at] == start + WireAll(done)
      modifies target
      ensures end == |start| + |WireAll(done + BytesOf(number, value))|
      ensures target[..end] == start + WireAll(done + BytesOf(number, value))
      ensures forall i :: limit <= i < target.Length ==> target[i] == old(target[i])
    {
      end := at;
      BytesWire(number, value, target[..at]);
      Snoc(start, done, BytesOf(number, value));
      if value.Some? {
        end := WriteVarintToArray(8 * number + 2, target, end);
        end := WriteVarintToArray(|value.value|, target, end);
        end := CopyToArray(value.value, target, end);
      }
    }

    // ---------- Sizes ----------

    /** Size of the required fields that are there. */
    method RequiredFieldsByteSizeFallback() returns (size: nat)
      ensures size == |WireAll(VarintOf(1, Value().msgType))| + |WireAll(VarintOf(2, Value().id))|
                      + |WireAll(VarintOf(3, Value().serviceId))| + |WireAll(VarintOf(4, Value().methodId))|
    {
      NumberSizes(Value());
      size := 0;
      if IdBit in hasBits { size := size + 1 + Size64(ToUint64(id)); }
      if ServiceIdBit in hasBits { size := size + 1 + Size64(serviceId); }
      if MethodIdBit in hasBits { size := size + 1 + Size64(methodId); }
      if TypeBit in hasBits { size := size + 1 + Size64(msgType); }
    }

    /** The number of bytes the serializers emit, on the fast path for a message
        with all required fields and on the fallback; beyond 2^32 bytes only that it is
        beyond. */
    method ByteSizeLong() returns (size: nat)
      ensures SizeAgrees(size, |Serialize(Value())|)
    {
      ghost var m := Value();
      NumberSizes(m);
      size := RecordsSize(unknown);
      if hasBits * REQUIRED == REQUIRED {
        assert {IdBit, ServiceIdBit, MethodIdBit, TypeBit} <= hasBits;
        size := size + 1 + Size64(ToUint64(id));
        size := size + 1 + Size64(serviceId);
        size := size + 1 + Size64(methodId);
        size := size + 1 + Size64(msgType);
      } else {
        var required := RequiredFieldsByteSizeFallback();
        size := size + required;
      }
      assert size == RecordsSize(unknown) + NumberSize(m.msgType) + NumberSize(m.id)
                     + NumberSize(m.serviceId) + NumberSize(m.methodId);
      var optional := OptionalBytesSize();
      size := size + optional;
      if ErrorBit in hasBits { size := size + 1 + Size64(error); }
      TotalSizeAgrees(m, size);
    }

    /** The part of ByteSizeLong for the two byte fields. */
    method OptionalBytesSize() returns (size: nat)
      ensures size == BytesSize(Value().request) + BytesSize(Value().response)
    {
      size := 0;
      ghost var both := hasBits * {RequestBit, ResponseBit};
      assert RequestBit in hasBits ==> RequestBit in both;
      assert ResponseBit in hasBits ==> ResponseBit in both;
      if hasBits * {RequestBit, ResponseBit} != {} {
        if RequestBit in hasBits {
          size := size + 1 + DelimitedSize(|request|);
        }
        if ResponseBit in hasBits {
          size := size + 1 + DelimitedSize(|response|);
        }
      }
    }
  }

  method CopyToArray(bytes: seq<byte>, target: array<byte>, at: nat) returns (end: nat)
    requires at + |bytes| <= target.Length
    modifies target
    ensures end == at + |bytes|
    ensures target[..end] == old(target[..at]) + bytes
    ensures forall i :: end <= i < target.Length ==> target[i] == old(target[i])
  {
    end := at + |bytes|;
    for i := 0 to |bytes|
      invariant target[..at + i] == old(target[..at]) + bytes[..i]
      invariant forall j :: end <= j < target.Length ==> target[j] == old(target[j])
    {
      target[at + i] := bytes[i];
    }
  }

  function NumberSize(value: Option<int>): nat {
    if value.Some? then 1 + Size64(ToUint64(value.value)) else 0
  }

  function BytesSize(value: Option<seq<byte>>): nat {
    if value.Some? then 1 + DelimitedSize(|value.value|) else 0
  }

  lemma NumberSizes(m: Message)
    ensures |WireAll(VarintOf(1, m.msgType))| == NumberSize(m.msgType)
    ensures |WireAll(VarintOf(2, m.id))| == NumberSize(m.id)
    ensures |WireAll(VarintOf(3, m.serviceId))| == NumberSize(m.serviceId)
    ensures |WireAll(VarintOf(4, m.methodId))| == NumberSize(m.methodId)
    ensures |WireAll(VarintOf(7, m.error))| == NumberSize(m.error)
  {
    NumberSizeExact(1, m.msgType);
    NumberSizeExact(2, m.id);
    NumberSizeExact(3, m.serviceId);
    NumberSizeExact(4, m.methodId);
    NumberSizeExact(7, m.error);
  }

  lemma NumberSizeExact(number: FieldNumber, value: Option<int>)
    requires number <= 7
    ensures |WireAll(VarintOf(number, value))| == NumberSize(value)
  {
    NumberWire(number, value, []);
    if value.Some? { Size64Exact(ToUint64(value.value)); }
  }

  lemma NumberShort(number: FieldNumber, value: Option<int>)
    requires number <= 7
    ensures |WireAll(VarintOf(number, value))| <= 11
  {
    NumberSizeExact(number, value);
  }

  lemma BytesSizes(m: Message)
    ensures SizeAgrees(BytesSize(m.request), |WireAll(BytesOf(5, m.request))|)
    ensures SizeAgrees(BytesSize(m.response), |WireAll(BytesOf(6, m.response))|)
  {
    BytesSizeExact(5, m.request);
    BytesSizeExact(6, m.response);
  }

  lemma BytesSizeExact(number: FieldNumber, value: Option<seq<byte>>)
    requires number <= 7
    ensures SizeAgrees(BytesSize(value), |WireAll(BytesOf(number, value))|)
    ensures value.Some? && |value.value| < TWO_32 ==> |WireAll(BytesOf(number, value))| == BytesSize(value)
  {
    BytesWire(number, value, []);
    if value.Some? {
      DelimitedAgrees(value.value);
      if |value.value| < TWO_32 { Size64Exact(|value.value|); }
    }
  }

  function NumberBytes(tag: uint32, value: Option<int>): seq<byte> {
    if value.Some? then Encode(tag) + Encode(ToUint64(value.value)) else []
  }

  function PayloadBytes(tag: uint32, value: Option<seq<byte>>): seq<byte> {
    if value.Some? then Encode(tag) + Encode(|value.value|) + value.value else []
  }

  /** The bytes of a message, field by field: each present field under its tag, in the
      order of the field numbers, and behind them the unknown records. */
  lemma MessageLayout(m: Message)
    ensures Serialize(m) == NumberBytes(8, m.msgType) + NumberBytes(16, m.id) + NumberBytes(24, m.serviceId)
                            + NumberBytes(32, m.methodId) + PayloadBytes(42, m.request) + PayloadBytes(50, m.response)
                            + NumberBytes(56, m.error) + WireAll(m.unknown)
  {
    var r1 := VarintOf(1, m.msgType);
    var r2 := r1 + VarintOf(2, m.id);
    var r3 := r2 + VarintOf(3, m.serviceId);
    var r4 := r3 + VarintOf(4, m.methodId);
    var r5 := r4 + BytesOf(5, m.request);
    var r6 := r5 + BytesOf(6, m.response);
    var r7 := r6 + VarintOf(7, m.error);
    WireAllAppend(r1, VarintOf(2, m.id));
    WireAllAppend(r2, VarintOf(3, m.serviceId));
    WireAllAppend(r3, VarintOf(4, m.methodId));
    WireAllAppend(r4, BytesOf(5, m.request));
    WireAllAppend(r5, BytesOf(6, m.response));
    WireAllAppend(r6, VarintOf(7, m.error));
    WireAllAppend(r7, m.unknown);
    NumberLayout(1, m.msgType);
    NumberLayout(2, m.id);
    NumberLayout(3, m.serviceId);
    NumberLayout(4, m.methodId);
    PayloadLayout(5, m.request);
    PayloadLayout(6, m.response);
    NumberLayout(7, m.error);
  }

  lemma NumberLayout(number: FieldNumber, value: Option<int>)
    requires number <= 7
    ensures WireAll(VarintOf(number, value)) == NumberBytes(8 * number, value)
  {
    if value.Some? {
      WireOne(Record.Varint(number, ToUint64(value.value)));
    }
  }

  lemma PayloadLayout(number: FieldNumber, value: Option<seq<byte>>)
    requires number <= 7
    ensures WireAll(BytesOf(number, value)) == PayloadBytes(8 * number + 2, value)
  {
    if value.Some? {
      WireOne(Record.Bytes(number, value.value));
      Assoc([], Encode(8 * number + 2), Encode(|value.value|), value.value);
      assert [] + Encode(8 * number + 2) == Encode(8 * number + 2);
    }
  }

  /** The whole is as long as its records together. */
  lemma SerializedSize(m: Message)
    ensures |Serialize(m)| == |WireAll(VarintOf(1, m.msgType))| + |WireAll(VarintOf(2, m.id))|
                              + |WireAll(VarintOf(3, m.serviceId))| + |WireAll(VarintOf(4, m.methodId))|
                              + |WireAll(BytesOf(5, m.request))| + |WireAll(BytesOf(6, m.response))|
                              + |WireAll(VarintOf(7, m.error))| + |WireAll(m.unknown)|
  {
    var r1 := VarintOf(1, m.msgType);
    var r2 := r1 + VarintOf(2, m.id);
    var r3 := r2 + VarintOf(3, m.serviceId);
    var r4 := r3 + VarintOf(4, m.methodId);
    var r5 := r4 + BytesOf(5, m.request);
    var r6 := r5 + BytesOf(6, m.response);
    var r7 := r6 + VarintOf(7, m.error);
    WireAllAppend(r1, VarintOf(2, m.id));
    WireAllAppend(r2, VarintOf(3, m.serviceId));
    WireAllAppend(r3, VarintOf(4, m.methodId));
    WireAllAppend(r4, BytesOf(5, m.request));
    WireAllAppend(r5, BytesOf(6, m.response));
    WireAllAppend(r6, VarintOf(7, m.error));
    WireAllAppend(r7, m.unknown);
  }

  lemma SumAgrees(a: nat, aLength: nat, b: nat, bLength: nat)
    requires SizeAgrees(a, aLength) && SizeAgrees(b, bLength)
    ensures SizeAgrees(a + b, aLength + bLength)
  {
  }

  lemma TotalSizeAgrees(m: Message, size: nat)
    requires size == RecordsSize(m.unknown) + NumberSize(m.msgType) + NumberSize(m.id)
                     + NumberSize(m.serviceId) + NumberSize(m.methodId)
                     + (BytesSize(m.request) + BytesSize(m.response)) + NumberSize(m.error)
    ensures SizeAgrees(size, |Serialize(m)|)
  {
    NumberSizes(m);
    BytesSizes(m);
    SerializedSize(m);
    RecordsSizeExact(m.unknown);
    var request, response := |WireAll(BytesOf(5, m.request))|, |WireAll(BytesOf(6, m.response))|;
    SumAgrees(BytesSize(m.request), request, BytesSize(m.response), response);
    var payloads := BytesSize(m.request) + BytesSize(m.response);
    SumAgrees(RecordsSize(m.unknown), |WireAll(m.unknown)|, payloads, request + response);
  }

  /** A byte field is shorter than its record. */
  lemma PayloadWithin(number: FieldNumber, value: Option<seq<byte>>)
    ensures value.Some? ==> |value.value| < |WireAll(BytesOf(number, value))|
  {
    if value.Some? {
      WireOne(Record.Bytes(number, value.value));
    }
  }

  lemma PrefixFits(rs: seq<Record>, more: seq<Record>)
    ensures |WireAll(rs)| <= |WireAll(rs + more)|
  {
    WireAllAppend(rs, more);
  }

  lemma NumberWire(number: FieldNumber, value: Option<int>, start: seq<byte>)
    ensures start + WireAll(VarintOf(number, value))
         == if value.Some? then start + Encode(8 * number) + Encode(ToUint64(value.value)) else start
  {
    if value.Some? {
      WireOne(Record.Varint(number, ToUint64(value.value)));
    }
  }

  lemma BytesWire(number: FieldNumber, value: Option<seq<byte>>, start: seq<byte>)
    ensures start + WireAll(BytesOf(number, value))
         == if value.Some? then start + Encode(8 * number + 2) + Encode(|value.value|) + value.value else start
  {
    if value.Some? {
      WireOne(Record.Bytes(number, value.value));
      Assoc(start, Encode(8 * number + 2), Encode(|value.value|), value.value);
    }
  }

  lemma Assoc(a: seq<byte>, b: seq<byte>, c: seq<byte>, d: seq<byte>)
    ensures a + b + c + d == a + (b + (c + d))
  {
  }

  lemma Snoc(start: seq<byte>, rs: seq<Record>, more: seq<Record>)
    ensures start + WireAll(rs + more) == start + WireAll(rs) + WireAll(more)
  {
    WireAllAppend(rs, more);
    assert start + (WireAll(rs) + WireAll(more)) == start + WireAll(rs) + WireAll(more);
  }
}
