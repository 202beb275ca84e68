/** The client and server pipelines of the RPC stack: message serializer on top of
    the two framing codecs, with the configuration both pipelines use. */
module WireStack {
  import opened MachineInt
  import opened Varint
  import opened Message
  import opened MessageLaws
  import opened FrameDecoder
  import opened Framing
  import P = Prepender
  import R = RpcMessage

  const PREPENDER := P.Config(2, 0, false, true)
  const DECODER := Config(2, 65536, 0, 0, 2, true)

  const MAX_MESSAGE := 65534

  predicate Sendable(m: Message) {
    m.Encodable() && |Serialize(m)| <= MAX_MESSAGE
  }

  /** What the message handler hands to the prepender. Beyond the range of `int` the
      library only reports a failure, which nobody looks at, and the string is empty. */
  function Outgoing(m: Message): seq<byte> {
    if |Serialize(m)| < TWO_31 then Serialize(m) else []
  }

  /** One message on the wire, or the prepender's exception. */
  function OnWire(m: Message): P.Outcome { P.Prepend(PREPENDER, Outgoing(m)) }

  /** Neither a length that only one side accepts nor one that the library refuses. */
  predicate SafeSize(m: Message) {
    |Serialize(m)| != MAX_MESSAGE + 1 && |Serialize(m)| < TWO_31
  }

  /** The prepender throws exactly for lengths that fit `int` and not the field. */
  lemma WrittenExactly(m: Message)
    ensures OnWire(m).Written? <==> |Serialize(m)| <= MAX_MESSAGE + 1 || |Serialize(m)| >= TWO_31
    ensures !OnWire(m).Written? ==> OnWire(m) == P.LengthDoesNotFit
  {
    FieldValueExact(PREPENDER, |Outgoing(m)|);
  }

  lemma SendableIsWritten(m: Message)
    requires Sendable(m)
    ensures OnWire(m).Written? && |OnWire(m).bytes| == 2 + |Serialize(m)|
  {
    WrittenExactly(m);
  }

  ghost predicate AllSendable(ms: seq<Message>) {
    forall m :: m in ms ==> Sendable(m)
  }

  ghost function Stream(ms: seq<Message>): seq<byte>
    requires AllSendable(ms)
  {
    if ms == [] then []
    else
      SendableIsWritten(ms[0]);
      OnWire(ms[0]).bytes + Stream(ms[1..])
  }

  /** The messages handed to the dispatcher: every frame is parsed into an empty
      message and passed on, whatever the parse says. */
  function Parsed(events: seq<Event>): seq<Message> {
    if events == [] then []
    else if events[0].Delivered? then [Parse(EMPTY, events[0].frame).0] + Parsed(events[1..])
    else Parsed(events[1..])
  }

  // ---------- One message ----------

  /** A message crosses the wire exactly when it serializes to at most 65534 bytes. */
  lemma MessageDelivered(m: Message)
    ensures RoundTrips(PREPENDER, DECODER, Serialize(m)) <==> |Serialize(m)| <= MAX_MESSAGE
  {
    FramingRoundTrip(PREPENDER, DECODER, Serialize(m));
    if |Serialize(m)| < TWO_31 {
      CompatiblePlainly(PREPENDER, DECODER, |Serialize(m)|);
    }
  }

  /** One byte more and the prepender still accepts the message, but the decoder
      rejects the frame. */
  lemma LimitIsSharp(m: Message)
    requires |Serialize(m)| == MAX_MESSAGE + 1
    ensures OnWire(m).Written?
    ensures DecodeStep(DECODER, OnWire(m).bytes) == (TooLarge, [])
  {
    FieldValueExact(PREPENDER, |Serialize(m)|);
    FieldReadsBack(PREPENDER, DECODER, Serialize(m));
    var bytes := OnWire(m).bytes;
    assert bytes[Min(FrameLength(DECODER, bytes), |bytes|)..] == [];
  }

  /** There is such a message: a request of 65531 bytes without anything else. */
  lemma SharpMessage() returns (m: Message)
    ensures m.Encodable() && |Serialize(m)| == MAX_MESSAGE + 1
  {
    var payload: seq<byte> := seq(MAX_MESSAGE - 3, i => 0);
    m := EMPTY.(request := Some(payload));
    R.SerializedSize(m);
    R.BytesSizes(m);
    assert WireAll([]) == [];
  }

  /** A message with nothing but an id fits. */
  lemma IdOnlyFits(id: int64)
    ensures OnWire(EMPTY.(id := Some(id))).Written?
  {
    var m := EMPTY.(id := Some(id));
    R.SerializedSize(m);
    R.NumberSizes(m);
    assert WireAll([]) == [];
    WrittenExactly(m);
  }

  /** A message beyond the range of `int` goes out as an empty frame, which arrives as
      the empty message. */
  lemma HugeArrivesEmpty(m: Message)
    requires |Serialize(m)| >= TWO_31
    ensures OnWire(m).Written? && RoundTrips(PREPENDER, DECODER, []) && Parse(EMPTY, []).0 == EMPTY
  {
    WrittenExactly(m);
    FramingRoundTrip(PREPENDER, DECODER, []);
    CompatiblePlainly(PREPENDER, DECODER, 0);
  }

  // ---------- Streams ----------

  /** Decoding and parsing these bytes gives these messages and leaves this tail. */
  predicate Carries(bytes: seq<byte>, ms: seq<Message>, tail: seq<byte>) {
    var (events, left) := DecodeAll(DECODER, bytes);
    NoError(events) && Parsed(events) == ms && left == tail
  }

  lemma StreamCons(ms: seq<Message>, tail: seq<byte>)
    requires ms != [] && AllSendable(ms)
    ensures AllSendable(ms[1..]) && Sendable(ms[0]) && OnWire(ms[0]).Written?
    ensures Stream(ms) + tail == OnWire(ms[0]).bytes + (Stream(ms[1..]) + tail)
  {
    assert ms[0] in ms;
    SendableIsWritten(ms[0]);
    Assoc(OnWire(ms[0]).bytes, Stream(ms[1..]), tail);
  }

  lemma Assoc(a: seq<byte>, b: seq<byte>, c: seq<byte>)
    ensures (a + b) + c == a + (b + c)
  {
  }

  lemma {:induction false} DecodeStream(ms: seq<Message>, tail: seq<byte>)
    requires AllSendable(ms)
    requires DecodeStep(DECODER, tail).0.NeedMore?
    ensures Carries(Stream(ms) + tail, ms, tail)
    decreases |ms|
  {
    if ms == [] {
      TailAlone(tail);
      assert Stream(ms) + tail == tail;
    } else {
      StreamCons(ms, tail);
      DecodeStream(ms[1..], tail);
      StreamStep(ms[0], Stream(ms[1..]) + tail, ms[1..], tail);
      assert [ms[0]] + ms[1..] == ms;
    }
  }

  lemma TailAlone(tail: seq<byte>)
    requires DecodeStep(DECODER, tail).0.NeedMore?
    ensures Carries(tail, [], tail)
  {
    DecodeSafety(DECODER, tail);
  }

  lemma StreamStep(m: Message, rest: seq<byte>, ms: seq<Message>, tail: seq<byte>)
    requires Sendable(m) && Carries(rest, ms, tail)
    ensures OnWire(m).Written? && Carries(OnWire(m).bytes + rest, [m] + ms, tail)
  {
    SendableIsWritten(m);
    MessageDelivered(m);
    DecodeStepMonotone(DECODER, OnWire(m).bytes, rest);
    var none: seq<byte> := [];
    assert none + rest == rest;
    DecodeAllFrame(DECODER, OnWire(m).bytes + rest, Serialize(m), rest);
    NoErrorCons(Serialize(m), DecodeAll(DECODER, rest).0);
    MessageRoundTrip(m);
    ParsedCons(Serialize(m), DecodeAll(DECODER, rest).0);
  }

  lemma ParsedCons(frame: seq<byte>, events: seq<Event>)
    ensures Parsed([Delivered(frame)] + events) == [Parse(EMPTY, frame).0] + Parsed(events)
  {
    assert ([Delivered(frame)] + events)[1..] == events;
  }

  /** Any messages within the limit, sent back to back and cut into reads in any
      way, arrive as exactly those messages in order; an incomplete frame behind
      them stays in the buffer. */
  lemma FullStack(ms: seq<Message>, tail: seq<byte>, chunks: seq<seq<byte>>)
    requires AllSendable(ms)
    requires DecodeStep(DECODER, tail).0.NeedMore?
    requires Flatten(chunks) == Stream(ms) + tail
    ensures var (events, left) := Receive(DECODER, [], chunks);
            NoError(events) && Parsed(events) == ms && left == tail
  {
    DecodeStream(ms, tail);
    CarriedInReads(Stream(ms) + tail, ms, tail, chunks);
  }

  lemma CarriedInReads(bytes: seq<byte>, ms: seq<Message>, tail: seq<byte>, chunks: seq<seq<byte>>)
    requires Carries(bytes, ms, tail) && Flatten(chunks) == bytes
    ensures var (events, left) := Receive(DECODER, [], chunks);
            NoError(events) && Parsed(events) == ms && left == tail
  {
    var none: seq<byte> := [];
    assert none + Flatten(chunks) == bytes;
    ChunkIndependence(DECODER, none, chunks);
  }

  /** What has arrived of a frame, short of all of it, is such a tail. */
  lemma PartialFrameWaits(m: Message, k: nat)
    requires Sendable(m) && OnWire(m).Written? && k < |OnWire(m).bytes|
    ensures DecodeStep(DECODER, OnWire(m).bytes[..k]).0.NeedMore?
  {
    WholeLength(m);
    if k >= 2 { SameHeader(OnWire(m).bytes, k); }
  }

  lemma WholeLength(m: Message)
    requires Sendable(m) && OnWire(m).Written?
    ensures |OnWire(m).bytes| >= 2 && FrameLength(DECODER, OnWire(m).bytes) == |OnWire(m).bytes| <= DECODER.maxFrame
  {
    FieldValueExact(PREPENDER, |Serialize(m)|);
    FieldReadsBack(PREPENDER, DECODER, Serialize(m));
  }

  lemma SameHeader(bytes: seq<byte>, k: nat)
    requires 2 <= k <= |bytes|
    ensures FrameLength(DECODER, bytes[..k]) == FrameLength(DECODER, bytes)
  {
    assert bytes[..k][0..2] == bytes[0..2];
  }

  // ---------- One direction of a connection ----------

  /** The bytes under way, and those received that are not yet a whole frame. */
  datatype Link = Link(wire: seq<byte>, buffer: seq<byte>)

  const QUIET := Link([], [])

  /** Writing a message; one that the prepender throws for leaves nothing. */
  function Put(link: Link, m: Message): Link {
    if OnWire(m).Written? then link.(wire := link.wire + OnWire(m).bytes) else link
  }

  /** One read of `size` bytes: the messages it completes. */
  function Take(link: Link, size: nat): (seq<Message>, Link)
    requires size <= |link.wire|
  {
    var (events, left) := DecodeAll(DECODER, link.buffer + link.wire[..size]);
    (Parsed(events), Link(link.wire[size..], left))
  }

  /** What is under way is these messages, of the first of which a part may have been
      received. */
  ghost predicate Flow(link: Link, ms: seq<Message>) {
    AllSendable(ms) && link.buffer + link.wire == Stream(ms) && DecodeStep(DECODER, link.buffer).0.NeedMore?
  }

  lemma StreamFirst(ms: seq<Message>)
    requires ms != [] && AllSendable(ms)
    ensures AllSendable(ms[1..]) && Sendable(ms[0]) && OnWire(ms[0]).Written?
    ensures Stream(ms) == OnWire(ms[0]).bytes + Stream(ms[1..])
  {
    assert ms[0] in ms;
    SendableIsWritten(ms[0]);
  }

  lemma {:induction false} StreamAppend(ms: seq<Message>, m: Message)
    requires AllSendable(ms) && Sendable(m)
    ensures AllSendable(ms + [m]) && OnWire(m).Written? && Stream(ms + [m]) == Stream(ms) + OnWire(m).bytes
    decreases |ms|
  {
    SendableIsWritten(m);
    AppendSendable(ms, m);
    if ms == [] {
      assert ms + [m] == [m] && [m][1..] == [];
      assert OnWire(m).bytes + [] == OnWire(m).bytes && [] + OnWire(m).bytes == OnWire(m).bytes;
    } else {
      var longer := ms + [m];
      assert longer[1..] == ms[1..] + [m] && longer[0] == ms[0];
      StreamFirst(ms);
      StreamFirst(longer);
      StreamAppend(ms[1..], m);
      Assoc(OnWire(ms[0]).bytes, Stream(ms[1..]), OnWire(m).bytes);
    }
  }

  lemma AppendSendable(ms: seq<Message>, m: Message)
    requires AllSendable(ms) && Sendable(m)
    ensures AllSendable(ms + [m])
  {
  }

  /** A message without request and unknown records that is short enough can be read. */
  lemma ResponseWithin(m: Message)
    requires SafeSize(m) && m.request == None && m.unknown == []
    ensures m.Encodable()
  {
    R.SerializedSize(m);
    R.PayloadWithin(6, m.response);
  }

  /** So a response of a byte or less is always within the limit. */
  lemma ShortAnswer(m: Message)
    requires m.request == None && m.unknown == [] && |m.GetResponse()| <= 1
    ensures Sendable(m) && OnWire(m).Written? && SafeSize(m)
  {
    ShortParts(m);
    R.SerializedSize(m);
    WrittenExactly(m);
  }

  lemma ShortParts(m: Message)
    requires m.request == None && m.unknown == [] && |m.GetResponse()| <= 1
    ensures |WireAll(VarintOf(1, m.msgType))| <= 11 && |WireAll(VarintOf(2, m.id))| <= 11
    ensures |WireAll(VarintOf(3, m.serviceId))| <= 11 && |WireAll(VarintOf(4, m.methodId))| <= 11
    ensures |WireAll(BytesOf(5, m.request))| == 0 && |WireAll(BytesOf(6, m.response))| <= 12
    ensures |WireAll(VarintOf(7, m.error))| <= 11 && |WireAll(m.unknown)| == 0
  {
    R.NumberShort(1, m.msgType);
    R.NumberShort(2, m.id);
    R.NumberShort(3, m.serviceId);
    R.NumberShort(4, m.methodId);
    R.NumberShort(7, m.error);
    R.BytesSizeExact(6, m.response);
  }

  /** A message that fits `int` has byte fields that do. */
  lemma ShortPayloads(m: Message)
    requires |Serialize(m)| < TWO_31
    ensures m.PayloadsFit()
  {
    R.SerializedSize(m);
    R.PayloadWithin(5, m.request);
    R.PayloadWithin(6, m.response);
  }

  lemma PutFlows(link: Link, m: Message, ms: seq<Message>)
    requires Flow(link, ms) && m.Encodable() && SafeSize(m)
    ensures Flow(Put(link, m), if OnWire(m).Written? then ms + [m] else ms)
    ensures OnWire(m).Written? ==> Sendable(m)
  {
    WrittenExactly(m);
    if OnWire(m).Written? {
      StreamAppend(ms, m);
      Assoc(link.buffer, link.wire, OnWire(m).bytes);
    }
  }

  lemma SplitPrefix(prefix: seq<byte>, more: seq<byte>, frame: seq<byte>, rest: seq<byte>)
    requires prefix + more == frame + rest
    ensures |prefix| < |frame| ==> prefix == frame[..|prefix|]
    ensures |prefix| >= |frame| ==> prefix == frame + prefix[|frame|..] && prefix[|frame|..] + more == rest
  {
    var all := prefix + more;
    if |prefix| < |frame| {
      assert prefix == all[..|prefix|] == frame[..|prefix|];
    } else {
      assert prefix[..|frame|] == all[..|frame|] == frame;
      assert prefix[|frame|..] + more == all[|frame|..] == rest;
    }
  }

  /** What a prefix of a stream decodes to: the first messages, and the beginning of
      the others. */
  ghost predicate Decodes(prefix: seq<byte>, more: seq<byte>, ms: seq<Message>, j: nat, left: seq<byte>) {
    && j <= |ms| && AllSendable(ms[j..])
    && Carries(prefix, ms[..j], left)
    && left + more == Stream(ms[j..]) && DecodeStep(DECODER, left).0.NeedMore?
  }

  lemma NoneYet(ms: seq<Message>, prefix: seq<byte>, more: seq<byte>)
    requires AllSendable(ms) && prefix + more == Stream(ms) && DecodeStep(DECODER, prefix).0.NeedMore?
    ensures Decodes(prefix, more, ms, 0, prefix)
  {
    TailAlone(prefix);
    assert ms[0..] == ms && ms[..0] == [];
  }

  lemma OneMore(ms: seq<Message>, later: seq<byte>, more: seq<byte>, k: nat, left: seq<byte>)
    requires ms != [] && AllSendable(ms) && OnWire(ms[0]).Written? && Decodes(later, more, ms[1..], k, left)
    ensures Decodes(OnWire(ms[0]).bytes + later, more, ms, k + 1, left)
  {
    assert ms[0] in ms;
    StreamStep(ms[0], later, ms[1..][..k], left);
    Shifted(ms, k);
  }

  lemma Shifted(ms: seq<Message>, k: nat)
    requires ms != [] && k < |ms|
    ensures [ms[0]] + ms[1..][..k] == ms[..k + 1] && ms[1..][k..] == ms[k + 1..]
  {
  }

  /** A prefix of a stream of messages decodes to the first of them; what it leaves
      goes on with the others. */
  lemma {:induction false} PrefixDecodes(ms: seq<Message>, prefix: seq<byte>, more: seq<byte>)
    returns (j: nat, left: seq<byte>)
    requires AllSendable(ms) && prefix + more == Stream(ms)
    ensures Decodes(prefix, more, ms, j, left)
    decreases |ms|
  {
    if ms == [] {
      j, left := 0, prefix;
      assert prefix == [];
      NoneYet(ms, prefix, more);
    } else {
      StreamFirst(ms);
      var frame := OnWire(ms[0]).bytes;
      SplitPrefix(prefix, more, frame, Stream(ms[1..]));
      if |prefix| < |frame| {
        PartialFrameWaits(ms[0], |prefix|);
        j, left := 0, prefix;
        NoneYet(ms, prefix, more);
      } else {
        j, left := PrefixDecodes(ms[1..], prefix[|frame|..], more);
        OneMore(ms, prefix[|frame|..], more, j, left);
        j := j + 1;
      }
    }
  }

  /** A message read in one piece. */
  lemma OneMessage(m: Message)
    requires Sendable(m)
    ensures OnWire(m).Written? && |OnWire(m).bytes| > 0
    ensures Take(Link(OnWire(m).bytes, []), |OnWire(m).bytes|) == ([m], QUIET)
  {
    SendableIsWritten(m);
    var bytes := OnWire(m).bytes;
    var none: seq<byte> := [];
    assert none + bytes[..|bytes|] == bytes && bytes + none == bytes;
    TailAlone(none);
    StreamStep(m, none, [], none);
    assert bytes[|bytes|..] == none && [m] + [] == [m];
  }

  lemma TakeFlows(link: Link, size: nat, ms: seq<Message>) returns (j: nat)
    requires Flow(link, ms) && size <= |link.wire|
    ensures j <= |ms| && Take(link, size).0 == ms[..j] && Flow(Take(link, size).1, ms[j..])
  {
    var chunk, more := link.wire[..size], link.wire[size..];
    assert (link.buffer + chunk) + more == link.buffer + link.wire by {
      assert link.wire == chunk + more;
    }
    var left;
    j, left := PrefixDecodes(ms, link.buffer + chunk, more);
  }

  // ---------- The handlers ----------

  /** RpcMsgSerializeHandler: objects on the dispatcher's side, bytes below. */
  class RpcMsgSerializeHandler {
    constructor () {}

    method Read(bytes: seq<byte>) returns (message: R.RpcMessage)
      ensures fresh(message) && message.Valid()
      ensures message.Value() == Parse(EMPTY, bytes).0
    {
      message := new R.RpcMessage();
      var input := new CodedInputStream(bytes);
      var status := message.MergePartialFromCodedStream(input);
    }

    method Write(message: R.RpcMessage) returns (bytes: seq<byte>)
      ensures bytes == Outgoing(message.Value())
    {
      var size := message.ByteSizeLong();
      if size >= TWO_31 {
        return [];
      }
      ShortPayloads(message.Value());
      var output := new CodedOutputStream();
      message.SerializeWithCachedSizes(output);
      bytes := output.written;
    }
  }

  /** One read of the receiving pipeline, up to the messages it hands on. */
  method PipelineRead(decoder: LengthFieldBasedFrameDecoder, handler: RpcMsgSerializeHandler,
                      buf: IOBufQueue, chunk: seq<byte>)
    returns (received: seq<Message>)
    requires decoder.config == DECODER && |buf.data| + |chunk| < TWO_63
    modifies buf
    ensures received == Parsed(DecodeAll(DECODER, old(buf.data) + chunk).0)
    ensures buf.data == DecodeAll(DECODER, old(buf.data) + chunk).1
  {
    buf.Append(chunk);
    var events := ReadAll(decoder, buf);
    received := [];
    var rest := events;
    while rest != []
      invariant received + Parsed(rest) == Parsed(events)
      invariant buf.data == DecodeAll(DECODER, old(buf.data) + chunk).1
      decreases |rest|
    {
      if rest[0].Delivered? {
        var message := handler.Read(rest[0].frame);
        received := received + [message.Value()];
      }
      rest := rest[1..];
    }
  }
}
