/** Messages of 65535 bytes, which the prepender accepts and the decoder does not, and
    longer ones, for which the prepender throws: what they do to calls. */
module Oversize {
  import opened MachineInt
  import opened ByteOrder
  import opened Varint
  import opened Message
  import opened MessageLaws
  import opened FrameDecoder
  import opened Framing
  import opened ClientDispatcher
  import opened RpcServer
  import opened Multiplexing
  import opened Runs
  import opened SharedIds
  import R = RpcMessage
  import W = WireStack

  // ---------- The bytes ----------

  /** As the proxy and the channel build requests. */
  predicate PlainRequest(m: Message) {
    && m.msgType == Some(REQUEST) && m.id.Some? && m.serviceId.Some? && m.methodId.Some?
    && m.request.Some? && m.response == None && m.error == None && m.unknown == []
  }

  /** As `handleRpcCall` fills responses. */
  predicate PlainResponse(m: Message) {
    && m.msgType == Some(RESPONSE) && m.id.Some? && m.serviceId.Some? && m.methodId.Some?
    && m.request == None && m.response.Some? && m.error == Some(NO_ERROR) && m.unknown == []
  }

  predicate Plain(m: Message) { PlainRequest(m) || PlainResponse(m) }

  /** Which call a message is about. */
  function Core(m: Message): Message {
    EMPTY.(id := m.id, serviceId := m.serviceId, methodId := m.methodId)
  }

  function PayloadTag(m: Message): uint32 { if m.request.Some? then 42 else 50 }

  function Payload(m: Message): seq<byte> { if m.request.Some? then m.GetRequest() else m.GetResponse() }

  function WithPayload(core: Message, m: Message, piece: seq<byte>): Message {
    if m.request.Some? then core.(request := Some(piece)) else core.(response := Some(piece))
  }

  /** The type with its tag. */
  function Head(m: Message): seq<byte> {
    var number: byte, value: byte := 8, m.GetType();
    [number, value]
  }

  /** Everything in front of the payload but the type. */
  function Front(m: Message): seq<byte> {
    Serialize(Core(m)) + Encode(PayloadTag(m)) + Encode(|Payload(m)|)
  }

  function Back(m: Message): seq<byte> { WireAll(VarintOf(7, m.error)) }

  lemma CoreRecords(m: Message)
    ensures RecordsOf(Core(m)) == VarintOf(2, m.id) + VarintOf(3, m.serviceId) + VarintOf(4, m.methodId)
  {
  }

  lemma PlainRecords(m: Message)
    requires Plain(m)
    ensures RecordsOf(m) == VarintOf(1, m.msgType)
                            + (RecordsOf(Core(m))
                               + ([Record.Bytes(PayloadTag(m) / 8, Payload(m))] + VarintOf(7, m.error)))
  {
    CoreRecords(m);
  }

  lemma TypeBytes(m: Message)
    requires Plain(m)
    ensures WireAll(VarintOf(1, m.msgType)) == Head(m)
  {
    R.NumberWire(1, m.msgType, []);
    var number: byte, value: byte := 8, m.GetType();
    assert Encode(8) == [number] && Encode(value) == [value];
  }

  lemma PayloadBytes(m: Message)
    requires Plain(m)
    ensures Wire(Record.Bytes(PayloadTag(m) / 8, Payload(m)))
         == Encode(PayloadTag(m)) + (Encode(|Payload(m)|) + Payload(m))
  {
  }

  /** A plain message begins with its type, which is read as a length if the message's
      own length has been dropped. */
  lemma Layout(m: Message)
    requires Plain(m)
    ensures Serialize(m) == Head(m) + (Front(m) + (Payload(m) + Back(m)))
  {
    var payload := [Record.Bytes(PayloadTag(m) / 8, Payload(m))];
    PlainRecords(m);
    WireAllAppend(VarintOf(1, m.msgType), RecordsOf(Core(m)) + (payload + VarintOf(7, m.error)));
    WireAllAppend(RecordsOf(Core(m)), payload + VarintOf(7, m.error));
    WireAllAppend(payload, VarintOf(7, m.error));
    R.WireOne(payload[0]);
    TypeBytes(m);
    PayloadBytes(m);
    Regroup(Serialize(Core(m)), Encode(PayloadTag(m)), Encode(|Payload(m)|), Payload(m), Back(m));
  }

  lemma Regroup(a: seq<byte>, b: seq<byte>, c: seq<byte>, d: seq<byte>, e: seq<byte>)
    ensures a + ((b + (c + d)) + e) == (a + b + c) + (d + e)
  {
  }

  lemma PartsAreShort(m: Message)
    requires Plain(m) && |Serialize(m)| == W.MAX_MESSAGE + 1
    ensures |Front(m)| <= 40 && |Back(m)| <= 11 && |Payload(m)| >= 65000
  {
    Layout(m);
    CoreIsShort(m);
    R.NumberShort(7, m.error);
    Size64Exact(PayloadTag(m));
    LengthIsShort(m);
  }

  lemma CoreIsShort(m: Message)
    ensures |Serialize(Core(m))| <= 33
  {
    R.SerializedSize(Core(m));
    R.NumberShort(2, m.id);
    R.NumberShort(3, m.serviceId);
    R.NumberShort(4, m.methodId);
    assert WireAll([]) == [];
  }

  lemma LengthIsShort(m: Message)
    requires Plain(m) && |Serialize(m)| == W.MAX_MESSAGE + 1
    ensures |Payload(m)| < 65536 && |Encode(|Payload(m)|)| <= 3
  {
    Layout(m);
    assert |Serialize(m)| == 2 + (|Front(m)| + (|Payload(m)| + |Back(m)|));
    Size64Exact(|Payload(m)|);
  }

  /** The frame that its beginning is taken for. */
  function CutLength(m: Message): nat { 2048 + m.GetType() }

  function Piece(m: Message): seq<byte>
    requires |Front(m)| <= CutLength(m) <= |Front(m)| + |Payload(m)|
  {
    Payload(m)[..CutLength(m) - |Front(m)|]
  }

  /** What the message's rest is read as: the same call with a piece of the payload. */
  function Cut(m: Message): Message
    requires |Front(m)| <= CutLength(m) <= |Front(m)| + |Payload(m)|
  {
    WithPayload(Core(m), m, Piece(m))
  }

  lemma CutParses(m: Message)
    requires Plain(m) && |Serialize(m)| == W.MAX_MESSAGE + 1
    ensures |Front(m)| <= CutLength(m) <= |Front(m)| + |Payload(m)| && |Piece(m)| < |Payload(m)|
    ensures Parse(EMPTY, Front(m) + Piece(m)) == (Cut(m), Malformed)
  {
    PartsAreShort(m);
    ParseSerialized(EMPTY, Core(m), PieceRecord(m));
    CoreMerges(m);
    CutPayload(m);
    PieceInFront(Serialize(Core(m)), Encode(PayloadTag(m)), Encode(|Payload(m)|), Piece(m));
  }

  /** The tag and the length of the payload, and as much of it as the frame holds. */
  function PieceRecord(m: Message): seq<byte>
    requires |Front(m)| <= CutLength(m) <= |Front(m)| + |Payload(m)|
  {
    Encode(PayloadTag(m)) + (Encode(|Payload(m)|) + Piece(m))
  }

  lemma PieceInFront(a: seq<byte>, b: seq<byte>, c: seq<byte>, d: seq<byte>)
    ensures a + b + c + d == a + (b + (c + d))
  {
  }

  lemma CoreMerges(m: Message)
    ensures EMPTY.Merge(Core(m)) == Core(m) && Core(m).Encodable()
  {
    assert EMPTY.unknown + Core(m).unknown == [];
  }

  lemma CutPayload(m: Message)
    requires Plain(m) && |Serialize(m)| == W.MAX_MESSAGE + 1
    requires |Front(m)| <= CutLength(m) <= |Front(m)| + |Payload(m)| && |Piece(m)| < |Payload(m)|
    ensures Parse(Core(m), PieceRecord(m)) == (Cut(m), Malformed)
  {
    LengthIsShort(m);
    var body := Encode(|Payload(m)|) + Piece(m);
    Read32Small(PayloadTag(m), body);
    Read32Small(|Payload(m)|, Piece(m));
    PayloadBreaks(Core(m), PayloadTag(m), PieceRecord(m), body, Piece(m));
  }

  lemma PayloadBreaks(core: Message, tag: uint32, s: seq<byte>, body: seq<byte>, piece: seq<byte>)
    requires tag == 42 || tag == 50
    requires s != [] && Read32(s) == Some((tag, body))
    requires Read32(body).Some? && Read32(body).value.1 == piece && |piece| < Read32(body).value.0 < TWO_31
    ensures Parse(core, s)
         == (if tag == 42 then core.(request := Some(piece)) else core.(response := Some(piece)), Malformed)
  {
  }

  /** Reading the two length bytes of such a message on their own drops just them. */
  lemma HeaderIsDropped(m: Message)
    requires |Serialize(m)| == W.MAX_MESSAGE + 1
    ensures Fits(m) && |W.OnWire(m).bytes| == 2 + |Serialize(m)|
    ensures W.Take(W.Link(W.OnWire(m).bytes, []), 2) == ([], W.Link(Serialize(m), []))
  {
    W.WrittenExactly(m);
    FieldValueExact(W.PREPENDER, |Serialize(m)|);
    FieldReadsBack(W.PREPENDER, W.DECODER, Serialize(m));
    var bytes := W.OnWire(m).bytes;
    assert bytes[2..] == Serialize(m);
    OnlyHeader(bytes);
    ErrorTaken(bytes, 2);
  }

  lemma OnlyHeader(bytes: seq<byte>)
    requires |bytes| >= 2 && FrameLength(W.DECODER, bytes) > W.DECODER.maxFrame
    ensures DecodeStep(W.DECODER, bytes[..2]) == (TooLarge, [])
  {
    W.SameHeader(bytes, 2);
    assert bytes[..2][2..] == [];
  }

  lemma ErrorTaken(wire: seq<byte>, size: nat)
    requires size <= |wire| && DecodeStep(W.DECODER, wire[..size]) == (TooLarge, [])
    ensures W.Take(W.Link(wire, []), size) == ([], W.Link(wire[size..], []))
  {
    var none: seq<byte> := [];
    assert none + wire[..size] == wire[..size];
    var raised := [Raised(TooLarge)];
    assert DecodeAll(W.DECODER, wire[..size]) == (raised, none) && raised[1..] == [];
  }

  /** The next read is then taken for a frame of its own. */
  lemma RestIsAFrame(m: Message)
    requires Plain(m) && |Serialize(m)| == W.MAX_MESSAGE + 1
    ensures |Front(m)| <= CutLength(m) <= |Front(m)| + |Payload(m)|
    ensures var size := 2 + CutLength(m);
            && size <= |Serialize(m)|
            && W.Take(W.Link(Serialize(m), []), size) == ([Cut(m)], W.Link(Serialize(m)[size..], []))
  {
    CutParses(m);
    Layout(m);
    var size := 2 + CutLength(m);
    FrontOf(Head(m), Front(m), Payload(m), Back(m), CutLength(m) - |Front(m)|);
    OneFrame(Serialize(m)[..size], m.GetType(), Front(m) + Piece(m));
    OneFrameTaken(Serialize(m), size, Front(m) + Piece(m), Cut(m));
  }

  lemma OneFrameTaken(wire: seq<byte>, size: nat, frame: seq<byte>, m: Message)
    requires size <= |wire| && DecodeStep(W.DECODER, wire[..size]) == (Frame(frame), [])
    requires Parse(EMPTY, frame).0 == m
    ensures W.Take(W.Link(wire, []), size) == ([m], W.Link(wire[size..], []))
  {
    var none: seq<byte> := [];
    assert none + wire[..size] == wire[..size];
    DecodeAllFrame(W.DECODER, wire[..size], frame, none);
    NothingInNothing();
    W.ParsedCons(frame, []);
    assert [m] + [] == [m];
  }

  lemma NothingInNothing()
    ensures DecodeAll(W.DECODER, []) == ([], [])
  {
  }

  lemma FrontOf(head: seq<byte>, a: seq<byte>, b: seq<byte>, c: seq<byte>, k: nat)
    requires k <= |b|
    ensures (head + (a + (b + c)))[..|head| + |a| + k] == head + (a + b[..k])
  {
  }

  lemma OneFrame(read: seq<byte>, t: byte, frame: seq<byte>)
    requires read == [8, t] + frame && |frame| == 2048 + t
    ensures DecodeStep(W.DECODER, read) == (Frame(frame), [])
  {
    var field := read[0..2];
    assert field == [8, t] && field[..1] == [8];
    assert FromBig(field[..1]) == 8 by { assert field[..1][..0] == []; }
    assert FromBig(field) == 2048 + t;
    assert read[2..2050 + t] == frame && read[2050 + t..] == [];
  }

  // ---------- Answers ----------

  /** For every request that is delivered and answered with 65535 bytes, some run gives
      the call, under its own id and without an error, a value that the server never
      computed: the beginning of its result. */
  lemma AnswerIsCutOff(q: Message, setup: Setup) returns (s: System)
    requires setup.limit > 0 && setup.callers > 0 && W.Sendable(q)
    requires |Serialize(Respond(q, setup.handler))| == W.MAX_MESSAGE + 1
    ensures Reachable(s, setup) && |s.client.calls| == 1
    ensures var call := s.client.calls[0];
            && call.request == q && call.outcome.Answered?
            && var response := call.outcome.response;
               var result := setup.handler(q.GetServiceId(), q.GetMethodId(), q.GetRequest());
               && response.GetId() == q.GetId() && response.GetError() == NO_ERROR
               && |response.GetResponse()| < |result| && response.GetResponse() == result[..|response.GetResponse()|]
  {
    var m := Respond(q, setup.handler);
    W.SendableIsWritten(q);
    HeaderIsDropped(m);
    RestIsAFrame(m);
    CutParses(m);
    s := FirstIsServed(q, setup);
    var size := 2 + CutLength(m);
    s := GoClientRead(s, 2, [], W.Link(Serialize(m), []), setup);
    s := GoClientRead(s, size, [Cut(m)], W.Link(Serialize(m)[size..], []), setup);
    s := AnswerArrives(s, 0, Cut(m), setup);
    CutAnswer(m);
  }

  lemma CutAnswer(m: Message)
    requires PlainResponse(m) && |Front(m)| <= CutLength(m) <= |Front(m)| + |Payload(m)| && |Piece(m)| < |Payload(m)|
    ensures var cut, result := Cut(m), m.GetResponse();
            && cut.GetId() == m.GetId() && cut.GetError() == NO_ERROR
            && |cut.GetResponse()| < |result| && cut.GetResponse() == result[..|cut.GetResponse()|]
  {
  }

  /** Every request has such an answer from some server. */
  lemma SharpServer(q: Message) returns (handler: Handler)
    ensures |Serialize(Respond(q, handler))| == W.MAX_MESSAGE + 1
  {
    var shape := Respond(q, (s, m, p) => []);
    CoreIsShort(shape);
    var n: nat := W.MAX_MESSAGE + 1 - (8 + |Serialize(Core(shape))|);
    var result: seq<byte> := seq(n, i => 0);
    handler := (s, m, p) => result;
    var m := Respond(q, handler);
    Layout(m);
    Size64Exact(n);
    Size64Exact(PayloadTag(m));
    R.NumberWire(7, m.error, []);
    assert [] + Back(m) == Back(m);
  }

  // ---------- Requests ----------

  /** For every plain request of 65535 bytes some run has the server execute the call
      with the beginning of its payload. */
  lemma RequestIsCutOff(q: Message, setup: Setup) returns (s: System)
    requires setup.limit > 0 && setup.callers > 0 && PlainRequest(q) && |Serialize(q)| == W.MAX_MESSAGE + 1
    ensures |Front(q)| <= CutLength(q) <= |Front(q)| + |Payload(q)| && |Piece(q)| < |Payload(q)|
    ensures Reachable(s, setup) && s.workers == [Cut(q)] && s.responses == W.QUIET && s.inbox == []
    ensures s.client == Single(Call(0, q, Returned, None, Unresolved))
  {
    HeaderIsDropped(q);
    RestIsAFrame(q);
    CutParses(q);
    s := FirstIsSent(q, setup);
    var size := 2 + CutLength(q);
    s := GoServerRead(s, 2, [], W.Link(Serialize(q), []), setup);
    s := GoServerRead(s, size, [Cut(q)], W.Link(Serialize(q)[size..], []), setup);
  }

  /** The call is then answered with the result for that piece. */
  lemma CutRequestIsAnswered(q: Message, setup: Setup) returns (s: System)
    requires setup.limit > 0 && setup.callers > 0 && PlainRequest(q) && |Serialize(q)| == W.MAX_MESSAGE + 1
    requires |Front(q)| <= CutLength(q) <= |Front(q)| + |Payload(q)|
    requires W.Sendable(Respond(Cut(q), setup.handler))
    ensures Reachable(s, setup) && |s.client.calls| == 1 && s.client.calls[0].request == q
    ensures s.client.calls[0].outcome == Answered(Respond(Cut(q), setup.handler))
  {
    var m := Respond(Cut(q), setup.handler);
    W.SendableIsWritten(m);
    s := RequestIsCutOff(q, setup);
    s := ServerFinishes(s, Cut(q), setup);
    s := ClientReadsAll(s, m, setup);
    s := AnswerArrives(s, 0, m, setup);
  }

  // ---------- Exactly when ----------

  ghost predicate NoneCutOff(requests: set<Message>, handler: Handler) {
    forall q :: q in requests && Fits(q) ==> |Serialize(Respond(q, handler))| != W.MAX_MESSAGE + 1
  }

  /** For requests and answers that the library can serialize, and requests that are not
      cut off themselves: all runs give every answered call its own answer if and only if
      no sent request has an answer of 65535 bytes and no two can be confused. */
  lemma OwnAnswersExactlyWhenSized(requests: set<Message>, setup: Setup)
    requires setup.limit > 0 && setup.callers > 0
    requires forall q :: q in requests ==>
               q.Encodable() && W.SafeSize(q) && |Serialize(Respond(q, setup.handler))| < TWO_31
    ensures NoneCutOff(requests, setup.handler) && NoneConfusable(requests, setup.handler)
       <==> AllRunsOwn(requests, setup)
  {
    if NoneCutOff(requests, setup.handler) {
      assert forall q :: q in requests ==> Transmissible(q, setup.handler);
      OwnAnswersExactlyWhen(requests, setup);
    } else {
      var q :| q in requests && Fits(q) && |Serialize(Respond(q, setup.handler))| == W.MAX_MESSAGE + 1;
      CutOffIsWrong(q, requests, setup);
    }
  }

  lemma CutOffIsWrong(q: Message, requests: set<Message>, setup: Setup)
    requires setup.limit > 0 && setup.callers > 0 && q in requests && q.Encodable() && W.SafeSize(q) && Fits(q)
    requires |Serialize(Respond(q, setup.handler))| == W.MAX_MESSAGE + 1
    ensures !AllRunsOwn(requests, setup)
  {
    W.WrittenExactly(q);
    var s := AnswerIsCutOff(q, setup);
    OneCall(s, q, requests);
    assert s.client.calls[0].outcome.response != Respond(q, setup.handler);
    assert !AllOwn(s, setup.handler);
  }

  lemma OneCall(s: System, q: Message, requests: set<Message>)
    requires |s.client.calls| == 1 && s.client.calls[0].request == q && q in requests
    ensures CallsFrom(s, requests)
  {
  }

  ghost predicate NoneSharp(requests: set<Message>) {
    forall q :: q in requests ==> |Serialize(q)| != W.MAX_MESSAGE + 1
  }

  /** A plain request of 65535 bytes spoils the answers of every server that answers its
      cut-off form, unless with the same answer. */
  lemma SharpRequestIsWrong(q: Message, requests: set<Message>, setup: Setup)
    requires setup.limit > 0 && setup.callers > 0
    requires q in requests && PlainRequest(q) && |Serialize(q)| == W.MAX_MESSAGE + 1
    requires |Front(q)| <= CutLength(q) <= |Front(q)| + |Payload(q)|
    requires W.Sendable(Respond(Cut(q), setup.handler))
    requires Respond(Cut(q), setup.handler) != Respond(q, setup.handler)
    ensures !AllRunsOwn(requests, setup)
  {
    var s := CutRequestIsAnswered(q, setup);
    OneCall(s, q, requests);
    assert s.client.calls[0].outcome.Answered?;
    assert !AllOwn(s, setup.handler);
  }

  lemma SharpIsWrong(q: Message, requests: set<Message>, limit: nat, callers: nat)
    requires limit > 0 && callers > 0 && q in requests && PlainRequest(q) && |Serialize(q)| == W.MAX_MESSAGE + 1
    ensures AnswersSafe(requests, Telltale(q)) && !AllRunsOwn(requests, Setup(limit, callers, Telltale(q)))
  {
    forall a | a in requests
      ensures W.SafeSize(Respond(a, Telltale(q)))
    {
      TelltaleIsSafe(q, a);
    }
    CutParses(q);
    TelltaleIsSafe(q, Cut(q));
    assert Respond(Cut(q), Telltale(q)).response == Some([]) && Respond(q, Telltale(q)).response == Some([1]);
    SharpRequestIsWrong(q, requests, Setup(limit, callers, Telltale(q)));
  }

  /** For the requests that proxies and channels make: every answered call has its own
      answer in all runs of every server, answers of 65535 bytes apart, if and only if no
      request has 65535 bytes and the ids tell the requests apart that can be sent. */
  lemma OwnAnswersForAllServersSized(requests: set<Message>, limit: nat, callers: nat)
    requires limit > 0 && callers > 0
    requires forall q :: q in requests ==> PlainRequest(q) && |Serialize(q)| < TWO_31
    ensures NoneSharp(requests) && IdsTellApart(requests)
       <==> (forall handler :: AnswersSafe(requests, handler) ==> AllRunsOwn(requests, Setup(limit, callers, handler)))
  {
    if NoneSharp(requests) {
      forall q | q in requests
        ensures q.Encodable() && W.SafeSize(q)
      {
        PlainIsEncodable(q);
      }
      OwnAnswersForAllServers(requests, limit, callers);
    } else {
      var q :| q in requests && |Serialize(q)| == W.MAX_MESSAGE + 1;
      SharpIsWrong(q, requests, limit, callers);
    }
  }

  lemma PlainIsEncodable(q: Message)
    requires PlainRequest(q) && |Serialize(q)| < TWO_31
    ensures q.Encodable()
  {
    R.SerializedSize(q);
    R.PayloadWithin(5, q.request);
  }

  // ---------- Longer requests ----------

  /** For every request that does not fit some run leaves its entry behind, with the
      call gone by exception. */
  lemma OversizeRequestThrows(q: Message, setup: Setup) returns (s: System)
    requires setup.limit > 0 && setup.callers > 0 && W.MAX_MESSAGE + 1 < |Serialize(q)| < TWO_31
    ensures Reachable(s, setup)
    ensures s.client == Single(Call(0, q, Returned, None, WriteFailed)) && s.client.pending == map[q.GetId() := 0]
  {
    W.WrittenExactly(q);
    s := FirstIsInserted(q, setup);
    s := Go(s, Act(Throw(0)), INITIAL.(client := Single(Call(0, q, Returned, None, WriteFailed))), setup);
  }
}
