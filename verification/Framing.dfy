/** Whole streams: the decode-until-false loop over arriving chunks, and the
    prepender and decoder as a printer/parser pair. */
module Framing {
  import opened MachineInt
  import opened ByteOrder
  import opened FrameDecoder
  import P = Prepender

  datatype Event = Delivered(frame: seq<byte>) | Raised(error: Outcome)

  // ---------- One step ----------

  /** A decode call only ever drops a prefix of the buffer, takes the frame from
      inside that prefix, and on anything but NeedMore drops at least one byte: the
      frame it rejects or delivers, or the header of one that cannot be.
      With frames within `int` range nothing is asked of the queue that it does
      not hold. */
  lemma DecodeSafety(c: Config, buf: seq<byte>)
    requires c.Sound()
    ensures var (out, left) := DecodeStep(c, buf);
            var dropped := |buf| - |left|;
            && 0 <= dropped
            && buf[dropped..] == left
            && (out.NeedMore? ==> dropped == 0)
            && (!out.NeedMore? && !out.Threw? ==> 0 < dropped)
            && (out.Frame? ==> c.EndOffset() <= dropped <= c.maxFrame && c.strip <= dropped
                               && out.payload == buf[c.strip..dropped])
            && (out.Frame? || out.StripTooLarge? ==> dropped == FrameLength(c, buf))
            && (out.TooSmall? ==> dropped == c.EndOffset() > FrameLength(c, buf))
            && (out.TooLarge? ==> FrameLength(c, buf) > c.maxFrame && dropped == Min(FrameLength(c, buf), |buf|))
            && (c.maxFrame < TWO_31 ==> !out.Threw?)
  {
    EndOffsetExact(c);
  }

  lemma EndOffsetExact(c: Config)
    requires c.Sound()
    ensures c.EndOffset() == c.offset + c.width <= c.maxFrame
  {
  }

  /** What a decode call reports, by the bytes there are and the length they announce. */
  lemma OutcomeExactly(c: Config, buf: seq<byte>)
    requires c.Sound() && c.maxFrame < TWO_31
    ensures |buf| < c.offset + c.width ==> DecodeStep(c, buf) == (NeedMore, buf)
    ensures |buf| >= c.offset + c.width ==>
              var end, n, out := c.offset + c.width, FrameLength(c, buf), DecodeStep(c, buf).0;
              && (out == TooSmall <==> n < end)
              && (out == TooLarge <==> n > c.maxFrame)
              && (out == NeedMore <==> end <= n <= c.maxFrame && |buf| < n)
              && (out == StripTooLarge <==> end <= n <= c.maxFrame && n <= |buf| && n < c.strip)
              && (out.Frame? <==> end <= n <= c.maxFrame && n <= |buf| && c.strip <= n)
  {
    EndOffsetExact(c);
  }

  /** The length field is read from behind the offset, in the configured order. */
  lemma FieldIsRead(c: Config, header: seq<byte>, value: nat, rest: seq<byte>)
    requires |header| == c.offset && value < Capacity(c.width)
    ensures RawLength(c, header + ToBytes(value, c.width, c.network) + rest) == value
  {
    var field := ToBytes(value, c.width, c.network);
    assert (header + field + rest)[c.offset..c.offset + c.width] == field;
    BytesRoundTrip(value, c.width, c.network);
    ModulusUnique(value, Capacity(c.width), 0, value);
  }

  /** The announced length is the field plus adjustment and end offset, the sum of the
      two being unsigned: a negative one counts as 2^32 more. */
  lemma FrameLengthPlainly(c: Config, buf: seq<byte>)
    requires c.Sound() && c.maxFrame < TWO_31 && c.offset + c.width <= |buf|
    requires RawLength(c, buf) < TWO_63
    ensures var sum := c.adjustment + c.offset + c.width;
            FrameLength(c, buf) == RawLength(c, buf) + (if sum >= 0 then sum else sum + TWO_32)
  {
    EndOffsetExact(c);
    var sum := c.adjustment + c.offset + c.width;
    if sum < 0 {
      assert ToUint32(sum) == sum + TWO_32;
    }
  }

  /** The constructor's own check does not rule out a field wider than a frame:
      its unsigned subtraction wraps. The end offset it guards fits the frame
      exactly when the width does. */
  lemma ConstructorCheckExact(c: Config)
    requires c.Checked() && c.WidthSupported()
    ensures c.offset + c.width <= c.maxFrame <==> c.width <= c.maxFrame
  {
  }

  lemma ConstructorCheckTooWeak()
    ensures var c := Config(2, 1, TWO_32 - 1, 0, 0, true);
            c.Checked() && c.WidthSupported() && c.EndOffset() == 1
  {
  }

  /** Bytes that arrive later change neither a frame nor an error that the bytes
      already received determine. */
  lemma DecodeStepMonotone(c: Config, buf: seq<byte>, more: seq<byte>)
    requires c.Sound() && !DecodeStep(c, buf).0.NeedMore?
    ensures DecodeStep(c, buf + more).0 == DecodeStep(c, buf).0
    ensures DecodeStep(c, buf).0.Frame? ==> DecodeStep(c, buf + more).1 == DecodeStep(c, buf).1 + more
  {
    EndOffsetExact(c);
    if |buf| >= c.offset + c.width {
      assert (buf + more)[c.offset..c.offset + c.width] == buf[c.offset..c.offset + c.width];
      var n := FrameLength(c, buf);
      if c.EndOffset() <= n <= |buf| && c.strip <= n {
        assert (buf + more)[c.strip..n] == buf[c.strip..n];
      }
    }
  }

  // ---------- The driver loop ----------

  /** `decode` until it returns false. */
  function DecodeAll(c: Config, buf: seq<byte>): (r: (seq<Event>, seq<byte>))
    requires c.Sound()
    ensures |r.1| <= |buf|
    decreases |buf|
  {
    DecodeSafety(c, buf);
    var (out, left) := DecodeStep(c, buf);
    if out.Frame? then
      var (events, rest) := DecodeAll(c, left);
      ([Delivered(out.payload)] + events, rest)
    else if out.NeedMore? then ([], left)
    else ([Raised(out)], left)
  }

  /** The driver over a sequence of reads; it carries on after an error. */
  function Receive(c: Config, buf: seq<byte>, chunks: seq<seq<byte>>): (r: (seq<Event>, seq<byte>))
    requires c.Sound()
    decreases |chunks|
  {
    if chunks == [] then ([], buf)
    else
      var (events, left) := DecodeAll(c, buf + chunks[0]);
      var (later, rest) := Receive(c, left, chunks[1..]);
      (events + later, rest)
  }

  function Flatten(chunks: seq<seq<byte>>): seq<byte> {
    if chunks == [] then [] else chunks[0] + Flatten(chunks[1..])
  }

  function UpToFirstError(events: seq<Event>): seq<Event> {
    if events == [] then []
    else if events[0].Raised? then [events[0]]
    else [events[0]] + UpToFirstError(events[1..])
  }

  predicate NoError(events: seq<Event>) {
    forall e :: e in events ==> e.Delivered?
  }

  lemma PrependOne(events: seq<Event>, frame: seq<byte>, later: seq<Event>)
    ensures events + ([Delivered(frame)] + later) == (events + [Delivered(frame)]) + later
  {
  }

  /** The loop of the byte-to-message driver around one decoder. */
  method ReadAll(decoder: LengthFieldBasedFrameDecoder, buf: IOBufQueue) returns (events: seq<Event>)
    requires decoder.config.Sound() && |buf.data| < TWO_63
    modifies buf
    ensures (events, buf.data) == DecodeAll(decoder.config, old(buf.data))
  {
    events := [];
    var success := true;
    assert [] + DecodeAll(decoder.config, buf.data).0 == DecodeAll(decoder.config, buf.data).0;
    while success
      invariant |buf.data| <= |old(buf.data)|
      invariant success ==>
                  var (later, rest) := DecodeAll(decoder.config, buf.data);
                  DecodeAll(decoder.config, old(buf.data)) == (events + later, rest)
      invariant !success ==> (events, buf.data) == DecodeAll(decoder.config, old(buf.data))
      decreases success, |buf.data|
    {
      DecodeSafety(decoder.config, buf.data);
      ghost var later := DecodeAll(decoder.config, buf.data).0;
      var out := decoder.Decode(buf);
      if out.Frame? {
        PrependOne(events, out.payload, later[1..]);
        events := events + [Delivered(out.payload)];
      } else {
        success := false;
        assert events + [] == events;
        if !out.NeedMore? {
          events := events + [Raised(out)];
        }
      }
    }
  }

  /** Decoding what arrived and then the rest is decoding everything at once, up
      to and including the first error. */
  lemma {:induction false} DecodeAllSplit(c: Config, buf: seq<byte>, more: seq<byte>)
    requires c.Sound()
    ensures SplitsAt(c, buf, more)
    decreases |buf|
  {
    var (out, left) := DecodeStep(c, buf);
    if out.Frame? {
      DecodeSafety(c, buf);
      DecodeAllSplit(c, left, more);
      FrameFirst(c, buf, more);
    } else {
      NoFrameFirst(c, buf, more);
    }
  }

  predicate SplitsAt(c: Config, buf: seq<byte>, more: seq<byte>)
    requires c.Sound()
  {
    var (events, left) := DecodeAll(c, buf);
    var (tail, rest) := DecodeAll(c, left + more);
    if NoError(events) then DecodeAll(c, buf + more) == (events + tail, rest)
    else DecodeAll(c, buf + more).0 == events
  }

  lemma FrameFirst(c: Config, buf: seq<byte>, more: seq<byte>)
    requires c.Sound() && DecodeStep(c, buf).0.Frame?
    requires SplitsAt(c, DecodeStep(c, buf).1, more)
    ensures SplitsAt(c, buf, more)
  {
    DecodeStepMonotone(c, buf, more);
    var (out, left) := DecodeStep(c, buf);
    DecodeAllFrame(c, buf, out.payload, left);
    DecodeAllFrame(c, buf + more, out.payload, left + more);
    PrependFrame(out.payload, DecodeAll(c, left).0, DecodeAll(c, DecodeAll(c, left).1 + more).0);
  }

  lemma DecodeAllFrame(c: Config, buf: seq<byte>, frame: seq<byte>, left: seq<byte>)
    requires c.Sound() && DecodeStep(c, buf) == (Frame(frame), left)
    ensures DecodeAll(c, buf) == ([Delivered(frame)] + DecodeAll(c, left).0, DecodeAll(c, left).1)
  {
  }

  lemma PrependFrame(frame: seq<byte>, events: seq<Event>, tail: seq<Event>)
    ensures NoError([Delivered(frame)] + events) <==> NoError(events)
    ensures [Delivered(frame)] + (events + tail) == ([Delivered(frame)] + events) + tail
  {
    NoErrorCons(frame, events);
  }

  lemma NoFrameFirst(c: Config, buf: seq<byte>, more: seq<byte>)
    requires c.Sound() && !DecodeStep(c, buf).0.Frame?
    ensures SplitsAt(c, buf, more)
  {
    DecodeSafety(c, buf);
    var (out, left) := DecodeStep(c, buf);
    if out.NeedMore? {
      assert left == buf && [] + DecodeAll(c, buf + more).0 == DecodeAll(c, buf + more).0;
    } else {
      DecodeStepMonotone(c, buf, more);
      var raised := [Raised(out)];
      assert DecodeAll(c, buf).0 == raised && raised[0] in raised;
    }
  }

  lemma NoErrorCons(frame: seq<byte>, events: seq<Event>)
    ensures NoError([Delivered(frame)] + events) <==> NoError(events)
  {
    assert forall e :: e in [Delivered(frame)] + events <==> e == Delivered(frame) || e in events;
  }

  /** At most the last event of one driver pass is an error, so cutting a pass at
      its first error changes nothing. */
  lemma {:induction false} PassEndsAtError(c: Config, buf: seq<byte>)
    requires c.Sound()
    ensures UpToFirstError(DecodeAll(c, buf).0) == DecodeAll(c, buf).0
    decreases |buf|
  {
    DecodeSafety(c, buf);
    if DecodeStep(c, buf).0.Frame? {
      PassEndsAtError(c, DecodeStep(c, buf).1);
    }
  }

  lemma {:induction false} CutAppend(a: seq<Event>, b: seq<Event>)
    ensures UpToFirstError(a + b) == if NoError(a) then a + UpToFirstError(b) else UpToFirstError(a)
  {
    if a == [] {
      assert a + b == b;
    } else {
      assert (a + b)[1..] == a[1..] + b;
      CutAppend(a[1..], b);
      NoErrorFirst(a);
      assert [a[0]] + (a[1..] + UpToFirstError(b)) == a + UpToFirstError(b);
    }
  }

  lemma NoErrorFirst(a: seq<Event>)
    requires a != []
    ensures NoError(a) <==> a[0].Delivered? && NoError(a[1..])
  {
    assert forall e :: e in a <==> e == a[0] || e in a[1..];
  }

  /** Nothing is left to decode in what a clean pass leaves behind. */
  lemma {:induction false} CleanPassIsStuck(c: Config, buf: seq<byte>)
    requires c.Sound() && NoError(DecodeAll(c, buf).0)
    ensures DecodeAll(c, DecodeAll(c, buf).1) == ([], DecodeAll(c, buf).1)
    decreases |buf|
  {
    var all := DecodeAll(c, buf);
    DecodeSafety(c, buf);
    var (out, left) := DecodeStep(c, buf);
    if out.Frame? {
      assert DecodeAll(c, buf).0 == [Delivered(out.payload)] + DecodeAll(c, left).0;
      assert forall e :: e in DecodeAll(c, left).0 ==> e in DecodeAll(c, buf).0;
      CleanPassIsStuck(c, left);
    } else {
      var raised := [Raised(out)];
      assert raised[0] in raised;
      assert out.NeedMore? || all.0 == raised;
    }
  }

  // ---------- Chunk independence ----------

  /** However a stream is cut into reads, the frames delivered before the first
      error and that error are those of decoding it at once; and if there is no
      error, the leftover is the same too. */
  lemma {:induction false} ChunkIndependence(c: Config, buf: seq<byte>, chunks: seq<seq<byte>>)
    requires c.Sound() && DecodeAll(c, buf) == ([], buf)
    ensures var atOnce := DecodeAll(c, buf + Flatten(chunks));
            && UpToFirstError(Receive(c, buf, chunks).0) == atOnce.0
            && (NoError(atOnce.0) ==> Receive(c, buf, chunks) == atOnce)
    decreases |chunks|
  {
    if chunks == [] {
      assert buf + Flatten(chunks) == buf;
    } else {
      var first := buf + chunks[0];
      var rest := Flatten(chunks[1..]);
      assert buf + Flatten(chunks) == first + rest;
      var (events, left) := DecodeAll(c, first);
      var later := Receive(c, left, chunks[1..]).0;
      DecodeAllSplit(c, first, rest);
      CutAppend(events, later);
      if NoError(events) {
        CleanPassIsStuck(c, first);
        ChunkIndependence(c, left, chunks[1..]);
        var tail := DecodeAll(c, left + rest).0;
        assert forall e :: e in tail ==> e in events + tail;
      } else {
        PassEndsAtError(c, first);
      }
    }
  }

  /** After an error the reads do matter: an over-long frame is discarded only as
      far as it has arrived, and its rest is then read as new frames. */
  lemma OverlongFrameDependsOnChunks()
    ensures var c := Config(1, 3, 0, 0, 1, true);
            && c.Sound()
            && Receive(c, [], [[5, 1, 7]]) == ([Raised(TooLarge)], [])
            && Receive(c, [], [[5], [1, 7]]) == ([Raised(TooLarge), Delivered([7])], [])
  {
    var c := Config(1, 3, 0, 0, 1, true);
    var whole: seq<byte>, head: seq<byte>, tail: seq<byte> := [5, 1, 7], [5], [1, 7];
    OneByteStep(c, whole);
    OneByteStep(c, head);
    OneByteStep(c, tail);
    assert tail[1..2] == [7] && tail[2..] == [] && whole[3..] == [] && head[1..] == [];
    var empty: seq<byte> := [];
    assert DecodeAll(c, empty) == ([], empty);
    assert DecodeStep(c, tail) == (Frame([7]), empty);
    assert [Delivered([7])] + [] == [Delivered([7])];
    OneRead(c, whole);
    OneRead(c, tail);
    assert empty + head == head && [head, tail][1..] == [tail];
    assert [Raised(TooLarge)] + [Delivered([7])] == [Raised(TooLarge), Delivered([7])];
  }

  /** Decoding with a one-byte length field in front. */
  lemma OneByteStep(c: Config, buf: seq<byte>)
    requires c == Config(1, 3, 0, 0, 1, true) && buf != []
    ensures DecodeStep(c, buf) ==
            var first: int := buf[0];
            var n := first + 1;
            if n > 3 then (TooLarge, buf[Min(n, |buf|)..])
            else if |buf| < n then (NeedMore, buf)
            else (Frame(buf[1..n]), buf[n..])
  {
    assert buf[0..1] == [buf[0]];
    assert FromBig([buf[0]]) == buf[0];
  }

  lemma OneRead(c: Config, chunk: seq<byte>)
    requires c.Sound()
    ensures Receive(c, [], [chunk]) == DecodeAll(c, chunk)
  {
    assert [] + chunk == chunk && [chunk][1..] == [];
    assert DecodeAll(c, chunk).0 + [] == DecodeAll(c, chunk).0;
  }

  // ---------- Prepender and decoder as a pair ----------

  predicate RoundTrips(p: P.Config, c: Config, payload: seq<byte>)
    requires p.Checked() && c.WidthSupported()
  {
    && P.Prepend(p, payload).Written?
    && DecodeStep(c, P.Prepend(p, payload).bytes) == (Frame(payload), [])
  }

  function Included(p: P.Config): int {
    if p.includesField then p.width else 0
  }

  /** When the two handlers fit: the prepender accepts the length, the decoder
      strips exactly the field and undoes the prepender's adjustment as 32-bit
      arithmetic sees it, and the whole frame is within the decoder's limit and
      the range of `int`. */
  predicate Compatible(p: P.Config, c: Config, size: nat) {
    && 0 <= P.FieldValue(p, size) < p.Limit()
    && c.strip == c.width
    && c.adjustment + c.width >= 0
    && ToUint32(p.adjustment + Included(p) + c.adjustment) == 0
    && c.width + size <= c.maxFrame
    && size < TWO_31
  }

  /** Away from the top of the `int` range the 32-bit condition is plain
      cancellation and the length field is the plain sum. */
  lemma CompatiblePlainly(p: P.Config, c: Config, size: nat)
    requires p.Checked() && c.WidthSupported() && c.width == p.width
    requires size + p.adjustment + Included(p) < TWO_31
    ensures Compatible(p, c, size) <==>
            && 0 <= size + p.adjustment + Included(p) < p.Limit()
            && c.strip == c.width
            && c.adjustment + c.width >= 0
            && p.adjustment + Included(p) + c.adjustment == 0
            && c.width + size <= c.maxFrame
            && size < TWO_31
  {
    if size < TWO_31 { FieldValueExact(p, size); }
  }

  lemma CapacityValues()
    ensures Capacity(1) == 256 && Capacity(2) == 65536
    ensures Capacity(4) == TWO_32 && Capacity(8) == TWO_64
  {
    assert Capacity(3) == 0x100_0000;
    assert Capacity(6) == 0x1_0000_0000_0000;
  }

  /** The length field is the plain sum, or that sum less 2^32 when the narrowing
      wraps. */
  lemma FieldValueExact(p: P.Config, size: nat)
    requires p.Checked() && size < TWO_31
    ensures var sum := size + p.adjustment + Included(p);
            && (sum < TWO_31 ==> P.FieldValue(p, size) == sum)
            && (sum >= TWO_31 ==> P.FieldValue(p, size) == sum - TWO_32)
  {
    NarrowTwice(p.adjustment + size);
  }

  /** Which writes throw, and with what, away from the top of the `int` range. */
  lemma PrependFailsExactlyWhen(p: P.Config, payload: seq<byte>)
    requires p.Checked() && |payload| + p.adjustment + (if p.includesField then p.width else 0) < TWO_31
    ensures var sum := |payload| + p.adjustment + (if p.includesField then p.width else 0);
            && (P.Prepend(p, payload) == P.LengthNegative <==> sum < 0)
            && (P.Prepend(p, payload) == P.LengthDoesNotFit
                <==> (p.width == 1 && sum >= 256) || (p.width == 2 && sum >= 65536))
  {
    FieldValueExactly(p, |payload|);
  }

  /** Also for payloads beyond `int` whose adjusted length is within it. */
  lemma FieldValueExactly(p: P.Config, size: nat)
    requires p.Checked() && size + p.adjustment + (if p.includesField then p.width else 0) < TWO_31
    ensures P.FieldValue(p, size) == size + p.adjustment + (if p.includesField then p.width else 0)
  {
    NarrowTwice(p.adjustment + size);
  }

  lemma FieldReadsBack(p: P.Config, c: Config, payload: seq<byte>)
    requires p.Checked() && c.offset == 0 && c.width == p.width && c.network == p.network
    requires P.Prepend(p, payload).Written?
    ensures var bytes := P.Prepend(p, payload).bytes;
            && |bytes| == c.width + |payload|
            && bytes[c.width..] == payload
            && RawLength(c, bytes) == P.FieldValue(p, |payload|)
  {
    var value := P.FieldValue(p, |payload|);
    var field := ToBytes(value, c.width, c.network);
    assert (field + payload)[0..c.width] == field;
    FieldExact(value, c.width, c.network, p.Limit());
  }

  lemma FieldExact(value: nat, width: nat, network: bool, limit: int)
    requires width in {1, 2, 4, 8} && value < limit
    requires limit == if width == 1 then 256 else if width == 2 then 65536 else TWO_31
    ensures FromBytes(ToBytes(value, width, network), network) == value
  {
    BytesRoundTrip(value, width, network);
    CapacityValues();
    assert value < Capacity(width);
    ModulusUnique(value, Capacity(width), 0, value);
  }

  /** Decoding a prepended payload gives back exactly that payload and nothing
      else if and only if the configurations are compatible for its size. */
  lemma FramingRoundTrip(p: P.Config, c: Config, payload: seq<byte>)
    requires p.Checked() && c.Sound()
    requires c.offset == 0 && c.width == p.width && c.network == p.network
    ensures RoundTrips(p, c, payload) <==> Compatible(p, c, |payload|)
  {
    if P.Prepend(p, payload).Written? {
      FieldReadsBack(p, c, payload);
      if |payload| < TWO_31 {
        FieldValueExact(p, |payload|);
        LengthRecovered(p, c, payload);
        SliceExact(c, P.Prepend(p, payload).bytes, payload);
      } else {
        TooLongToDecode(c, P.Prepend(p, payload).bytes, payload);
      }
    }
  }

  lemma TooLongToDecode(c: Config, bytes: seq<byte>, payload: seq<byte>)
    requires c.Sound() && |payload| >= TWO_31
    ensures DecodeStep(c, bytes) != (Frame(payload), [])
  {
    DecodeSafety(c, bytes);
  }

  lemma LengthRecovered(p: P.Config, c: Config, payload: seq<byte>)
    requires p.Checked() && c.Sound() && |payload| < TWO_31
    requires c.offset == 0 && c.width == p.width && c.network == p.network
    requires P.Prepend(p, payload).Written?
    ensures |P.Prepend(p, payload).bytes| == c.width + |payload|
    ensures FrameLength(c, P.Prepend(p, payload).bytes) == c.width + |payload|
       <==> c.adjustment + c.width >= 0 && ToUint32(p.adjustment + Included(p) + c.adjustment) == 0
  {
    FieldReadsBack(p, c, payload);
    FieldValueExact(p, |payload|);
    UnsignedSumExact(p.adjustment + Included(p), c.adjustment, c.width, |payload|, P.FieldValue(p, |payload|));
  }

  lemma UnsignedSumExact(outgoing: int, incoming: int32, width: uint32, size: nat, value: int)
    requires 1 <= width <= 8 && size < TWO_31 && -TWO_31 <= outgoing < TWO_31 + 8
    requires 0 <= value == (if size + outgoing < TWO_31 then size + outgoing else size + outgoing - TWO_32) < TWO_31
    ensures ToUint64(value + ToUint32(incoming + width)) == width + size
       <==> incoming + width >= 0 && ToUint32(outgoing + incoming) == 0
  {
  }

  lemma SliceExact(c: Config, bytes: seq<byte>, payload: seq<byte>)
    requires c.Sound() && c.offset == 0 && |bytes| == c.width + |payload| && bytes[c.width..] == payload
    requires |payload| < TWO_31
    ensures DecodeStep(c, bytes) == (Frame(payload), [])
       <==> FrameLength(c, bytes) == |bytes| <= c.maxFrame && c.strip == c.width
  {
    var n := FrameLength(c, bytes);
    assert n == |bytes| && c.strip == c.width ==> bytes[c.strip..n] == payload && bytes[n..] == [];
    if DecodeStep(c, bytes) == (Frame(payload), []) {
      assert |bytes[n..]| == 0 && |bytes[c.strip..n]| == |payload|;
    }
  }
}
