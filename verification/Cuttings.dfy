/** When the way a stream is cut into reads matters: exactly for which streams. */
module Cuttings {
  import opened MachineInt
  import opened FrameDecoder
  import opened Framing

  /** The stream, read in non-empty chunks. */
  ghost predicate Cuts(chunks: seq<seq<byte>>, stream: seq<byte>) {
    Flatten(chunks) == stream && forall chunk :: chunk in chunks ==> chunk != []
  }

  /** Decoding at once raises no error, or one that leaves nothing for a later read to
      change: of an over-long frame only the header has arrived, and behind any other
      error there is no frame and no error yet. */
  predicate Settled(c: Config, buf: seq<byte>)
    requires c.Sound() && c.maxFrame < TWO_31
    decreases |buf|
  {
    DecodeSafety(c, buf);
    var (out, left) := DecodeStep(c, buf);
    match out
    case NeedMore => true
    case Frame(_) => Settled(c, left)
    case TooLarge => |buf| == c.EndOffset()
    case _ => DecodeStep(c, left).0.NeedMore?
  }

  // ---------- Settled streams ----------

  lemma NothingYet(c: Config, buf: seq<byte>, more: seq<byte>)
    requires c.Sound() && DecodeStep(c, buf + more).0.NeedMore?
    ensures DecodeStep(c, buf) == (NeedMore, buf)
  {
    if !DecodeStep(c, buf).0.NeedMore? {
      DecodeStepMonotone(c, buf, more);
      assert false;
    }
    DecodeSafety(c, buf);
  }

  /** Reads that bring nothing decodable only fill the buffer. */
  lemma {:induction false} StuckReceive(c: Config, buf: seq<byte>, chunks: seq<seq<byte>>)
    requires c.Sound() && DecodeStep(c, buf + Flatten(chunks)).0.NeedMore?
    ensures Receive(c, buf, chunks) == ([], buf + Flatten(chunks))
    decreases |chunks|
  {
    if chunks == [] {
      assert buf + [] == buf;
    } else {
      var first, rest := buf + chunks[0], Flatten(chunks[1..]);
      assert buf + Flatten(chunks) == first + rest;
      NothingYet(c, first, rest);
      StuckReceive(c, first, chunks[1..]);
      var none: seq<Event> := [];
      assert DecodeAll(c, first) == (none, first) && none + none == none;
    }
  }

  /** An error in what has arrived of a settled stream leaves nothing decodable, with
      all that comes later. */
  lemma {:induction false} SettledError(c: Config, first: seq<byte>, rest: seq<byte>)
    requires c.Sound() && c.maxFrame < TWO_31 && Settled(c, first + rest)
    requires !NoError(DecodeAll(c, first).0)
    ensures var left := DecodeAll(c, first).1;
            DecodeStep(c, left + rest).0.NeedMore? && DecodeAll(c, first + rest).1 == left + rest
    decreases |first|
  {
    DecodeSafety(c, first);
    var (out, left) := DecodeStep(c, first);
    if out.Frame? {
      DecodeStepMonotone(c, first, rest);
      DecodeAllFrame(c, first, out.payload, left);
      DecodeAllFrame(c, first + rest, out.payload, left + rest);
      NoErrorCons(out.payload, DecodeAll(c, left).0);
      SettledError(c, left, rest);
    } else if !out.NeedMore? {
      DecodeStepMonotone(c, first, rest);
      ErrorLeaves(c, first, rest);
    }
  }

  lemma ErrorLeaves(c: Config, first: seq<byte>, rest: seq<byte>)
    requires c.Sound() && c.maxFrame < TWO_31 && Settled(c, first + rest)
    requires DecodeStep(c, first).0.Error() && DecodeStep(c, first + rest).0 == DecodeStep(c, first).0
    ensures var left := DecodeStep(c, first).1;
            && DecodeStep(c, first + rest).1 == left + rest
            && DecodeStep(c, left + rest).0.NeedMore?
  {
    DecodeSafety(c, first);
    DecodeSafety(c, first + rest);
    if DecodeStep(c, first).0.TooLarge? {
      OnlyHeader(c, first, rest);
    } else {
      SameField(c, first, rest);
      var dropped := |first| - |DecodeStep(c, first).1|;
      assert (first + rest)[dropped..] == first[dropped..] + rest;
    }
  }

  lemma OnlyHeader(c: Config, first: seq<byte>, rest: seq<byte>)
    requires c.Sound() && DecodeStep(c, first).0.TooLarge? && |first + rest| == c.EndOffset()
    requires DecodeStep(c, first + rest).0.TooLarge?
    ensures rest == [] && DecodeStep(c, first).1 == [] && DecodeStep(c, first + rest).1 == []
    ensures DecodeStep(c, [] + rest).0.NeedMore?
  {
    EndOffsetExact(c);
    assert |first| >= c.EndOffset();
    assert first + rest == first && [] + rest == [];
  }

  lemma SameField(c: Config, first: seq<byte>, rest: seq<byte>)
    requires c.offset + c.width <= |first|
    ensures FrameLength(c, first + rest) == FrameLength(c, first)
  {
    assert (first + rest)[c.offset..c.offset + c.width] == first[c.offset..c.offset + c.width];
  }

  lemma CleanStart(c: Config, buf: seq<byte>)
    requires c.Sound() && NoError(DecodeAll(c, buf).0)
    ensures !DecodeStep(c, buf).0.Error()
  {
    var raised := [Raised(DecodeStep(c, buf).0)];
    assert raised[0] in raised;
  }

  lemma {:induction false} SettledAfter(c: Config, first: seq<byte>, rest: seq<byte>)
    requires c.Sound() && c.maxFrame < TWO_31 && Settled(c, first + rest) && NoError(DecodeAll(c, first).0)
    ensures Settled(c, DecodeAll(c, first).1 + rest)
    decreases |first|
  {
    DecodeSafety(c, first);
    CleanStart(c, first);
    var (out, left) := DecodeStep(c, first);
    if out.Frame? {
      DecodeStepMonotone(c, first, rest);
      DecodeAllFrame(c, first, out.payload, left);
      NoErrorCons(out.payload, DecodeAll(c, left).0);
      SettledAfter(c, left, rest);
    }
  }

  lemma {:induction false} SettledAgrees(c: Config, buf: seq<byte>, chunks: seq<seq<byte>>)
    requires c.Sound() && c.maxFrame < TWO_31
    requires DecodeStep(c, buf).0.NeedMore? && Settled(c, buf + Flatten(chunks))
    ensures Receive(c, buf, chunks) == DecodeAll(c, buf + Flatten(chunks))
    decreases |chunks|
  {
    DecodeSafety(c, buf);
    if chunks == [] {
      assert buf + [] == buf;
    } else {
      var first, rest := buf + chunks[0], Flatten(chunks[1..]);
      assert buf + Flatten(chunks) == first + rest;
      var (events, left) := DecodeAll(c, first);
      DecodeAllSplit(c, first, rest);
      if NoError(events) {
        SettledAfter(c, first, rest);
        CleanPassIsStuck(c, first);
        StuckStep(c, left);
        SettledAgrees(c, left, chunks[1..]);
      } else {
        SettledError(c, first, rest);
        StuckReceive(c, left, chunks[1..]);
        assert events + [] == events;
      }
    }
  }

  lemma StuckStep(c: Config, buf: seq<byte>)
    requires c.Sound() && DecodeAll(c, buf) == ([], buf)
    ensures DecodeStep(c, buf).0.NeedMore?
  {
    DecodeSafety(c, buf);
  }

  // ---------- The other streams ----------

  /** As much of the buffer as a decode call needs to see for what it reports. */
  function Seen(c: Config, buf: seq<byte>): (n: nat)
    requires c.Sound() && |buf| >= c.offset + c.width
  {
    EndOffsetExact(c);
    if c.EndOffset() <= FrameLength(c, buf) <= c.maxFrame then FrameLength(c, buf) else c.EndOffset()
  }

  lemma SeenAlone(c: Config, buf: seq<byte>)
    requires c.Sound() && c.maxFrame < TWO_31 && !DecodeStep(c, buf).0.NeedMore?
    ensures c.offset + c.width <= |buf| && c.EndOffset() <= Seen(c, buf) <= |buf|
    ensures DecodeStep(c, buf[..Seen(c, buf)]) == (DecodeStep(c, buf).0, [])
  {
    EndOffsetExact(c);
    DecodeSafety(c, buf);
    var n := Seen(c, buf);
    var head := buf[..n];
    assert head[|head|..] == [];
    assert buf == head + buf[n..];
    SameField(c, head, buf[n..]);
    if DecodeStep(c, buf).0.Frame? {
      assert head[c.strip..n] == buf[c.strip..n];
    }
  }

  /** A stream that is not settled has a place where two reads make a difference: what
      the first of them leaves to the second is decoded anew. */
  lemma {:induction false} PlaceToCut(c: Config, buf: seq<byte>) returns (m: nat)
    requires c.Sound() && c.maxFrame < TWO_31 && !Settled(c, buf)
    ensures 0 < m < |buf|
    ensures DecodeAll(c, buf[..m]) == (DecodeAll(c, buf).0, [])
    ensures DecodeAll(c, buf[m..]) != ([], DecodeAll(c, buf).1)
    decreases |buf|
  {
    DecodeSafety(c, buf);
    SeenAlone(c, buf);
    var (out, left) := DecodeStep(c, buf);
    var n := Seen(c, buf);
    if out.Frame? {
      var k := PlaceToCut(c, left);
      m := n + k;
      assert left[..m - n] == left[..k] && left[m - n..] == left[k..];
      CutFrame(c, buf, n, m);
    } else {
      m := n;
      SeenIsDropped(c, buf);
      CutError(c, buf, n);
    }
  }

  lemma SeenIsDropped(c: Config, buf: seq<byte>)
    requires c.Sound() && c.maxFrame < TWO_31 && DecodeStep(c, buf).0.Error()
    ensures c.offset + c.width <= |buf|
    ensures Seen(c, buf) == if DecodeStep(c, buf).0.TooLarge? then c.EndOffset() else |buf| - |DecodeStep(c, buf).1|
  {
    EndOffsetExact(c);
    DecodeSafety(c, buf);
  }

  lemma CutFrame(c: Config, buf: seq<byte>, n: nat, m: nat)
    requires c.Sound() && c.maxFrame < TWO_31 && DecodeStep(c, buf).0.Frame?
    requires 0 < n == |buf| - |DecodeStep(c, buf).1| <= m <= |buf|
    requires DecodeStep(c, buf[..n]) == (DecodeStep(c, buf).0, [])
    requires var left := DecodeStep(c, buf).1;
             && DecodeAll(c, left[..m - n]) == (DecodeAll(c, left).0, [])
             && DecodeAll(c, left[m - n..]) != ([], DecodeAll(c, left).1)
    ensures DecodeAll(c, buf[..m]) == (DecodeAll(c, buf).0, [])
    ensures DecodeAll(c, buf[m..]) != ([], DecodeAll(c, buf).1)
  {
    var (out, left) := DecodeStep(c, buf);
    DecodeSafety(c, buf);
    DecodeStepMonotone(c, buf[..n], left[..m - n]);
    var none: seq<byte> := [];
    assert none + left[..m - n] == left[..m - n];
    assert buf[..n] + left[..m - n] == buf[..m];
    assert left[m - n..] == buf[m..];
    DecodeAllFrame(c, buf[..m], out.payload, left[..m - n]);
    DecodeAllFrame(c, buf, out.payload, left);
  }

  lemma CutError(c: Config, buf: seq<byte>, n: nat)
    requires c.Sound() && c.maxFrame < TWO_31 && DecodeStep(c, buf).0.Error() && !Settled(c, buf)
    requires c.EndOffset() <= n <= |buf| && DecodeStep(c, buf[..n]) == (DecodeStep(c, buf).0, [])
    requires n == if DecodeStep(c, buf).0.TooLarge? then c.EndOffset() else |buf| - |DecodeStep(c, buf).1|
    ensures n < |buf|
    ensures DecodeAll(c, buf[..n]) == (DecodeAll(c, buf).0, [])
    ensures DecodeAll(c, buf[n..]) != ([], DecodeAll(c, buf).1)
  {
    DecodeSafety(c, buf);
    EndOffsetExact(c);
    var (out, left) := DecodeStep(c, buf);
    if out.TooLarge? {
      DecodeSafety(c, buf[n..]);
      assert |left| < |buf[n..]|;
    } else {
      assert buf[n..] == left;
    }
  }

  lemma TwoReads(c: Config, buf: seq<byte>, m: nat)
    requires c.Sound() && 0 < m < |buf| && DecodeAll(c, buf[..m]) == (DecodeAll(c, buf).0, [])
    ensures Cuts([buf[..m], buf[m..]], buf)
    ensures Receive(c, [], [buf[..m], buf[m..]])
            == (DecodeAll(c, buf).0 + DecodeAll(c, buf[m..]).0, DecodeAll(c, buf[m..]).1)
  {
    CutsTwo(buf, m);
    ReceiveTwo(c, buf[..m], buf[m..]);
  }

  lemma FlattenTwo(a: seq<byte>, b: seq<byte>)
    ensures Flatten([a, b]) == a + b
  {
    assert [b][1..] == [] && b + [] == b;
    assert Flatten([b]) == b;
    assert [a, b][1..] == [b];
  }

  lemma CutsTwo(buf: seq<byte>, m: nat)
    requires 0 < m < |buf|
    ensures Cuts([buf[..m], buf[m..]], buf)
  {
    FlattenTwo(buf[..m], buf[m..]);
    assert buf[..m] + buf[m..] == buf;
  }

  lemma ReceiveTwo(c: Config, a: seq<byte>, b: seq<byte>)
    requires c.Sound() && DecodeAll(c, a).1 == []
    ensures Receive(c, [], [a, b]) == (DecodeAll(c, a).0 + DecodeAll(c, b).0, DecodeAll(c, b).1)
  {
    var none: seq<byte> := [];
    assert [a, b][1..] == [b] && none + a == a;
    OneRead(c, b);
  }

  // ---------- The theorem ----------

  /** Every way of reading a stream in chunks gives what decoding it at once gives,
      events and leftover, if and only if the stream is settled. */
  lemma CuttingMattersExactlyWhen(c: Config, stream: seq<byte>)
    requires c.Sound() && c.maxFrame < TWO_31
    ensures (forall chunks :: Cuts(chunks, stream) ==> Receive(c, [], chunks) == DecodeAll(c, stream))
       <==> Settled(c, stream)
  {
    if Settled(c, stream) {
      forall chunks | Cuts(chunks, stream)
        ensures Receive(c, [], chunks) == DecodeAll(c, stream)
      {
        var none: seq<byte> := [];
        assert none + Flatten(chunks) == stream;
        SettledAgrees(c, none, chunks);
      }
    } else {
      var m := PlaceToCut(c, stream);
      TwoReads(c, stream, m);
      var events, later := DecodeAll(c, stream).0, DecodeAll(c, stream[m..]).0;
      assert |events + later| == |events| + |later|;
    }
  }
}
