/** `LengthFieldBasedFrameDecoder`: cuts length-prefixed frames out of the bytes
    received so far. */
module FrameDecoder {
  import opened MachineInt
  import opened ByteOrder

  datatype Config = Config(width: uint32, maxFrame: uint32, offset: uint32,
                           adjustment: int32, strip: uint32, network: bool)
  {
    /** The constructor's two CHECKs, with their `uint32_t` subtraction. */
    predicate Checked() {
      maxFrame > 0 && offset <= ToUint32(maxFrame - width)
    }

    /** Widths the reading switch has a case for. */
    predicate WidthSupported() {
      width == 1 || width == 2 || width == 4 || width == 8
    }

    /** Accepted by the constructor, and with a field no wider than a frame. */
    predicate Sound() {
      Checked() && WidthSupported() && width <= maxFrame
    }

    function EndOffset(): uint32 { ToUint32(offset + width) }
  }

  /** What one `decode` call reports. `NeedMore` is a silent `false`; the next
      three fire a read exception and return `false`; `Threw` is an exception out
      of the cursor or the queue. */
  datatype Outcome =
    | NeedMore
    | Frame(payload: seq<byte>)
    | TooSmall
    | TooLarge
    | StripTooLarge
    | Threw
  {
    predicate Error() { !NeedMore? && !Frame? }
  }

  function Min(a: int, b: int): int { if a < b then a else b }

  /** The length field inside the buffer. */
  function RawLength(c: Config, buf: seq<byte>): nat
    requires c.offset + c.width <= |buf|
  {
    FromBytes(buf[c.offset..c.offset + c.width], c.network)
  }

  /** `frameLength` after the adjustment: the two small terms are added as
      `uint32_t` and the sum is added as `uint64_t`. */
  function FrameLength(c: Config, buf: seq<byte>): uint64
    requires c.offset + c.width <= |buf|
  {
    ToUint64(RawLength(c, buf) + ToUint32(c.adjustment + c.EndOffset()))
  }

  /** One `decode` call: what it reports and what it leaves in the buffer. */
  function DecodeStep(c: Config, buf: seq<byte>): (r: (Outcome, seq<byte>))
    requires c.WidthSupported()
  {
    if |buf| < c.EndOffset() then (NeedMore, buf)
    else if c.offset >= TWO_31 || |buf| < c.offset + c.width then (Threw, buf)
    else
      var n := FrameLength(c, buf);
      if n < c.EndOffset() then (TooSmall, buf[c.EndOffset()..])
      else if n > c.maxFrame then (TooLarge, buf[Min(n, |buf|)..])
      else if |buf| < n then (NeedMore, buf)
      else if c.strip > n then (StripTooLarge, buf[n..])
      else if n - c.strip >= TWO_31 then (Threw, [])
      else (Frame(buf[c.strip..n]), buf[n..])
  }

  /** A chain of received buffers, seen as the bytes it holds. Removing more than
      is there throws (`ok` is false) and has by then emptied the queue. */
  class IOBufQueue {
    var data: seq<byte>

    constructor ()
      ensures data == []
    {
      data := [];
    }

    method Append(chunk: seq<byte>)
      modifies this
      ensures data == old(data) + chunk
    {
      data := data + chunk;
    }

    method TrimStartAtMost(amount: nat)
      modifies this
      ensures data == old(data)[Min(amount, |old(data)|)..]
    {
      data := data[Min(amount, |data|)..];
    }

    method TrimStart(amount: nat) returns (ok: bool)
      modifies this
      ensures ok <==> amount <= |old(data)|
      ensures data == old(data)[Min(amount, |old(data)|)..]
    {
      ok := amount <= |data|;
      TrimStartAtMost(amount);
    }

    method Split(amount: nat) returns (ok: bool, front: seq<byte>)
      modifies this
      ensures ok <==> amount <= |old(data)|
      ensures ok ==> old(data) == front + data && |front| == amount
      ensures !ok ==> data == []
    {
      ok := amount <= |data|;
      if ok {
        front := data[..amount];
        data := data[amount..];
      } else {
        front := [];
        data := [];
      }
    }
  }

  class LengthFieldBasedFrameDecoder {
    const config: Config

    constructor (config: Config)
      requires config.Checked()
      ensures this.config == config
    {
      this.config := config;
    }

    /** Moves a cursor to the length field and reads it. */
    method GetUnadjustedFrameLength(buf: IOBufQueue) returns (ok: bool, length: nat)
      requires config.WidthSupported()
      ensures ok <==> config.offset < TWO_31 && config.offset + config.width <= |buf.data|
      ensures ok ==> length == RawLength(config, buf.data)
    {
      var cursor := ToInt32(config.offset);
      if cursor < 0 || cursor + config.width > |buf.data| {
        return false, 0;
      }
      ok := true;
      length := ReadField(buf.data[cursor..cursor + config.width], config.network);
    }

    static method ReadField(field: seq<byte>, network: bool) returns (length: nat)
      ensures length == FromBytes(field, network)
    {
      if network {
        length := ReadBE(field);
      } else {
        length := ReadLE(field);
      }
    }

    /** The cursor's fixed-width reads, byte by byte. */
    static method ReadBE(field: seq<byte>) returns (length: nat)
      ensures length == FromBig(field)
    {
      length := 0;
      var i := 0;
      while i < |field|
        invariant 0 <= i <= |field|
        invariant length == FromBig(field[..i])
      {
        assert field[..i + 1][..i] == field[..i];
        length, i := 256 * length + field[i], i + 1;
      }
      assert field[..i] == field;
    }

    static method ReadLE(field: seq<byte>) returns (length: nat)
      ensures length == FromLittle(field)
    {
      length := 0;
      var i, scale: nat := 0, 1;
      while i < |field|
        invariant 0 <= i <= |field|
        invariant FromLittle(field) == length + scale * FromLittle(field[i..])
      {
        assert field[i..][1..] == field[i + 1..];
        LittleStep(length, scale, field[i], FromLittle(field[i + 1..]));
        length, scale, i := length + scale * field[i], scale * 256, i + 1;
      }
    }

    /** One attempt to cut a frame off the front of the queue, whose length is a
        `size_t` no larger than the address space. */
    method Decode(buf: IOBufQueue) returns (result: Outcome)
      requires config.WidthSupported() && |buf.data| < TWO_63
      modifies buf
      ensures (result, buf.data) == DecodeStep(config, old(buf.data))
    {
      if |buf.data| < config.EndOffset() {
        return NeedMore;
      }
      var readable, frameLength := GetUnadjustedFrameLength(buf);
      if !readable {
        return Threw;
      }
      frameLength := ToUint64(frameLength + ToUint32(config.adjustment + config.EndOffset()));
      var ok;
      if frameLength < config.EndOffset() {
        ok := buf.TrimStart(config.EndOffset());
        assert ok;
        return TooSmall;
      }
      if frameLength > config.maxFrame {
        buf.TrimStartAtMost(frameLength);
        return TooLarge;
      }
      if |buf.data| < frameLength {
        return NeedMore;
      }
      if config.strip > frameLength {
        ok := buf.TrimStart(frameLength);
        assert ok;
        return StripTooLarge;
      }
      result := SplitFrame(buf, frameLength);
    }

    /** Strips the header and takes the rest of the frame; the difference of the
        two lengths passes through an `int`. */
    method SplitFrame(buf: IOBufQueue, frameLength: nat) returns (result: Outcome)
      requires config.strip <= frameLength <= |buf.data| < TWO_63 && frameLength < TWO_32
      modifies buf
      ensures frameLength - config.strip >= TWO_31 ==> result == Threw && buf.data == []
      ensures frameLength - config.strip < TWO_31 ==>
                && result == Frame(old(buf.data)[config.strip..frameLength])
                && buf.data == old(buf.data)[frameLength..]
    {
      var ok := buf.TrimStart(config.strip);
      assert ok;
      var actualFrameLength := ToInt32(frameLength - config.strip);
      var front;
      ok, front := buf.Split(ToUint64(actualFrameLength));
      if !ok {
        return Threw;
      }
      assert old(buf.data) == old(buf.data)[..config.strip] + front + buf.data;
      result := Frame(front);
    }
  }

  lemma LittleStep(acc: nat, scale: nat, b: nat, rest: nat)
    ensures acc + scale * (b + 256 * rest) == (acc + scale * b) + (scale * 256) * rest
  {
  }
}
