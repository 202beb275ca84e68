/** `LengthFieldPrepender`: puts the length of an outgoing message in front of it. */
module Prepender {
  import opened MachineInt
  import opened ByteOrder

  datatype Config = Config(width: int32, adjustment: int32, includesField: bool, network: bool) {
    /** The constructor's CHECK. */
    predicate Checked() {
      width == 1 || width == 2 || width == 4 || width == 8
    }

    /** First length the field, or the `int` holding it, cannot take. */
    function Limit(): int {
      if width == 1 then 256 else if width == 2 then 65536 else TWO_31
    }
  }

  datatype Outcome =
    | Written(bytes: seq<byte>)
    | LengthNegative
    | LengthDoesNotFit

  /** The `int length` of the source. The first sum is computed in `size_t` and
      narrowed; the second is `int` arithmetic, taken here as wrapping. */
  function FieldValue(c: Config, size: nat): int32 {
    var length := ToInt32(ToUint64(c.adjustment + size));
    if c.includesField then ToInt32(length + c.width) else length
  }

  /** What one write hands to the next handler. */
  function Prepend(c: Config, payload: seq<byte>): Outcome
    requires c.Checked()
  {
    var length := FieldValue(c, |payload|);
    if length < 0 then LengthNegative
    else if length >= c.Limit() then LengthDoesNotFit
    else Written(ToBytes(length, c.width, c.network) + payload)
  }

  class LengthFieldPrepender {
    const config: Config

    constructor (config: Config)
      requires config.Checked()
      ensures this.config == config
    {
      this.config := config;
    }

    /** Fills a fresh buffer with the length field and chains the payload to it. */
    method Write(payload: seq<byte>) returns (r: Outcome)
      requires config.Checked()
      ensures r == Prepend(config, payload)
    {
      var length: int32 := ToInt32(ToUint64(config.adjustment + |payload|));
      if config.includesField {
        length := ToInt32(length + config.width);
      }
      if length < 0 {
        return LengthNegative;
      }
      if (config.width == 1 && length >= 256) || (config.width == 2 && length >= 65536) {
        return LengthDoesNotFit;
      }
      var len := new byte[config.width];
      WriteField(len, length, config.network);
      r := Written(len[..] + payload);
    }

    static method WriteField(a: array<byte>, value: nat, network: bool)
      modifies a
      ensures a[..] == ToBytes(value, a.Length, network)
    {
      var v, i := value, 0;
      if network {
        while i < a.Length
          invariant 0 <= i <= a.Length
          invariant ToBig(value, a.Length) == ToBig(v, a.Length - i) + a[a.Length - i..]
        {
          a[a.Length - 1 - i] := v % 256;
          v, i := v / 256, i + 1;
        }
        assert a[..] == a[a.Length - i..];
      } else {
        while i < a.Length
          invariant 0 <= i <= a.Length
          invariant ToLittle(value, a.Length) == a[..i] + ToLittle(v, a.Length - i)
        {
          a[i] := v % 256;
          v, i := v / 256, i + 1;
        }
        assert a[..] == a[..i];
      }
    }
  }
}
