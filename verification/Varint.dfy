/** Base 128 varints, as in the section "Base 128 Varints" of the Protocol Buffers
    encoding specification, with the coded streams that read and write them. */
module Varint {
  import opened MachineInt
  import B = ByteOrder

  /** The shortest encoding: groups of seven bits, least significant first. */
  function Encode(v: nat): (s: seq<byte>)
    ensures |s| >= 1
  {
    if v < 128 then [v] else [128 + v % 128] + Encode(v / 128)
  }

  /** Reads at most `budget` bytes; fails when none of them ends the varint. */
  function Read(s: seq<byte>, budget: nat): (r: Option<(nat, seq<byte>)>)
    ensures r.Some? ==> |r.value.1| < |s|
  {
    if s == [] || budget == 0 then None
    else if s[0] < 128 then Some((s[0], s[1..]))
    else
      match Read(s[1..], budget - 1)
      case None => None
      case Some((v, rest)) => Some((s[0] - 128 + 128 * v, rest))
  }

  const MAX_VARINT_BYTES := 10

  /** A varint of up to ten bytes, cut to 64 bits. */
  function Read64(s: seq<byte>): (r: Option<(uint64, seq<byte>)>)
    ensures r.Some? ==> |r.value.1| < |s|
  {
    match Read(s, MAX_VARINT_BYTES)
    case None => None
    case Some((v, rest)) => Some((ToUint64(v), rest))
  }

  /** A varint of up to ten bytes, cut to 32 bits. */
  function Read32(s: seq<byte>): (r: Option<(uint32, seq<byte>)>)
    ensures r.Some? ==> |r.value.1| < |s|
  {
    match Read(s, MAX_VARINT_BYTES)
    case None => None
    case Some((v, rest)) => Some((ToUint32(v), rest))
  }

  /** A length-delimited record's payload: a length that fits `int`, and that many bytes. */
  function ReadBytes(s: seq<byte>): (r: Option<(seq<byte>, seq<byte>)>)
    ensures r.Some? ==> |r.value.1| < |s|
  {
    match Read32(s)
    case None => None
    case Some((n, rest)) => if n >= TWO_31 || |rest| < n then None else Some((rest[..n], rest[n..]))
  }

  /** What a length-delimited read that fails leaves in its target: the old content if
      there is no usable length, and otherwise as much of the payload as there is. */
  function CutOff(before: seq<byte>, s: seq<byte>): seq<byte> {
    match Read32(s)
    case None => before
    case Some((n, rest)) => if n >= TWO_31 then before else rest
  }

  function Pow128(k: nat): (r: nat)
    ensures r >= 1
  {
    if k == 0 then 1 else 128 * Pow128(k - 1)
  }

  lemma ReadContinued(b: byte, tail: seq<byte>, budget: nat, high: nat, rest: seq<byte>)
    requires b >= 128 && budget > 0 && Read(tail, budget - 1) == Some((high, rest))
    ensures Read([b] + tail, budget) == Some((b - 128 + 128 * high, rest))
  {
    assert ([b] + tail)[1..] == tail;
  }

  lemma {:induction false} ReadEncode(v: nat, rest: seq<byte>, budget: nat)
    requires v < Pow128(budget) && budget > 0
    ensures Read(Encode(v) + rest, budget) == Some((v, rest))
  {
    if v < 128 {
      assert ([v] + rest)[1..] == rest;
    } else {
      assert budget > 1 by { assert Pow128(0) == 1; }
      var low := 128 + v % 128;
      ReadEncode(v / 128, rest, budget - 1);
      ReadContinued(low, Encode(v / 128) + rest, budget, v / 128, rest);
      assert [low] + Encode(v / 128) + rest == [low] + (Encode(v / 128) + rest);
    }
  }

  /** A read fails exactly if none of the bytes it may look at ends the varint. */
  lemma {:induction false} ReadFailsExactlyWhen(s: seq<byte>, budget: nat)
    ensures Read(s, budget) == None <==> forall i :: 0 <= i < |s| && i < budget ==> s[i] >= 128
    decreases budget
  {
    if s != [] && budget > 0 && s[0] >= 128 {
      ReadFailsExactlyWhen(s[1..], budget - 1);
      assert forall i :: 0 < i < |s| ==> s[i] == s[1..][i - 1];
      assert forall i :: 0 <= i < |s[1..]| ==> s[1..][i] == s[i + 1];
    }
  }

  /** Ten bytes are looked at, whatever the width of the result. */
  lemma ReadsTenBytes(s: seq<byte>)
    ensures Read64(s) == None <==> forall i :: 0 <= i < |s| && i < 10 ==> s[i] >= 128
    ensures Read32(s) == None <==> forall i :: 0 <= i < |s| && i < 10 ==> s[i] >= 128
  {
    ReadFailsExactlyWhen(s, 10);
  }

  lemma ReadOn(s: seq<byte>, budget: nat)
    requires Read(s, budget).Some? && s[0] >= 128
    ensures budget > 0 && Read(s[1..], budget - 1).Some?
    ensures Read(s, budget).value.0 == s[0] - 128 + 128 * Read(s[1..], budget - 1).value.0
    ensures Read(s, budget).value.1 == Read(s[1..], budget - 1).value.1
  {
  }

  lemma {:induction false} ReadEnds(s: seq<byte>, budget: nat) returns (k: nat)
    requires Read(s, budget).Some?
    ensures k < budget && k < |s| && s[k] < 128 && (forall i :: 0 <= i < k ==> s[i] >= 128)
    ensures Read(s, budget).value.1 == s[k + 1..]
    decreases budget
  {
    if s[0] < 128 {
      k := 0;
    } else {
      ReadOn(s, budget);
      var j := ReadEnds(s[1..], budget - 1);
      k := j + 1;
      assert s[1..][j + 1..] == s[k + 1..];
      assert forall i :: 0 < i < k ==> s[i] == s[1..][i - 1];
    }
  }

  lemma {:induction false} ReadDigit(s: seq<byte>, budget: nat, i: nat)
    requires Read(s, budget).Some? && i < |s| && (forall j :: 0 <= j < i ==> s[j] >= 128)
    ensures Digit(Read(s, budget).value.0, i) == s[i] % 128
    decreases budget
  {
    if s[0] < 128 {
      FirstDigit(s[0], 0);
    } else {
      ReadOn(s, budget);
      var high := Read(s[1..], budget - 1).value.0;
      if i == 0 {
        FirstDigit(s[0] - 128, high);
      } else {
        assert forall j {:trigger s[1..][j]} :: 0 <= j < i - 1 ==> s[1..][j] == s[j + 1];
        ReadDigit(s[1..], budget - 1, i - 1);
        ShiftDigit(s[0] - 128, high, i);
      }
    }
  }

  lemma FirstDigit(low: nat, high: nat)
    requires low < 128
    ensures Digit(low + 128 * high, 0) == low
  {
    assert Pow128(0) == 1;
  }

  /** A read takes the bytes up to the first below 128 and makes of their low seven bits
      the digits of the value, least significant first. */
  lemma ReadDigits(s: seq<byte>, budget: nat) returns (k: nat)
    requires Read(s, budget).Some?
    ensures k < budget && k < |s| && s[k] < 128 && (forall i :: 0 <= i < k ==> s[i] >= 128)
    ensures Read(s, budget).value.1 == s[k + 1..]
    ensures forall i :: 0 <= i <= k ==> Digit(Read(s, budget).value.0, i) == s[i] % 128
  {
    k := ReadEnds(s, budget);
    forall i | 0 <= i <= k
      ensures Digit(Read(s, budget).value.0, i) == s[i] % 128
    {
      ReadDigit(s, budget, i);
    }
  }

  /** The digit of weight 128^i. */
  function Digit(v: nat, i: nat): nat { v / Pow128(i) % 128 }

  lemma ShiftDigit(low: nat, high: nat, i: nat)
    requires low < 128 && i > 0
    ensures Digit(low + 128 * high, i) == Digit(high, i - 1)
  {
    B.DivideTwice(low + 128 * high, 128, Pow128(i - 1));
    B.QuotientUnique(low + 128 * high, 128, high, low);
  }

  lemma TenBytesSuffice()
    ensures TWO_64 <= Pow128(MAX_VARINT_BYTES)
  {
    assert Pow128(5) == 0x8_0000_0000;
    assert Pow128(10) == 0x8_0000_0000 * 0x8_0000_0000;
  }

  lemma ReadEncodeTen(v: uint64, rest: seq<byte>)
    ensures Read(Encode(v) + rest, MAX_VARINT_BYTES) == Some((v, rest))
  {
    TenBytesSuffice();
    ReadEncode(v, rest, MAX_VARINT_BYTES);
  }

  /** So the encoding of a 64-bit value is those digits, all but the last marked. */
  lemma EncodeDigits(v: uint64)
    ensures forall i :: 0 <= i < |Encode(v)| ==>
              Encode(v)[i] == Digit(v, i) + (if i < |Encode(v)| - 1 then 128 else 0)
    ensures |Encode(v)| > 1 ==> Encode(v)[|Encode(v)| - 1] > 0
  {
    var k := AllDigits(v);
    forall i | 0 <= i < |Encode(v)|
      ensures Encode(v)[i] == Digit(v, i) + (if i < |Encode(v)| - 1 then 128 else 0)
    {
      MarkedDigit(Encode(v)[i], Digit(v, i));
    }
    LastNotZero(v);
  }

  lemma AllDigits(v: uint64) returns (k: nat)
    ensures k + 1 == |Encode(v)| && Encode(v)[k] < 128 && (forall i :: 0 <= i < k ==> Encode(v)[i] >= 128)
    ensures forall i :: 0 <= i <= k ==> Digit(v, i) == Encode(v)[i] % 128
  {
    ReadEncodeTen(v, []);
    assert Encode(v) + [] == Encode(v);
    k := ReadDigits(Encode(v), MAX_VARINT_BYTES);
    assert |Encode(v)[k + 1..]| == 0;
  }

  lemma MarkedDigit(b: byte, digit: nat)
    requires digit == b % 128
    ensures b == digit + (if b >= 128 then 128 else 0)
  {
  }

  lemma {:induction false} LastNotZero(v: nat)
    ensures |Encode(v)| > 1 ==> Encode(v)[|Encode(v)| - 1] > 0
  {
    if v >= 128 {
      LastNotZero(v / 128);
    }
  }

  lemma Read64Encode(v: uint64, rest: seq<byte>)
    ensures Read64(Encode(v) + rest) == Some((v, rest))
  {
    ReadEncodeTen(v, rest);
  }

  /** A 32-bit reader sees the low half of what was written. */
  lemma Read32Encode(v: uint64, rest: seq<byte>)
    ensures Read32(Encode(v) + rest) == Some((ToUint32(v), rest))
  {
    ReadEncodeTen(v, rest);
  }

  lemma ReadBytesEncode(payload: seq<byte>, rest: seq<byte>)
    requires |payload| < TWO_31
    ensures ReadBytes(Encode(|payload|) + payload + rest) == Some((payload, rest))
  {
    Read32Small(|payload|, payload + rest);
    ReadBytesAfter(Encode(|payload|), payload, rest);
  }

  lemma Read32Small(v: uint32, rest: seq<byte>)
    ensures Read32(Encode(v) + rest) == Some((v, rest))
  {
    assert ToUint32(v) == v;
    Read32Encode(v, rest);
  }

  lemma Delimited(s: seq<byte>, n: uint32, body: seq<byte>)
    requires Read32(s) == Some((n, body)) && n < TWO_31 && n <= |body|
    ensures ReadBytes(s) == Some((body[..n], body[n..]))
  {
  }

  lemma ReadBytesAfter(head: seq<byte>, payload: seq<byte>, rest: seq<byte>)
    requires |payload| < TWO_31 && Read32(head + (payload + rest)) == Some((|payload|, payload + rest))
    ensures ReadBytes(head + payload + rest) == Some((payload, rest))
  {
    assert head + payload + rest == head + (payload + rest);
    Delimited(head + payload + rest, |payload|, payload + rest);
    assert (payload + rest)[..|payload|] == payload && (payload + rest)[|payload|..] == rest;
  }

  /** Number of seven-bit groups of a 64-bit value, by thresholds. */
  function Size64(v: uint64): (r: nat)
    ensures 1 <= r <= 10
  {
    if v < 0x80 then 1
    else if v < 0x4000 then 2
    else if v < 0x20_0000 then 3
    else if v < 0x1000_0000 then 4
    else if v < 0x8_0000_0000 then 5
    else if v < 0x400_0000_0000 then 6
    else if v < 0x2_0000_0000_0000 then 7
    else if v < 0x100_0000_0000_0000 then 8
    else if v < 0x8000_0000_0000_0000 then 9
    else 10
  }

  lemma {:induction false} Size64Exact(v: uint64)
    ensures |Encode(v)| == Size64(v)
    decreases v
  {
    if v >= 128 {
      Size64Exact(v / 128);
    }
  }

  lemma ScaleStep(acc: nat, scale: nat, low: nat, high: nat)
    ensures acc + scale * (low + 128 * high) == acc + scale * low + 128 * scale * high
  {
  }

  /** Input side of a flat array. */
  class CodedInputStream {
    var rest: seq<byte>

    constructor (data: seq<byte>)
      ensures rest == data
    {
      rest := data;
    }

    method ReadVarint() returns (ok: bool, value: nat)
      modifies this
      ensures ok <==> Read(old(rest), MAX_VARINT_BYTES).Some?
      ensures ok ==> Read(old(rest), MAX_VARINT_BYTES) == Some((value, rest))
    {
      var i := 0;
      var scale: nat := 1;
      value := 0;
      while i < MAX_VARINT_BYTES && rest != []
        invariant 0 <= i <= MAX_VARINT_BYTES
        invariant match Read(rest, MAX_VARINT_BYTES - i)
                  case None => Read(old(rest), MAX_VARINT_BYTES) == None
                  case Some((high, left)) => Read(old(rest), MAX_VARINT_BYTES) == Some((value + scale * high, left))
      {
        var b := rest[0];
        rest := rest[1..];
        if b < 128 {
          value := value + scale * b;
          return true, value;
        }
        ghost var tail := Read(rest, MAX_VARINT_BYTES - i - 1);
        if tail.Some? {
          ScaleStep(value, scale, b - 128, tail.value.0);
        }
        value, scale, i := value + scale * (b - 128), 128 * scale, i + 1;
      }
      ok := false;
    }

    method ReadVarint64() returns (ok: bool, value: uint64)
      modifies this
      ensures ok <==> Read64(old(rest)).Some?
      ensures ok ==> Read64(old(rest)) == Some((value, rest))
    {
      var wide;
      ok, wide := ReadVarint();
      value := ToUint64(wide);
    }

    method ReadVarint32() returns (ok: bool, value: uint32)
      modifies this
      ensures ok <==> Read32(old(rest)).Some?
      ensures ok ==> Read32(old(rest)) == Some((value, rest))
    {
      var wide;
      ok, wide := ReadVarint();
      value := ToUint32(wide);
    }

    /** Reads into a target that holds `current`. */
    method ReadLengthDelimited(current: seq<byte>) returns (ok: bool, value: seq<byte>)
      modifies this
      ensures ok <==> ReadBytes(old(rest)).Some?
      ensures ok ==> ReadBytes(old(rest)) == Some((value, rest))
      ensures !ok ==> value == CutOff(current, old(rest))
    {
      var n;
      ok, n := ReadVarint32();
      if !ok || n >= TWO_31 {
        return false, current;
      }
      if |rest| < n {
        return false, rest;
      }
      value := rest[..n];
      rest := rest[n..];
    }
  }

  /** Output side, growing. */
  class CodedOutputStream {
    var written: seq<byte>

    constructor ()
      ensures written == []
    {
      written := [];
    }

    method WriteRaw(bytes: seq<byte>)
      modifies this
      ensures written == old(written) + bytes
    {
      written := written + bytes;
    }

    method WriteVarint(value: uint64)
      modifies this
      ensures written == old(written) + Encode(value)
    {
      var v := value;
      while v >= 128
        invariant 0 <= v <= value
        invariant written + Encode(v) == old(written) + Encode(value)
      {
        assert written + Encode(v) == written + [128 + v % 128] + Encode(v / 128);
        written := written + [128 + v % 128];
        v := v / 128;
      }
      written := written + [v];
    }
  }

  /** The same bytes written in place at `start`; returns where they end. */
  method WriteVarintToArray(value: uint64, target: array<byte>, start: nat) returns (end: nat)
    requires start + |Encode(value)| <= target.Length
    modifies target
    ensures end == start + |Encode(value)|
    ensures target[..end] == old(target[..start]) + Encode(value)
    ensures forall i :: end <= i < target.Length ==> target[i] == old(target[i])
  {
    var v := value;
    end := start;
    while v >= 128
      invariant 0 <= v <= value
      invariant start <= end && end + |Encode(v)| == start + |Encode(value)|
      invariant target[..end] + Encode(v) == old(target[..start]) + Encode(value)
      invariant forall i :: start + |Encode(value)| <= i < target.Length ==> target[i] == old(target[i])
    {
      assert target[..end] + Encode(v) == target[..end] + [128 + v % 128] + Encode(v / 128);
      target[end] := 128 + v % 128;
      end := end + 1;
      v := v / 128;
      assert target[..end] == target[..end - 1] + [target[end - 1]];
    }
    target[end] := v;
    end := end + 1;
    assert target[..end] == target[..end - 1] + [v];
  }
}
