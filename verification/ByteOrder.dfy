/** Fixed-width unsigned integers as bytes, in network (big-endian) or
    little-endian order, as the framing codecs read and write them. */
module ByteOrder {
  import opened MachineInt

  /** 256 to the power `width`. */
  function Capacity(width: nat): (r: nat)
    ensures r >= 1
  {
    if width == 0 then 1 else 256 * Capacity(width - 1)
  }

  function ToLittle(v: nat, width: nat): (s: seq<byte>)
    ensures |s| == width
  {
    if width == 0 then [] else [v % 256] + ToLittle(v / 256, width - 1)
  }

  function ToBig(v: nat, width: nat): (s: seq<byte>)
    ensures |s| == width
  {
    if width == 0 then [] else ToBig(v / 256, width - 1) + [v % 256]
  }

  function FromLittle(s: seq<byte>): nat {
    if s == [] then 0 else s[0] + 256 * FromLittle(s[1..])
  }

  function FromBig(s: seq<byte>): nat {
    if s == [] then 0 else 256 * FromBig(s[..|s| - 1]) + s[|s| - 1]
  }

  function ToBytes(v: nat, width: nat, network: bool): (s: seq<byte>)
    ensures |s| == width
  {
    if network then ToBig(v, width) else ToLittle(v, width)
  }

  function FromBytes(s: seq<byte>, network: bool): nat {
    if network then FromBig(s) else FromLittle(s)
  }

  /** Reading back a field gives what was written exactly when it fits; a value
      that does not fit is cut down to the field. */
  lemma {:induction false} BytesRoundTrip(v: nat, width: nat, network: bool)
    ensures FromBytes(ToBytes(v, width, network), network) == v % Capacity(width)
  {
    if width > 0 {
      BytesRoundTrip(v / 256, width - 1, network);
      SplitModulus(v, Capacity(width - 1));
      if network {
        assert ToBig(v, width)[..width - 1] == ToBig(v / 256, width - 1);
      } else {
        assert ToLittle(v, width)[1..] == ToLittle(v / 256, width - 1);
      }
    }
  }

  lemma SplitModulus(v: nat, c: nat)
    requires c >= 1
    ensures 256 * (v / 256 % c) + v % 256 == v % (256 * c)
  {
    var q, r := v / 256 / c, v / 256 % c;
    assert v == 256 * (c * q + r) + v % 256;
    assert v == (256 * c) * q + (256 * r + v % 256);
    ModulusUnique(v, 256 * c, q, 256 * r + v % 256);
  }

  lemma ModulusUnique(v: nat, m: nat, q: nat, r: nat)
    requires 0 <= r < m && v == m * q + r
    ensures v % m == r
  {
    var d: int := v / m - q;
    assert m * d == r - v % m by {
      assert m * (v / m) == m * q + m * d;
    }
    assert 0 - m < m * d < m;
    assert d == 0;
  }

  /** Which byte stands where: the byte of weight 256^i is the i-th from the front in
      little-endian order and the i-th from the back in network order. */
  lemma {:induction false} BytePositions(v: nat, width: nat, i: nat)
    requires i < width
    ensures ToBytes(v, width, false)[i] == v / Capacity(i) % 256
    ensures ToBytes(v, width, true)[width - 1 - i] == v / Capacity(i) % 256
    decreases width
  {
    if i > 0 {
      BytePositions(v / 256, width - 1, i - 1);
      DivideTwice(v, 256, Capacity(i - 1));
    } else {
      assert Capacity(0) == 1;
    }
  }

  lemma DivideTwice(v: nat, b: nat, c: nat)
    requires b >= 1 && c >= 1
    ensures v / b / c == v / (b * c)
  {
    TwoDivisions(v, b, c, v / b, v % b, v / b / c, v / b % c);
  }

  lemma TwoDivisions(v: nat, b: nat, c: nat, u: nat, w: nat, q: nat, r: nat)
    requires v == b * u + w && u == c * q + r && w < b && r < c
    ensures v / (b * c) == q
  {
    assert b * (c * q + r) == b * c * q + b * r;
    assert b * (r + 1) <= b * c;
    QuotientUnique(v, b * c, q, b * r + w);
  }

  lemma QuotientUnique(v: nat, m: nat, q: nat, r: nat)
    requires 0 <= r < m && v == m * q + r
    ensures v / m == q
  {
    ModulusUnique(v, m, q, r);
    assert m * (v / m) == m * q;
    assert m * (v / m - q) == 0;
  }

  lemma {:induction false} FromBytesBound(s: seq<byte>, network: bool)
    ensures FromBytes(s, network) < Capacity(|s|)
  {
    if s != [] {
      FromBytesBound(if network then s[..|s| - 1] else s[1..], network);
    }
  }
}
