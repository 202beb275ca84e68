/** Fixed-width integers as the C++ sources use them, and the conversions that
    silently happen between them. */
module MachineInt {
  const TWO_31: int := 0x8000_0000
  const TWO_32: int := 0x1_0000_0000
  const TWO_63: int := 0x8000_0000_0000_0000
  const TWO_64: int := 0x1_0000_0000_0000_0000

  type byte = x: int | 0 <= x < 256
  type uint32 = x: int | 0 <= x < 0x1_0000_0000
  type int32 = x: int | -0x8000_0000 <= x < 0x8000_0000
  type uint64 = x: int | 0 <= x < 0x1_0000_0000_0000_0000
  type int64 = x: int | -0x8000_0000_0000_0000 <= x < 0x8000_0000_0000_0000

  datatype Option<+T> = None | Some(value: T)

  /** Conversion to `uint32_t`: reduction modulo 2^32. */
  function ToUint32(x: int): (r: uint32)
    ensures 0 <= x < TWO_32 ==> r == x
  {
    x % TWO_32
  }

  /** Conversion to `uint64_t`: reduction modulo 2^64. */
  function ToUint64(x: int): (r: uint64)
    ensures 0 <= x < TWO_64 ==> r == x
  {
    x % TWO_64
  }

  /** Conversion to `int`: the value congruent modulo 2^32 in two's complement. */
  function ToInt32(x: int): (r: int32)
    ensures -TWO_31 <= x < TWO_31 ==> r == x
    ensures ToUint32(r) == ToUint32(x)
  {
    var u := x % TWO_32;
    if u < TWO_31 then u else u - TWO_32
  }

  /** Conversion to `int64_t` or `long`. */
  function ToInt64(x: int): (r: int64)
    ensures -TWO_63 <= x < TWO_63 ==> r == x
    ensures ToUint64(r) == ToUint64(x)
  {
    var u := x % TWO_64;
    if u < TWO_63 then u else u - TWO_64
  }

  lemma ModulusTwice(x: int)
    ensures x % TWO_64 % TWO_32 == x % TWO_32
  {
    var k := x / TWO_32 - TWO_32 * (x / TWO_64);
    assert x % TWO_64 == TWO_32 * k + x % TWO_32;
  }

  /** Narrowing after a `size_t` computation sees only the low 32 bits. */
  lemma NarrowTwice(x: int)
    ensures ToInt32(ToUint64(x)) == ToInt32(x)
  {
    ModulusTwice(x);
  }
}
