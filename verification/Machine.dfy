/** The machine integers of the driver and the server: a 64-bit `size_t`, a signed
    64-bit `loff_t`, a 32-bit `int` and `uint32_t`, and bytes. */
module Machine {

  newtype Byte = x: int | 0 <= x < 256
  newtype UInt8 = x: int | 0 <= x < 256

  const NEWLINE: Byte := 10

  const TWO_64: int := 0x1_0000_0000_0000_0000
  const TWO_63: int := 0x8000_0000_0000_0000
  const TWO_32: int := 0x1_0000_0000
  const TWO_31: int := 0x8000_0000

  type SizeT = x: int | 0 <= x < TWO_64
  type UInt32 = x: int | 0 <= x < TWO_32
  type Loff = x: int | -TWO_63 <= x < TWO_63
  type CInt = x: int | -TWO_31 <= x < TWO_31

  /** Unsigned 64-bit arithmetic keeps the value modulo 2^64. */
  function ToSize(x: int): (r: SizeT)
    ensures 0 <= x < TWO_64 ==> r == x
  {
    x % TWO_64
  }

  /** The remainder of nonnegative integers. */
  function Remainder(x: nat, m: nat): (r: nat)
    requires 0 < m
    ensures r < m
  {
    x % m
  }

  /** Conversion to a signed 64-bit integer, two's complement. */
  function ToLoff(x: int): (r: Loff)
    ensures -TWO_63 <= x < TWO_63 ==> r == x
  {
    (x + TWO_63) % TWO_64 - TWO_63
  }

  /** Conversion to a signed 32-bit integer, two's complement. */
  function ToInt(x: int): (r: CInt)
    ensures -TWO_31 <= x < TWO_31 ==> r == x
  {
    (x + TWO_31) % TWO_32 - TWO_31
  }

  /** The conversions drop high bits and keep the others: the result differs from the value by a multiple
      of 2^64, or of 2^32 for an `int`. With the range of the result this names one value. */
  lemma ConversionsKeepLowBits(x: int)
    ensures (x - ToSize(x)) % 0x1_0000_0000_0000_0000 == 0
    ensures (x - ToLoff(x)) % 0x1_0000_0000_0000_0000 == 0
    ensures (x - ToInt(x)) % 0x1_0000_0000 == 0
  {
    Multiples(x / TWO_64);
    Multiples((x + TWO_63) / TWO_64);
    Multiples((x + TWO_31) / TWO_32);
    assert x - ToSize(x) == 0x1_0000_0000_0000_0000 * (x / TWO_64);
    assert x - ToLoff(x) == 0x1_0000_0000_0000_0000 * ((x + TWO_63) / TWO_64);
    assert x - ToInt(x) == 0x1_0000_0000 * ((x + TWO_31) / TWO_32);
  }

  lemma Multiples(k: int)
    ensures (0x1_0000_0000_0000_0000 * k) % 0x1_0000_0000_0000_0000 == 0
    ensures (0x1_0000_0000 * k) % 0x1_0000_0000 == 0
  {
  }
}
