/** Java's fixed-width integers as Dafny subset types of `int`, with the
    two's-complement views the wire codec needs and the narrowing casts and
    wrapping increments the hosts perform. */
module JavaInts {

  /** A Java `byte`. */
  type Int8 = x: int | -0x80 <= x < 0x80

  /** A Java `int`. */
  type Int32 = x: int | -0x8000_0000 <= x < 0x8000_0000

  /** One octet of a datagram, read unsigned, as masking a Java `byte` with 255 does. */
  type Byte = x: int | 0 <= x < 0x100

  const INT32_MIN: Int32 := -0x8000_0000
  const INT32_MAX: Int32 := 0x7FFF_FFFF

  /** The Java narrowing cast `(byte) x`: keep the low eight bits, read them signed. */
  function ToInt8(x: int): (r: Int8)
    ensures (r - x) % 0x100 == 0
    ensures -0x80 <= x < 0x80 ==> r == x
  {
    (x + 0x80) % 0x100 - 0x80
  }

  /** Reduction of an unbounded integer to Java's 32-bit wrap-around result. */
  function Wrap32(x: int): (r: Int32)
    ensures (r - x) % 0x1_0000_0000 == 0
    ensures INT32_MIN <= x <= INT32_MAX ==> r == x
  {
    (x + 0x8000_0000) % 0x1_0000_0000 - 0x8000_0000
  }

  /** Java's `x++` on an `int`: wraps from the largest value to the smallest. */
  function Inc32(x: Int32): (r: Int32)
    ensures x < INT32_MAX ==> r == x + 1
    ensures x == INT32_MAX ==> r == INT32_MIN
  {
    if x == INT32_MAX then INT32_MIN else x + 1
  }

  /** The 32-bit pattern of a Java `int`, read unsigned. */
  function Unsigned32(x: Int32): (u: int)
    ensures 0 <= u < 0x1_0000_0000
    ensures x >= 0 ==> u == x
    ensures x < 0 ==> u == x + 0x1_0000_0000
  {
    x % 0x1_0000_0000
  }

  /** The Java `int` whose 32-bit pattern, read unsigned, is `u`. */
  function Int32OfUnsigned(u: int): (x: Int32)
    requires 0 <= u < 0x1_0000_0000
    ensures Unsigned32(x) == u
  {
    if u < 0x8000_0000 then u else u - 0x1_0000_0000
  }

  /** The octet a Java `byte` is stored as: `result[i] = b`. */
  function ByteOfInt8(x: Int8): (b: Byte)
    ensures x >= 0 ==> b == x
  {
    x % 0x100
  }

  /** The Java `byte` read back from an octet: `byte b = data[i]`. */
  function Int8OfByte(b: Byte): (x: Int8)
    ensures ByteOfInt8(x) == b
  {
    if b < 0x80 then b else b - 0x100
  }

  /** Java's `a | b` on non-negative values (bitwise or). */
  function BitOr(a: nat, b: nat): nat
    decreases a + b
  {
    if a == 0 && b == 0 then 0
    else 2 * BitOr(a / 2, b / 2) + (if a % 2 == 1 || b % 2 == 1 then 1 else 0)
  }

  lemma {:induction false} BitOrZero(b: nat)
    ensures BitOr(0, b) == b
    decreases b
  {
    if b != 0 {
      BitOrZero(b / 2);
    }
  }

  lemma Int8RoundTrip(x: Int8)
    ensures Int8OfByte(ByteOfInt8(x)) == x
  {
  }

  lemma Int32RoundTrip(x: Int32)
    ensures Int32OfUnsigned(Unsigned32(x)) == x
  {
  }
}
