/** Fixed-width integer types of the bitmap program, as subset types of int,
    and the conversions between a 32-bit signed value and its bit pattern. */
module Ints {

  /** An `unsigned char` of the pixel buffer, or one byte of the file. */
  type Byte = b: int | 0 <= b < 0x100

  /** `uint16_t` */
  type U16 = v: int | 0 <= v < 0x1_0000

  /** `uint32_t` */
  type U32 = v: int | 0 <= v < 0x1_0000_0000

  /** `int32_t`, and the program's `int` */
  type I32 = v: int | -0x8000_0000 <= v < 0x8000_0000

  const INT32_MAX: int := 0x7FFF_FFFF

  const TWO_TO_32: int := 0x1_0000_0000

  /** The 32-bit pattern of a signed value (two's complement). */
  function AsUnsigned(v: I32): (u: U32)
    ensures (u - v) % TWO_TO_32 == 0
    ensures u < 0x8000_0000 <==> 0 <= v
  {
    if v < 0 then v + TWO_TO_32 else v
  }

  /** The signed value a 32-bit pattern stands for (two's complement). */
  function AsSigned(u: U32): (v: I32)
    ensures (u - v) % TWO_TO_32 == 0
    ensures u < 0x8000_0000 <==> 0 <= v
  {
    if u < 0x8000_0000 then u else u - TWO_TO_32
  }

  lemma SignedUnsignedInverse(v: I32, u: U32)
    ensures AsSigned(AsUnsigned(v)) == v
    ensures AsUnsigned(AsSigned(u)) == u
  {
  }

  /** C's `a / 8` on `int`: the quotient truncated toward zero (Dafny's `/`
      is Euclidean and differs for negative a). */
  function TruncDiv8(a: int): (q: int)
    ensures 0 <= a ==> 0 <= 8 * q <= a < 8 * q + 8
    ensures a < 0 ==> 8 * q - 8 < a <= 8 * q <= 0
  {
    if 0 <= a then a / 8 else -((-a) / 8)
  }
}
