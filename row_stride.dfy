/** The row stride of lines 171 and 232: `(width * bitsPerPixel / 8 + 3) & ~3`,
    on 32-bit `int`s, which rounds the byte length of a row up to a multiple
    of 4. */
module RowStride {
  import opened Ints
  import opened PixelGrid

  /** 2 to the power k. */
  function Pow2(k: nat): (p: nat)
    ensures 1 <= p
  {
    if k == 0 then 1 else 2 * Pow2(k - 1)
  }

  /** Exponents add. */
  lemma {:induction false} Pow2Add(a: nat, b: nat)
    ensures Pow2(a + b) == Pow2(a) * Pow2(b)
  {
    if b > 0 {
      Pow2Add(a, b - 1);
      assert Pow2(a + b) == 2 * Pow2(a + b - 1);
    }
  }

  /** Bitwise AND of two non-negative integers, one bit at a time from the
      least significant end. */
  function BitAnd(a: nat, b: nat): (r: nat)
    ensures r <= a && r <= b
  {
    if a == 0 || b == 0 then 0
    else 2 * BitAnd(a / 2, b / 2) + (if a % 2 == 1 && b % 2 == 1 then 1 else 0)
  }

  /** The complement of 3, `~3`, as a 32-bit pattern: every bit but the two lowest. */
  const NOT_THREE: int := 0xFFFF_FFFC

  /** Masking with k low one-bits keeps a value below 2^k unchanged. */
  lemma {:induction false} BitAndLowOnes(x: nat, k: nat)
    requires x < Pow2(k)
    ensures BitAnd(x, Pow2(k) - 1) == x
  {
    if x != 0 {
      assert 1 <= k;
      assert (Pow2(k) - 1) / 2 == Pow2(k - 1) - 1 && (Pow2(k) - 1) % 2 == 1;
      BitAndLowOnes(x / 2, k - 1);
    }
  }

  /** Masking a 32-bit pattern with `~3` clears its two lowest bits. */
  lemma ClearLowBitsPattern(u: U32)
    ensures BitAnd(u, NOT_THREE) == u - u % 4
  {
    var h, q := u / 2, u / 4;
    assert q == h / 2;
    assert Pow2(10) == 0x400;
    Pow2Add(10, 10);
    Pow2Add(20, 10);
    BitAndLowOnes(q, 30);
    assert BitAnd(q, 0x3FFF_FFFF) == q;
    assert BitAnd(h, 0x7FFF_FFFE) == 2 * q;
    assert BitAnd(u, NOT_THREE) == 4 * q;
  }

  /** `v & ~3` on a 32-bit signed `int`: v rounded down to a multiple of 4
      (toward minus infinity, as two's complement does for negative v). */
  function ClearLowTwoBits(v: I32): (r: I32)
    ensures r == v - v % 4
  {
    ClearLowTwoBitsValue(v);
    AsSigned(BitAnd(AsUnsigned(v), NOT_THREE))
  }

  /** Two's complement and clearing the low bits commute with rounding down
      to a multiple of 4. */
  lemma ClearLowTwoBitsValue(v: I32)
    ensures BitAnd(AsUnsigned(v), NOT_THREE) < TWO_TO_32
    ensures AsSigned(BitAnd(AsUnsigned(v), NOT_THREE)) == v - v % 4
  {
    var u := AsUnsigned(v);
    ClearLowBitsPattern(u);
    var q, r := v / 4, v % 4;
    if v < 0 {
      assert u == 4 * (q + 0x4000_0000) + r;
      DivModUnique(u, 4, q + 0x4000_0000, r);
    }
  }

  /** The row size of lines 171 and 232. The source computes
      `width * bitsPerPixel` as an `int`, so the product must fit in 32 bits. */
  function RowSize(width: I32, bitsPerPixel: U16): (r: I32)
    requires -0x8000_0000 <= width * bitsPerPixel <= INT32_MAX
  {
    ClearLowTwoBits(TruncDiv8(width * bitsPerPixel) + 3)
  }

  /** For a non-negative width the row size is `width * bitsPerPixel / 8`
      rounded up to the next multiple of 4: a multiple of 4, at least the
      row's byte length and less than 4 bytes more. */
  lemma {:induction false} RowSizeRoundsUp(width: I32, bitsPerPixel: U16)
    requires 0 <= width && width * bitsPerPixel <= INT32_MAX
    ensures var n, r := width * bitsPerPixel / 8, RowSize(width, bitsPerPixel);
      r % 4 == 0 && n <= r < n + 4
  {
    MulMonotone(0, width, bitsPerPixel);
    RoundsUp(width * bitsPerPixel);
  }

  /** Adding 3 and clearing the two low bits rounds a non-negative byte
      count up to a multiple of 4. */
  lemma RoundsUp(p: int)
    requires 0 <= p <= INT32_MAX
    ensures var n, r := p / 8, ClearLowTwoBits(TruncDiv8(p) + 3); r % 4 == 0 && n <= r < n + 4
  {
    var n := p / 8;
    assert TruncDiv8(p) == n;
    var v := n + 3;
    var r := ClearLowTwoBits(v);
    assert r == 4 * (v / 4);
    DivModUnique(r, 4, v / 4, 0);
  }

  /** A 24-bit row holds its width's 3-byte pixels: the stride is at least
      3 * width, so a `rowSize * height` buffer holds the packed grid the
      rotation and the blur address. */
  lemma {:induction false} RowHoldsPixels(width: I32, bitsPerPixel: U16)
    requires 0 <= width && width * bitsPerPixel <= INT32_MAX
    requires 24 <= bitsPerPixel
    ensures 3 * width <= RowSize(width, bitsPerPixel)
  {
    RowSizeRoundsUp(width, bitsPerPixel);
    MulMonotone(24, bitsPerPixel, width);
    assert 24 * width / 8 == 3 * width;
  }
}
