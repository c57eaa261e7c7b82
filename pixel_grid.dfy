/** Geometry of the packed pixel buffer: 3 channel bytes per pixel, row-major,
    no row padding (the way the rotation and the blur address it). */
module PixelGrid {

  /** Bytes per pixel: one per colour channel. */
  const CHANNELS: int := 3

  /** Number of pixels that the loops `0 <= x < width`, `0 <= y < height` visit. */
  function Area(width: int, height: int): nat
  {
    if width <= 0 || height <= 0 then 0 else width * height
  }

  /** Byte offset of channel c of pixel (x, y): `(y * width + x) * 3` plus the channel. */
  function PixelOffset(width: int, x: int, y: int, c: int): (offset: int)
  {
    (y * width + x) * CHANNELS + c
  }

  /** Quotient and remainder are determined by the division equation. */
  lemma DivModUnique(a: int, b: int, q: int, r: int)
    requires 0 < b && 0 <= r < b && a == q * b + r
    ensures a / b == q && a % b == r
  {
    var q', r' := a / b, a % b;
    assert a == q' * b + r' && 0 <= r' < b;
    if q' != q {
      var d := q' - q;
      assert d * b == r - r' by {
        assert q' * b - q * b == d * b;
      }
      MulAtLeastOne(if d > 0 then d else -d, b);
    }
  }

  /** A product with a factor of at least one is at least the other factor. */
  lemma MulAtLeastOne(d: int, b: int)
    requires 1 <= d && 0 < b
    ensures b <= d * b && -(d * b) == (-d) * b
  {
  }

  /** A pixel of the grid lies inside the packed buffer, and its offset
      decodes back to its coordinates and channel. */
  lemma {:induction false} OffsetInGrid(width: int, height: int, x: int, y: int, c: int)
    requires 0 <= x < width && 0 <= y < height && 0 <= c < CHANNELS
    ensures 0 <= y * width + x < Area(width, height)
    ensures 0 <= PixelOffset(width, x, y, c) < CHANNELS * Area(width, height)
    ensures PixelOffset(width, x, y, c) / CHANNELS == y * width + x
    ensures PixelOffset(width, x, y, c) % CHANNELS == c
    ensures (y * width + x) / width == y && (y * width + x) % width == x
  {
    var p := y * width + x;
    MulMonotone(y, height - 1, width);
    assert (height - 1) * width + width == width * height;
    assert p < Area(width, height);
    DivModUnique(p, width, y, x);
    DivModUnique(PixelOffset(width, x, y, c), CHANNELS, p, c);
  }

  /** Multiplication by a non-negative factor keeps order. */
  lemma MulMonotone(a: int, b: int, w: int)
    requires a <= b && 0 <= w
    ensures a * w <= b * w
  {
  }

  /** Every pixel index of the grid is the index of exactly one coordinate pair. */
  lemma {:induction false} PixelCoordinates(width: int, height: int, p: int)
    requires 0 <= p < Area(width, height)
    ensures 0 < width && 0 < height
    ensures 0 <= p % width < width && 0 <= p / width < height
    ensures p == (p / width) * width + p % width
  {
  }
}
