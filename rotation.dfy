/** The 90-degree rotation of `rotateImage90Degrees`: the channel triple of
    source pixel (x, y) moves to destination pixel `(width - x - 1) * height + y`
    of a fresh zero-filled buffer of the same length. Pixels are packed
    3 bytes each; BMP row padding is not taken into account. */
module Rotation {
  import opened Ints
  import opened PixelGrid

  /** The destination byte offset of line 117, plus the channel. */
  function RotatedOffset(width: int, height: int, x: int, y: int, c: int): int
  {
    ((width - x - 1) * height + y) * CHANNELS + c
  }

  /** The source pixel whose triple lands on destination pixel p: the inverse
      of the map `(x, y) -> (width - x - 1) * height + y`. */
  function SourcePixel(width: int, height: int, p: int): (q: int)
    requires 0 < height
  {
    (p % height) * width + (width - 1 - p / height)
  }

  /** The destination map sends the grid into [0, width * height), and
      SourcePixel undoes it. */
  lemma {:induction false} DestinationOfPixel(width: int, height: int, x: int, y: int)
    requires 0 <= x < width && 0 <= y < height
    ensures 0 <= (width - x - 1) * height + y < Area(width, height)
    ensures SourcePixel(width, height, (width - x - 1) * height + y) == y * width + x
  {
    OffsetInGrid(height, width, y, width - x - 1, 0);
    DivModUnique((width - x - 1) * height + y, height, width - x - 1, y);
  }

  /** Every destination pixel p is the image of exactly the pixel
      (width - 1 - p / height, p % height): the destination map is onto. */
  lemma {:induction false} SourceOfPixel(width: int, height: int, p: int)
    requires 0 <= p < Area(width, height)
    ensures 0 < width && 0 < height
    ensures 0 <= width - 1 - p / height < width && 0 <= p % height < height
    ensures (width - (width - 1 - p / height) - 1) * height + p % height == p
    ensures 0 <= SourcePixel(width, height, p) < Area(width, height)
  {
    PixelCoordinates(height, width, p);
    OffsetInGrid(width, height, width - 1 - p / height, p % height, 0);
  }

  /** No two source pixels share a destination. */
  lemma {:induction false} DestinationInjective(width: int, height: int, x1: int, y1: int, x2: int, y2: int)
    requires 0 <= x1 < width && 0 <= y1 < height
    requires 0 <= x2 < width && 0 <= y2 < height
    requires (width - x1 - 1) * height + y1 == (width - x2 - 1) * height + y2
    ensures x1 == x2 && y1 == y2
  {
    DestinationOfPixel(width, height, x1, y1);
    DestinationOfPixel(width, height, x2, y2);
    OffsetInGrid(width, height, x1, y1, 0);
    OffsetInGrid(width, height, x2, y2, 0);
  }

  /** Byte k of the rotated buffer: a copy of the source pixel's channel
      inside the first 3 * width * height bytes, 0 (the fresh buffer's fill)
      beyond. */
  function RotatedByte(s: seq<Byte>, width: int, height: int, k: int): (v: Byte)
    requires CHANNELS * Area(width, height) <= |s| && 0 <= k
  {
    if k < CHANNELS * Area(width, height) then
      SourceOfPixel(width, height, k / CHANNELS);
      s[SourcePixel(width, height, k / CHANNELS) * CHANNELS + k % CHANNELS]
    else
      0
  }

  /** The buffer `rotateImage90Degrees` leaves in `pixels`, stated through
      the inverse map: every destination byte names the source byte it copies. */
  function Rotated(s: seq<Byte>, width: int, height: int): (r: seq<Byte>)
    requires CHANNELS * Area(width, height) <= |s|
    ensures |r| == |s|
  {
    seq(|s|, k requires 0 <= k < |s| => RotatedByte(s, width, height, k))
  }

  /** One channel of one pixel: both offsets of lines 113 and 117 are in
      bounds, and the rotated buffer holds the source byte at the destination. */
  lemma {:induction false} RotatedAt(s: seq<Byte>, width: int, height: int, x: int, y: int, c: int)
    requires CHANNELS * Area(width, height) <= |s|
    requires 0 <= x < width && 0 <= y < height && 0 <= c < CHANNELS
    ensures 0 <= PixelOffset(width, x, y, c) < CHANNELS * Area(width, height)
    ensures 0 <= RotatedOffset(width, height, x, y, c) < CHANNELS * Area(width, height)
    ensures Rotated(s, width, height)[RotatedOffset(width, height, x, y, c)] == s[PixelOffset(width, x, y, c)]
  {
    OffsetInGrid(width, height, x, y, c);
    DestinationOfPixel(width, height, x, y);
    var p := (width - x - 1) * height + y;
    DivModUnique(RotatedOffset(width, height, x, y, c), CHANNELS, p, c);
  }

  /** The whole contract of the copy loop: every byte index it touches is
      below 3 * width * height, every source channel reaches its destination,
      and the bytes past the pixel grid stay 0. */
  lemma {:induction false} RotatedMovesPixels(s: seq<Byte>, width: int, height: int)
    requires CHANNELS * Area(width, height) <= |s|
    ensures forall x, y, c :: 0 <= x < width && 0 <= y < height && 0 <= c < CHANNELS ==>
      0 <= PixelOffset(width, x, y, c) < CHANNELS * Area(width, height) &&
      0 <= RotatedOffset(width, height, x, y, c) < CHANNELS * Area(width, height) &&
      Rotated(s, width, height)[RotatedOffset(width, height, x, y, c)] == s[PixelOffset(width, x, y, c)]
    ensures forall k :: CHANNELS * Area(width, height) <= k < |s| ==> Rotated(s, width, height)[k] == 0
  {
    forall x, y, c | 0 <= x < width && 0 <= y < height && 0 <= c < CHANNELS
      ensures 0 <= PixelOffset(width, x, y, c) < CHANNELS * Area(width, height)
      ensures 0 <= RotatedOffset(width, height, x, y, c) < CHANNELS * Area(width, height)
      ensures Rotated(s, width, height)[RotatedOffset(width, height, x, y, c)] == s[PixelOffset(width, x, y, c)]
    {
      RotatedAt(s, width, height, x, y, c);
    }
  }

  /** Bytes at the end of the rotated buffer that hold the columns
      x, x + 1, ..., width - 1 of the source once they are copied. */
  function ColumnsFrom(width: int, height: int, x: int): int
  {
    CHANNELS * ((width - x) * height)
  }

  /** Copies the pixels of a width x height image into a fresh buffer of the
      same length, rotated by 90 degrees (lines 104-128). */
  method RotateImage90Degrees(pixels: array<Byte>, width: I32, height: I32) returns (rotated: array<Byte>)
    requires CHANNELS * Area(width, height) <= pixels.Length
    requires CHANNELS * Area(width, height) <= INT32_MAX
    ensures fresh(rotated)
    ensures rotated[..] == Rotated(pixels[..], width, height)
  {
    ghost var r := Rotated(pixels[..], width, height);
    ghost var n := CHANNELS * Area(width, height);
    rotated := new Byte[pixels.Length](_ => 0);
    var x: I32 := 0;
    while x < width
      invariant 0 <= x && (x <= width || x == 0)
      invariant forall k :: 0 <= k < rotated.Length ==>
        rotated[k] == if ColumnsFrom(width, height, x) <= k < n then r[k] else 0
    {
      RotatedColumn(pixels[..], width, height, x);
      RotateColumn(pixels, rotated, width, height, x, r);
      x := x + 1;
    }
  }

  /** The destinations of source column x, as `RotateColumn` needs them. */
  lemma {:induction false} RotatedColumn(s: seq<Byte>, width: int, height: int, x: int)
    requires CHANNELS * Area(width, height) <= |s|
    requires 0 <= x < width
    ensures forall y, c :: 0 <= y < height && 0 <= c < CHANNELS ==>
      0 <= PixelOffset(width, x, y, c) < CHANNELS * Area(width, height) &&
      0 <= RotatedOffset(width, height, x, y, c) < CHANNELS * Area(width, height) &&
      Rotated(s, width, height)[RotatedOffset(width, height, x, y, c)] == s[PixelOffset(width, x, y, c)]
    ensures ColumnsFrom(width, height, x) == ColumnsFrom(width, height, x + 1) + CHANNELS * height
  {
    forall y, c | 0 <= y < height && 0 <= c < CHANNELS
      ensures 0 <= PixelOffset(width, x, y, c) < CHANNELS * Area(width, height)
      ensures 0 <= RotatedOffset(width, height, x, y, c) < CHANNELS * Area(width, height)
      ensures Rotated(s, width, height)[RotatedOffset(width, height, x, y, c)] == s[PixelOffset(width, x, y, c)]
    {
      RotatedAt(s, width, height, x, y, c);
    }
  }

  /** The inner loop of lines 111-124 for source column x: copies every pixel
      of the column to its destination, given in `r`, which fills the block of
      destination bytes just before the columns already copied. */
  method RotateColumn(pixels: array<Byte>, rotated: array<Byte>, width: I32, height: I32, x: I32, ghost r: seq<Byte>)
    requires rotated != pixels && rotated.Length == pixels.Length == |r|
    requires CHANNELS * Area(width, height) <= pixels.Length
    requires CHANNELS * Area(width, height) <= INT32_MAX
    requires 0 <= x < width
    requires forall y, c :: 0 <= y < height && 0 <= c < CHANNELS ==>
      0 <= PixelOffset(width, x, y, c) < CHANNELS * Area(width, height) &&
      0 <= RotatedOffset(width, height, x, y, c) < CHANNELS * Area(width, height) &&
      r[RotatedOffset(width, height, x, y, c)] == pixels[PixelOffset(width, x, y, c)]
    modifies rotated
    ensures forall k :: 0 <= k < rotated.Length ==>
      rotated[k] == if ColumnsFrom(width, height, x + 1) <= k < ColumnsFrom(width, height, x) then r[k] else old(rotated[k])
  {
    // the destination pixels of column x form the block [lo, lo + 3 * height)
    ghost var lo := ColumnsFrom(width, height, x + 1);
    var y: I32 := 0;
    while y < height
      invariant 0 <= y && (y <= height || y == 0)
      invariant forall k :: 0 <= k < rotated.Length ==>
        rotated[k] == if lo <= k < lo + CHANNELS * y then r[k] else old(rotated[k])
    {
      assert 0 <= PixelOffset(width, x, y, 2) && 0 <= RotatedOffset(width, height, x, y, 2);
      var srcOffset: I32 := (y * width + x) * 3;
      var destOffset: I32 := ((width - x - 1) * height + y) * 3;
      assert destOffset == lo + CHANNELS * y;
      assert r[RotatedOffset(width, height, x, y, 0)] == pixels[PixelOffset(width, x, y, 0)];
      assert r[RotatedOffset(width, height, x, y, 1)] == pixels[PixelOffset(width, x, y, 1)];
      rotated[destOffset] := pixels[srcOffset];
      rotated[destOffset + 1] := pixels[srcOffset + 1];
      rotated[destOffset + 2] := pixels[srcOffset + 2];
      y := y + 1;
    }
  }

  /** Offset of the pixel diagonally opposite (x, y): (width - 1 - x, height - 1 - y). */
  function HalfTurnOffset(width: int, height: int, x: int, y: int, c: int): int
  {
    PixelOffset(width, width - 1 - x, height - 1 - y, c)
  }

  /** Rotating a width x height image and then the height x width result
      sends pixel (x, y) to (width - 1 - x, height - 1 - y): a half turn. */
  lemma {:induction false} RotateTwice(s: seq<Byte>, width: int, height: int)
    requires CHANNELS * Area(width, height) <= |s|
    ensures CHANNELS * Area(height, width) <= |Rotated(s, width, height)|
    ensures forall x, y, c :: 0 <= x < width && 0 <= y < height && 0 <= c < CHANNELS ==>
      0 <= PixelOffset(width, x, y, c) < CHANNELS * Area(width, height) &&
      0 <= HalfTurnOffset(width, height, x, y, c) < CHANNELS * Area(width, height) &&
      Rotated(Rotated(s, width, height), height, width)[HalfTurnOffset(width, height, x, y, c)]
        == s[PixelOffset(width, x, y, c)]
    ensures forall k :: CHANNELS * Area(width, height) <= k < |s| ==>
      Rotated(Rotated(s, width, height), height, width)[k] == 0
  {
    var r1 := Rotated(s, width, height);
    forall x, y, c | 0 <= x < width && 0 <= y < height && 0 <= c < CHANNELS
      ensures 0 <= PixelOffset(width, x, y, c) < CHANNELS * Area(width, height)
      ensures 0 <= HalfTurnOffset(width, height, x, y, c) < CHANNELS * Area(width, height)
      ensures Rotated(r1, height, width)[HalfTurnOffset(width, height, x, y, c)]
        == s[PixelOffset(width, x, y, c)]
    {
      RotatedAt(s, width, height, x, y, c);
      // the first rotation puts the pixel at column y, row width - 1 - x of the height x width image
      assert RotatedOffset(width, height, x, y, c) == PixelOffset(height, y, width - 1 - x, c);
      RotatedAt(r1, height, width, y, width - 1 - x, c);
      assert RotatedOffset(height, width, y, width - 1 - x, c)
          == HalfTurnOffset(width, height, x, y, c);
    }
  }

  /** Four successive rotations, with the dimensions swapped each time as the
      caller does, give back the pixel grid unchanged; the rest of the buffer
      is zero. */
  lemma {:induction false} RotateFourTimes(s: seq<Byte>, width: int, height: int)
    requires CHANNELS * Area(width, height) <= |s|
    ensures var r := Rotated(Rotated(Rotated(Rotated(s, width, height), height, width), width, height), height, width);
      |r| == |s| &&
      r[..CHANNELS * Area(width, height)] == s[..CHANNELS * Area(width, height)] &&
      forall k :: CHANNELS * Area(width, height) <= k < |s| ==> r[k] == 0
  {
    var n := CHANNELS * Area(width, height);
    RotateTwice(s, width, height);
    var half := Rotated(Rotated(s, width, height), height, width);
    RotateTwice(half, width, height);
    var r := Rotated(Rotated(half, width, height), height, width);
    forall k | 0 <= k < n
      ensures r[k] == s[k]
    {
      var p, c := k / CHANNELS, k % CHANNELS;
      PixelCoordinates(width, height, p);
      var x, y := p % width, p / width;
      assert k == PixelOffset(width, x, y, c);
      assert r[PixelOffset(width, x, y, c)] == half[HalfTurnOffset(width, height, x, y, c)];
    }
    assert r[..n] == s[..n];
  }

  /** Rotation never changes colours: an image of one colour stays that
      colour (an all-red 4 x 4 image stays all red). */
  lemma {:induction false} RotationKeepsUniformColour(s: seq<Byte>, width: int, height: int, colour: seq<Byte>)
    requires CHANNELS * Area(width, height) <= |s| && |colour| == CHANNELS
    requires forall k :: 0 <= k < CHANNELS * Area(width, height) ==> s[k] == colour[k % CHANNELS]
    ensures forall k :: 0 <= k < CHANNELS * Area(width, height) ==> Rotated(s, width, height)[k] == colour[k % CHANNELS]
  {
    forall k | 0 <= k < CHANNELS * Area(width, height)
      ensures Rotated(s, width, height)[k] == colour[k % CHANNELS]
    {
      SourceOfPixel(width, height, k / CHANNELS);
      var q := SourcePixel(width, height, k / CHANNELS);
      DivModUnique(q * CHANNELS + k % CHANNELS, CHANNELS, q, k % CHANNELS);
    }
  }

  /** A whole pixel moves: the three bytes of source pixel (x, y) are the
      three bytes of its destination pixel in the rotated buffer. */
  lemma {:induction false} RotatedPixel(s: seq<Byte>, width: int, height: int, x: int, y: int)
    requires CHANNELS * Area(width, height) <= |s|
    requires 0 <= x < width && 0 <= y < height
    ensures var src, dst := PixelOffset(width, x, y, 0), RotatedOffset(width, height, x, y, 0);
      0 <= src && src + CHANNELS <= |s| && 0 <= dst && dst + CHANNELS <= |s| &&
      Rotated(s, width, height)[dst..dst + CHANNELS] == s[src..src + CHANNELS]
  {
    var src, dst := PixelOffset(width, x, y, 0), RotatedOffset(width, height, x, y, 0);
    RotatedAt(s, width, height, x, y, 0);
    RotatedAt(s, width, height, x, y, 1);
    RotatedAt(s, width, height, x, y, 2);
    assert PixelOffset(width, x, y, 2) == src + 2 && RotatedOffset(width, height, x, y, 2) == dst + 2;
    assert PixelOffset(width, x, y, 1) == src + 1 && RotatedOffset(width, height, x, y, 1) == dst + 1;
  }

  /** The 2 x 2 image A(0,0) B(1,0) C(0,1) D(1,1) becomes B, D, A, C. */
  lemma {:induction false} TwoByTwoExample(a: seq<Byte>, b: seq<Byte>, c: seq<Byte>, d: seq<Byte>)
    requires |a| == |b| == |c| == |d| == CHANNELS
    ensures Rotated(a + b + c + d, 2, 2) == b + d + a + c
  {
    var s := a + b + c + d;
    assert s[0..3] == a && s[3..6] == b && s[6..9] == c && s[9..12] == d;
    var r := Rotated(s, 2, 2);
    RotatedPixel(s, 2, 2, 0, 0);
    RotatedPixel(s, 2, 2, 1, 0);
    RotatedPixel(s, 2, 2, 0, 1);
    RotatedPixel(s, 2, 2, 1, 1);
    assert r[6..9] == a && r[0..3] == b && r[9..12] == c && r[3..6] == d;
    assert r == r[0..3] + r[3..6] + r[6..9] + r[9..12];
  }
}
