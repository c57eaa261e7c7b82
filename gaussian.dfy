/** The 5 x 5 Gaussian blur of `GaussianFilter`: every pixel at least two
    pixels away from each edge gets, per channel, the kernel-weighted sum of
    its 5 x 5 neighbourhood; every other byte of the fresh buffer stays 0.
    The kernel's weights are kept as exact integer thousandths, so a channel
    value is the exact weighted sum divided by 1000 and truncated. */
module Gaussian {
  import opened Ints
  import opened PixelGrid

  /** Distance from the centre to the edge of the neighbourhood. */
  const RADIUS: int := 2

  /** Width of the neighbourhood, and the number of its cells. */
  const SPAN: int := 5
  const CELLS: int := 25

  /** Kernel weights are thousandths. */
  const SCALE: int := 1000

  /** The kernel of lines 38-44, in thousandths; rows are indexed by j + 2,
      columns by i + 2. */
  const KERNEL: seq<seq<nat>> := [
    [ 3, 13,  22, 13,  3],
    [13, 59,  97, 59, 13],
    [22, 97, 159, 97, 22],
    [13, 59,  97, 59, 13],
    [ 3, 13,  22, 13,  3]
  ]

  /** Weight of neighbour t, counting in the order of the loops over j and
      i: t = (j + 2) * 5 + (i + 2). */
  function Weight(t: int): (w: nat)
    requires 0 <= t < CELLS
  {
    KERNEL[t / SPAN][t % SPAN]
  }

  /** Sum of the weights of the first t neighbours. */
  function KernelPrefixTotal(t: int): (total: nat)
    requires 0 <= t <= CELLS
  {
    if t == 0 then 0 else KernelPrefixTotal(t - 1) + Weight(t - 1)
  }

  /** The weights total 0.987, not 1: a uniform image darkens slightly. */
  lemma KernelTotal()
    ensures KernelPrefixTotal(CELLS) == 987
  {
    assert KernelPrefixTotal(5) == 54;
    assert KernelPrefixTotal(10) == 54 + 241;
    assert KernelPrefixTotal(15) == 54 + 241 + 397;
    assert KernelPrefixTotal(20) == 54 + 241 + 397 + 241;
  }

  /** The pixels the loops of lines 55 and 59 visit. */
  predicate IsInterior(width: int, height: int, x: int, y: int)
  {
    RADIUS <= x < width - RADIUS && RADIUS <= y < height - RADIUS
  }

  /** Offset of line 74 for neighbour t of pixel (x, y), plus the channel. */
  function NeighbourOffset(width: int, x: int, y: int, t: int, c: int): int
  {
    ((y + (t / SPAN - RADIUS)) * width + (x + (t % SPAN - RADIUS))) * CHANNELS + c
  }

  /** Every neighbourhood read of an interior pixel is inside the pixel grid. */
  lemma {:induction false} NeighbourInGrid(width: int, height: int, x: int, y: int, t: int, c: int)
    requires IsInterior(width, height, x, y) && 0 <= t < CELLS && 0 <= c < CHANNELS
    ensures 0 <= NeighbourOffset(width, x, y, t, c) < CHANNELS * Area(width, height)
  {
    OffsetInGrid(width, height, x + (t % SPAN - RADIUS), y + (t / SPAN - RADIUS), c);
  }

  /** Channel c of the 25 pixels of the 5 x 5 neighbourhood of interior pixel
      (x, y), in the order the loops of lines 67 and 69 read them. */
  function Window(s: seq<Byte>, width: int, height: int, x: int, y: int, c: int): (w: seq<Byte>)
    requires CHANNELS * Area(width, height) <= |s|
    requires IsInterior(width, height, x, y) && 0 <= c < CHANNELS
    ensures |w| == CELLS
  {
    seq(CELLS, t requires 0 <= t < CELLS =>
      NeighbourInGrid(width, height, x, y, t, c);
      s[NeighbourOffset(width, x, y, t, c)])
  }

  /** The kernel-weighted sum of the first t bytes of a window, in
      thousandths: what `sumR`, `sumG` or `sumB` holds after t steps of the
      inner loops. */
  function WeightedSum(window: seq<Byte>, t: int): (sum: nat)
    requires |window| == CELLS && 0 <= t <= CELLS
  {
    if t == 0 then 0 else WeightedSum(window, t - 1) + window[t - 1] * Weight(t - 1)
  }

  /** Every byte is at most 255, so the sum is at most 255 times the weights. */
  lemma {:induction false} WeightedSumBound(window: seq<Byte>, t: int)
    requires |window| == CELLS && 0 <= t <= CELLS
    ensures WeightedSum(window, t) <= 255 * KernelPrefixTotal(t)
  {
    if t > 0 {
      WeightedSumBound(window, t - 1);
      MulMonotone(window[t - 1], 255, Weight(t - 1));
    }
  }

  /** The byte stored for channel c of an interior pixel (lines 91-93): the
      weighted sum truncated toward zero. It never exceeds 251, so the
      narrowing to `unsigned char` never leaves the byte range. */
  function Channel(s: seq<Byte>, width: int, height: int, x: int, y: int, c: int): (v: Byte)
    requires CHANNELS * Area(width, height) <= |s|
    requires IsInterior(width, height, x, y) && 0 <= c < CHANNELS
    ensures v <= 251
    ensures v * SCALE <= WeightedSum(Window(s, width, height, x, y, c), CELLS) < (v + 1) * SCALE
  {
    var w := Window(s, width, height, x, y, c);
    KernelTotal();
    WeightedSumBound(w, CELLS);
    WeightedSum(w, CELLS) / SCALE
  }

  /** Byte k of the filtered buffer. */
  function BlurredByte(s: seq<Byte>, width: int, height: int, k: int): (v: Byte)
    requires CHANNELS * Area(width, height) <= |s| && 0 <= k
  {
    if k < CHANNELS * Area(width, height) && IsInterior(width, height, (k / CHANNELS) % width, (k / CHANNELS) / width) then
      Channel(s, width, height, (k / CHANNELS) % width, (k / CHANNELS) / width, k % CHANNELS)
    else
      0
  }

  /** The buffer `GaussianFilter` leaves in `pixels`. */
  function Blurred(s: seq<Byte>, width: int, height: int): (r: seq<Byte>)
    requires CHANNELS * Area(width, height) <= |s|
    ensures |r| == |s|
  {
    seq(|s|, k requires 0 <= k < |s| => BlurredByte(s, width, height, k))
  }

  /** Channel c of pixel (x, y) of the filtered buffer. */
  lemma {:induction false} BlurredAt(s: seq<Byte>, width: int, height: int, x: int, y: int, c: int)
    requires CHANNELS * Area(width, height) <= |s|
    requires 0 <= x < width && 0 <= y < height && 0 <= c < CHANNELS
    ensures 0 <= PixelOffset(width, x, y, c) < CHANNELS * Area(width, height)
    ensures Blurred(s, width, height)[PixelOffset(width, x, y, c)]
      == if IsInterior(width, height, x, y) then Channel(s, width, height, x, y, c) else 0
  {
    OffsetInGrid(width, height, x, y, c);
  }

  /** Pixel indices are ordered row by row, then column by column. */
  lemma {:induction false} RowMajorOrder(width: int, px: int, py: int, x: int, y: int)
    requires 0 <= px < width && 0 <= x < width
    ensures py * width + px < y * width + x <==> py < y || (py == y && px < x)
  {
    if py < y {
      MulMonotone(py + 1, y, width);
    } else if py > y {
      MulMonotone(y + 1, py, width);
    }
  }

  /** No interior pixel comes before pixel (2, 2). */
  lemma {:induction false} BorderHead(s: seq<Byte>, width: int, height: int)
    requires CHANNELS * Area(width, height) <= |s|
    ensures forall k :: 0 <= k < PixelOffset(width, RADIUS, RADIUS, 0) && k < |s| ==> Blurred(s, width, height)[k] == 0
  {
    forall k | 0 <= k < PixelOffset(width, RADIUS, RADIUS, 0) && k < |s|
      ensures Blurred(s, width, height)[k] == 0
    {
      if k < CHANNELS * Area(width, height) {
        var p := k / CHANNELS;
        PixelCoordinates(width, height, p);
        var px, py := p % width, p / width;
        if IsInterior(width, height, px, py) {
          RowMajorOrder(width, px, py, RADIUS, RADIUS);
          assert false;
        }
      }
    }
  }

  /** No interior pixel lies between the last column visited in row y
      (x0 = width - 2, or 2 when the row has no interior) and column 2 of
      row y + 1. */
  lemma {:induction false} BorderGap(s: seq<Byte>, width: int, height: int, x0: int, y: int)
    requires CHANNELS * Area(width, height) <= |s|
    requires x0 == width - RADIUS || (x0 == RADIUS && width - RADIUS <= RADIUS)
    ensures forall k :: PixelOffset(width, x0, y, 0) <= k < PixelOffset(width, RADIUS, y + 1, 0) && 0 <= k < |s| ==>
      Blurred(s, width, height)[k] == 0
  {
    forall k | PixelOffset(width, x0, y, 0) <= k < PixelOffset(width, RADIUS, y + 1, 0) && 0 <= k < |s|
      ensures Blurred(s, width, height)[k] == 0
    {
      if k < CHANNELS * Area(width, height) {
        var p := k / CHANNELS;
        PixelCoordinates(width, height, p);
        var px, py := p % width, p / width;
        if IsInterior(width, height, px, py) {
          RowMajorOrder(width, px, py, x0, y);
          RowMajorOrder(width, px, py, RADIUS, y + 1);
          assert false;
        }
      }
    }
  }

  /** No interior pixel comes at or after column 2 of a row y within two
      of the bottom edge. */
  lemma {:induction false} BorderTail(s: seq<Byte>, width: int, height: int, y: int)
    requires CHANNELS * Area(width, height) <= |s|
    requires height - RADIUS <= y
    ensures forall k :: PixelOffset(width, RADIUS, y, 0) <= k < |s| && 0 <= k ==> Blurred(s, width, height)[k] == 0
  {
    forall k | PixelOffset(width, RADIUS, y, 0) <= k < |s| && 0 <= k
      ensures Blurred(s, width, height)[k] == 0
    {
      if k < CHANNELS * Area(width, height) {
        var p := k / CHANNELS;
        PixelCoordinates(width, height, p);
        var px, py := p % width, p / width;
        if IsInterior(width, height, px, py) {
          RowMajorOrder(width, px, py, RADIUS, y);
          assert false;
        }
      }
    }
  }

  /** The black border: every pixel within two of an edge, and every byte
      after the pixel grid, is 0 in the filtered buffer. */
  lemma {:induction false} BlurBorderIsBlack(s: seq<Byte>, width: int, height: int)
    requires CHANNELS * Area(width, height) <= |s|
    ensures forall x, y, c :: 0 <= x < width && 0 <= y < height && 0 <= c < CHANNELS && !IsInterior(width, height, x, y) ==>
      0 <= PixelOffset(width, x, y, c) < |s| && Blurred(s, width, height)[PixelOffset(width, x, y, c)] == 0
    ensures forall k :: CHANNELS * Area(width, height) <= k < |s| ==> Blurred(s, width, height)[k] == 0
  {
    forall x, y, c | 0 <= x < width && 0 <= y < height && 0 <= c < CHANNELS && !IsInterior(width, height, x, y)
      ensures 0 <= PixelOffset(width, x, y, c) < |s| && Blurred(s, width, height)[PixelOffset(width, x, y, c)] == 0
    {
      BlurredAt(s, width, height, x, y, c);
    }
  }

  /** An image narrower or lower than the 5-pixel kernel span has no
      interior pixel: the whole filtered buffer is 0. */
  lemma {:induction false} SmallImageIsBlack(s: seq<Byte>, width: int, height: int)
    requires CHANNELS * Area(width, height) <= |s|
    requires width < SPAN || height < SPAN
    ensures forall k :: 0 <= k < |s| ==> Blurred(s, width, height)[k] == 0
  {
    forall k | 0 <= k < |s|
      ensures Blurred(s, width, height)[k] == 0
    {
      if k < CHANNELS * Area(width, height) {
        PixelCoordinates(width, height, k / CHANNELS);
      }
    }
  }

  lemma Distribute(a: int, b: int, c: int)
    ensures a * (b + c) == a * b + a * c
  {
  }

  /** On a window of one grey level v, the weighted sum is v times the
      kernel's weights. */
  lemma {:induction false} UniformSum(window: seq<Byte>, t: int, v: Byte)
    requires |window| == CELLS && 0 <= t <= CELLS
    requires forall k :: 0 <= k < CELLS ==> window[k] == v
    ensures WeightedSum(window, t) == v * KernelPrefixTotal(t)
  {
    if t > 0 {
      UniformSum(window, t - 1, v);
      var prev, w := KernelPrefixTotal(t - 1), Weight(t - 1);
      var total := KernelPrefixTotal(t);
      assert total == prev + w;
      assert WeightedSum(window, t) == v * prev + v * w;
      Distribute(v, prev, w);
      assert v * total == v * (prev + w);
    }
  }

  /** Every interior channel of a uniform grey image becomes
      floor(v * 0.987): a level of 128 comes out as 126. */
  lemma {:induction false} UniformImageDarkens(s: seq<Byte>, width: int, height: int, v: Byte)
    requires CHANNELS * Area(width, height) <= |s|
    requires forall k :: 0 <= k < CHANNELS * Area(width, height) ==> s[k] == v
    ensures forall x, y, c :: IsInterior(width, height, x, y) && 0 <= c < CHANNELS ==>
      Channel(s, width, height, x, y, c) == v * 987 / SCALE
    ensures v == 128 ==> v * 987 / SCALE == 126
  {
    forall x, y, c | IsInterior(width, height, x, y) && 0 <= c < CHANNELS
      ensures Channel(s, width, height, x, y, c) == v * 987 / SCALE
    {
      var w := Window(s, width, height, x, y, c);
      forall k | 0 <= k < CELLS
        ensures w[k] == v
      {
        NeighbourInGrid(width, height, x, y, k, c);
      }
      UniformSum(w, CELLS, v);
      KernelTotal();
    }
  }

  /** Neighbour t = (j + 2) * 5 + (i + 2) is the pixel (x + i, y + j) of line 74. */
  lemma NeighbourOffsetAt(width: int, x: int, y: int, i: int, j: int)
    requires -RADIUS <= i <= RADIUS && -RADIUS <= j <= RADIUS
    ensures NeighbourOffset(width, x, y, SPAN * (j + RADIUS) + (i + RADIUS), 0) == ((y + j) * width + (x + i)) * 3
    ensures Weight(SPAN * (j + RADIUS) + (i + RADIUS)) == KERNEL[j + RADIUS][i + RADIUS]
  {
    var t := SPAN * (j + RADIUS) + (i + RADIUS);
    assert t / SPAN == j + RADIUS && t % SPAN == i + RADIUS;
  }

  /** Every pixel the inner loops read for an interior pixel lies in the grid. */
  lemma {:induction false} TapInGrid(width: int, height: int, x: int, y: int, i: int, j: int)
    requires IsInterior(width, height, x, y)
    requires -RADIUS <= i <= RADIUS && -RADIUS <= j <= RADIUS
    ensures 0 <= ((y + j) * width + (x + i)) * 3 && ((y + j) * width + (x + i)) * 3 + 2 < CHANNELS * Area(width, height)
  {
    OffsetInGrid(width, height, x + i, y + j, 2);
  }

  /** The pixel the inner loops read at offset i, j is neighbour t of the
      window, and its weight is the kernel's weight for t. */
  lemma {:induction false} TapIsNeighbour(s: seq<Byte>, width: int, height: int, x: int, y: int, i: int, j: int, t: int, offset: int)
    requires CHANNELS * Area(width, height) <= |s|
    requires IsInterior(width, height, x, y)
    requires -RADIUS <= i <= RADIUS && -RADIUS <= j <= RADIUS && t == SPAN * (j + RADIUS) + (i + RADIUS)
    requires offset == ((y + j) * width + (x + i)) * 3
    ensures 0 <= t < CELLS && 0 <= offset && offset + 2 < |s|
    ensures Weight(t) == KERNEL[j + RADIUS][i + RADIUS]
    ensures Window(s, width, height, x, y, 0)[t] == s[offset]
    ensures Window(s, width, height, x, y, 1)[t] == s[offset + 1]
    ensures Window(s, width, height, x, y, 2)[t] == s[offset + 2]
  {
    TapInGrid(width, height, x, y, i, j);
    NeighbourOffsetAt(width, x, y, i, j);
  }

  /** The inner loops of lines 62-81: the three channel sums of the 5 x 5
      neighbourhood of interior pixel (x, y). */
  method Convolve(pixels: array<Byte>, width: I32, height: I32, x: I32, y: I32) returns (sumR: int, sumG: int, sumB: int)
    requires CHANNELS * Area(width, height) <= pixels.Length
    requires CHANNELS * Area(width, height) <= INT32_MAX
    requires IsInterior(width, height, x, y)
    ensures sumR == WeightedSum(Window(pixels[..], width, height, x, y, 0), CELLS)
    ensures sumG == WeightedSum(Window(pixels[..], width, height, x, y, 1), CELLS)
    ensures sumB == WeightedSum(Window(pixels[..], width, height, x, y, 2), CELLS)
  {
    ghost var red, green, blue := Window(pixels[..], width, height, x, y, 0),
      Window(pixels[..], width, height, x, y, 1), Window(pixels[..], width, height, x, y, 2);
    ghost var t := 0;  // neighbours summed so far
    sumR, sumG, sumB := 0, 0, 0;
    var radius: I32 := RADIUS;
    var j: I32 := -radius;
    while j <= radius
      invariant -2 <= j <= 3 && t == 5 * (j + 2)
      invariant sumR == WeightedSum(red, t)
      invariant sumG == WeightedSum(green, t)
      invariant sumB == WeightedSum(blue, t)
    {
      var i: I32 := -radius;
      while i <= radius
        invariant -2 <= i <= 3 && t == 5 * (j + 2) + (i + 2)
        invariant sumR == WeightedSum(red, t)
        invariant sumG == WeightedSum(green, t)
        invariant sumB == WeightedSum(blue, t)
      {
        TapInGrid(width, height, x, y, i, j);
        var pixelOffset: I32 := ((y + j) * width + (x + i)) * 3;
        var weight := KERNEL[j + radius][i + radius];
        TapIsNeighbour(pixels[..], width, height, x, y, i, j, t, pixelOffset);
        sumR := sumR + pixels[pixelOffset] * weight;
        sumG := sumG + pixels[pixelOffset + 1] * weight;
        sumB := sumB + pixels[pixelOffset + 2] * weight;
        i := i + 1;
        t := t + 1;
      }
      j := j + 1;
    }
  }

  /** Offsets along row y grow by 3 per column, and the next row starts
      `3 * width` bytes after this one. */
  lemma RowOffsets(width: int, x: int, y: int)
    ensures PixelOffset(width, x, y, 0) == PixelOffset(width, RADIUS, y, 0) + CHANNELS * (x - RADIUS)
    ensures PixelOffset(width, RADIUS, y + 1, 0) == PixelOffset(width, RADIUS, y, 0) + CHANNELS * width
  {
  }

  /** Blurs a width x height image into a fresh zero-filled buffer of the
      same length (lines 33-99). */
  method GaussianFilter(pixels: array<Byte>, width: I32, height: I32) returns (filtered: array<Byte>)
    requires CHANNELS * Area(width, height) <= pixels.Length
    requires CHANNELS * Area(width, height) <= INT32_MAX
    ensures fresh(filtered)
    ensures filtered[..] == Blurred(pixels[..], width, height)
  {
    ghost var b := Blurred(pixels[..], width, height);
    filtered := new Byte[pixels.Length](_ => 0);
    var radius: I32 := RADIUS;
    BorderHead(pixels[..], width, height);
    var y: I32 := radius;
    while y < height - radius
      invariant RADIUS <= y && (y <= height - RADIUS || y == RADIUS)
      invariant forall k :: 0 <= k < filtered.Length ==>
        filtered[k] == if k < PixelOffset(width, RADIUS, y, 0) then b[k] else 0
    {
      BlurredRow(pixels[..], width, height, y);
      FilterRow(pixels, filtered, width, height, y, b);
      BorderGap(pixels[..], width, height, RowEnd(width), y);
      y := y + 1;
    }
    BorderTail(pixels[..], width, height, y);
  }

  /** The column where the loop of line 59 stops. */
  function RowEnd(width: int): (x: int)
    ensures x == width - RADIUS || (x == RADIUS && width - RADIUS <= RADIUS)
  {
    if RADIUS < width - RADIUS then width - RADIUS else RADIUS
  }

  /** The interior pixels of row y of the filtered buffer. */
  lemma {:induction false} BlurredRow(s: seq<Byte>, width: int, height: int, y: int)
    requires CHANNELS * Area(width, height) <= |s|
    requires RADIUS <= y < height - RADIUS
    ensures forall x, c :: RADIUS <= x < width - RADIUS && 0 <= c < CHANNELS ==>
      0 <= PixelOffset(width, x, y, c) < |s| &&
      Blurred(s, width, height)[PixelOffset(width, x, y, c)] == Channel(s, width, height, x, y, c)
  {
    forall x, c | RADIUS <= x < width - RADIUS && 0 <= c < CHANNELS
      ensures 0 <= PixelOffset(width, x, y, c) < |s|
      ensures Blurred(s, width, height)[PixelOffset(width, x, y, c)] == Channel(s, width, height, x, y, c)
    {
      BlurredAt(s, width, height, x, y, c);
    }
  }

  /** The loop of lines 59-94 for one interior row y: writes the blurred
      bytes of the row's interior pixels, given as `b`, and nothing else. */
  method FilterRow(pixels: array<Byte>, filtered: array<Byte>, width: I32, height: I32, y: I32, ghost b: seq<Byte>)
    requires filtered != pixels && filtered.Length == pixels.Length == |b|
    requires CHANNELS * Area(width, height) <= pixels.Length
    requires CHANNELS * Area(width, height) <= INT32_MAX
    requires RADIUS <= y < height - RADIUS
    requires forall x, c :: RADIUS <= x < width - RADIUS && 0 <= c < CHANNELS ==>
      0 <= PixelOffset(width, x, y, c) < |b| && b[PixelOffset(width, x, y, c)] == Channel(pixels[..], width, height, x, y, c)
    modifies filtered
    ensures forall k :: 0 <= k < filtered.Length ==>
      filtered[k] == if PixelOffset(width, RADIUS, y, 0) <= k < PixelOffset(width, RowEnd(width), y, 0) then b[k] else old(filtered[k])
  {
    ghost var rowStart := PixelOffset(width, RADIUS, y, 0);
    var radius: I32 := RADIUS;
    var x: I32 := radius;
    while x < width - radius
      invariant RADIUS <= x && (x <= width - RADIUS || x == RADIUS)
      invariant forall k :: 0 <= k < filtered.Length ==>
        filtered[k] == if rowStart <= k < rowStart + CHANNELS * (x - RADIUS) then b[k] else old(filtered[k])
    {
      var sumR, sumG, sumB := Convolve(pixels, width, height, x, y);
      RowOffsets(width, x, y);
      OffsetInGrid(width, height, x, y, 2);
      var offset: I32 := (y * width + x) * 3;
      assert b[PixelOffset(width, x, y, 0)] == sumR / SCALE;
      assert b[PixelOffset(width, x, y, 1)] == sumG / SCALE;
      assert b[PixelOffset(width, x, y, 2)] == sumB / SCALE;
      filtered[offset] := sumR / SCALE;
      filtered[offset + 1] := sumG / SCALE;
      filtered[offset + 2] := sumB / SCALE;
      x := x + 1;
    }
    RowOffsets(width, x, y);
  }
}
