/** The two stages of `main` (lines 133-257) without the files: the first
    decodes a bitmap, rotates its pixels and writes the rotated bitmap with
    an updated header; the second decodes that bitmap again, blurs it and
    writes it with its header unchanged. A file is its sequence of bytes. */
module Driver {
  import opened Ints
  import opened PixelGrid
  import opened Header
  import opened RowStride
  import opened Rotation
  import opened Gaussian

  /** The header's dimensions give a pixel buffer the program can size:
      `width * bitsPerPixel` and `rowSize * height` are computed as 32-bit
      `int`s, and a negative size would not make a vector. */
  predicate Allocatable(h: BMPHeader)
  {
    -0x8000_0000 <= h.width * h.bitsPerPixel <= INT32_MAX &&
    0 <= RowSize(h.width, h.bitsPerPixel) * h.height <= INT32_MAX
  }

  /** `rowSize * height`, the length of the pixel vector (lines 171-174). */
  function BufferSize(h: BMPHeader): (n: nat)
    requires Allocatable(h)
  {
    RowSize(h.width, h.bitsPerPixel) * h.height
  }

  /** A zero-filled vector of `size` bytes into which `read` copies as many
      bytes of `data` as it holds (lines 174 and 184, 235 and 240). */
  function Loaded(data: seq<Byte>, size: nat): (r: seq<Byte>)
    ensures |r| == size
    ensures forall k :: 0 <= k < size ==> r[k] == if k < |data| then data[k] else 0
  {
    if size <= |data| then data[..size]
    else
      var zeros: seq<Byte> := seq(size - |data|, _ => 0);
      data + zeros
  }

  /** Allocates the pixel vector and reads the file's pixel data into it. */
  method LoadPixels(data: seq<Byte>, size: I32) returns (pixels: array<Byte>)
    requires 0 <= size
    ensures fresh(pixels)
    ensures pixels[..] == Loaded(data, size)
  {
    pixels := new Byte[size](k requires 0 <= k => if k < |data| then data[k] else 0);
  }

  /** The rotation stage, lines 143-217: the output file is the updated header
      followed by the rotated buffer, and the buffer keeps its length. */
  method RotateBitmap(file: seq<Byte>) returns (output: seq<Byte>)
    requires HEADER_SIZE <= |file|
    requires var h := Decode(file).value;
      Allocatable(h) && CHANNELS * Area(h.width, h.height) <= BufferSize(h)
    ensures var h := Decode(file).value; var n := BufferSize(h);
      output == Encode(AfterRotation(h, n)) + Rotated(Loaded(file[HEADER_SIZE..], n), h.width, h.height)
  {
    var header := Decode(file).value;
    var width, height := header.width, header.height;
    var rowSize := RowSize(width, header.bitsPerPixel);
    var pixels := LoadPixels(file[HEADER_SIZE..], rowSize * height);
    var rotated := RotateImage90Degrees(pixels, width, height);
    header := header.(width := height, height := width);
    header := header.(fileSize := (HEADER_SIZE + rotated.Length) % TWO_TO_32);
    output := Encode(header) + rotated[..];
  }

  /** The blur stage, lines 221-252: the output file is the header as read
      followed by the blurred buffer. */
  method BlurBitmap(file: seq<Byte>) returns (output: seq<Byte>)
    requires HEADER_SIZE <= |file|
    requires var h := Decode(file).value;
      Allocatable(h) && CHANNELS * Area(h.width, h.height) <= BufferSize(h)
    ensures var h := Decode(file).value; var n := BufferSize(h);
      output == Encode(h) + Blurred(Loaded(file[HEADER_SIZE..], n), h.width, h.height)
    ensures output[..HEADER_SIZE] == file[..HEADER_SIZE]
  {
    var header := Decode(file).value;
    var width, height := header.width, header.height;
    var rowSize := RowSize(width, header.bitsPerPixel);
    var pixels := LoadPixels(file[HEADER_SIZE..], rowSize * height);
    var filtered := GaussianFilter(pixels, width, height);
    output := Encode(header) + filtered[..];
    DecodePrefix(file[..HEADER_SIZE], file[HEADER_SIZE..]);
    assert file == file[..HEADER_SIZE] + file[HEADER_SIZE..];
    EncodeDecode(file[..HEADER_SIZE]);
  }

  /** For 24-bit pixels (or more) the buffer holds the packed grid that the
      rotation and the blur address, so neither reads past its end. */
  lemma {:induction false} BufferHoldsPixels(h: BMPHeader)
    requires Allocatable(h) && 24 <= h.bitsPerPixel
    ensures CHANNELS * Area(h.width, h.height) <= BufferSize(h)
  {
    var w: int, ht: int := h.width, h.height;
    if 0 < w && 0 < ht {
      var r: int := RowSize(h.width, h.bitsPerPixel);
      MulMonotone(0, w, h.bitsPerPixel);
      RowHoldsPixels(h.width, h.bitsPerPixel);
      RowsHoldGrid(w, ht, r);
    }
  }

  /** Rows of at least 3 * width bytes hold a packed width-by-height grid. */
  lemma RowsHoldGrid(w: int, ht: int, rowSize: int)
    requires 0 <= ht && 3 * w <= rowSize
    ensures CHANNELS * (w * ht) <= rowSize * ht
  {
    MulMonotone(3 * w, rowSize, ht);
    assert 3 * w * ht == CHANNELS * (w * ht);
  }

  /** A 24-bit row whose width is a multiple of 4 needs no padding. */
  lemma {:induction false} UnpaddedRow(width: I32)
    requires 0 <= width && width * 24 <= INT32_MAX && width % 4 == 0
    ensures RowSize(width, 24) == 3 * width
  {
    RowSizeRoundsUp(width, 24);
    DivModUnique(width * 24, 8, 3 * width, 0);
    DivModUnique(3 * width, 4, 3 * (width / 4), 0);
    SameMultipleOfFour(3 * width, RowSize(width, 24));
  }

  /** Two multiples of 4 less than 4 apart are equal. */
  lemma SameMultipleOfFour(a: int, b: int)
    requires a % 4 == 0 && b % 4 == 0 && a <= b < a + 4
    ensures a == b
  {
    assert a == 4 * (a / 4) && b == 4 * (b / 4);
  }

  /** Without row padding the rotated header sizes the same buffer. */
  lemma {:induction false} UnpaddedRotatedSize(h: BMPHeader)
    requires Allocatable(h)
    requires h.bitsPerPixel == 24 && 0 < h.width && 0 < h.height
    requires h.width % 4 == 0 && h.height % 4 == 0 && h.height * 24 <= INT32_MAX
    ensures var h2 := AfterRotation(h, BufferSize(h));
      Allocatable(h2) && BufferSize(h2) == BufferSize(h)
  {
    var w: int, ht: int := h.width, h.height;
    var rw: int, rh: int := RowSize(h.width, 24), RowSize(h.height, 24);
    UnpaddedRow(h.width);
    UnpaddedRow(h.height);
    SwappedProduct(rw, rh, w, ht);
    var h2 := AfterRotation(h, BufferSize(h));
    assert h2.width == h.height && h2.height == h.width && h2.bitsPerPixel == 24;
  }

  lemma SwappedProduct(rw: int, rh: int, w: int, ht: int)
    requires rw == 3 * w && rh == 3 * ht
    ensures rh * w == rw * ht
  {
    assert rh * w == 3 * (ht * w) && rw * ht == 3 * (w * ht);
  }

  /** When neither dimension of a 24-bit image needs row padding, the blur
      stage reads back exactly what the rotation stage wrote: the updated
      header, a buffer of the same size and the rotated pixels. */
  lemma {:induction false} BlurStageSeesRotation(h: BMPHeader, pixels: seq<Byte>)
    requires Allocatable(h) && |pixels| == BufferSize(h)
    requires h.bitsPerPixel == 24 && 0 < h.width && 0 < h.height
    requires h.width % 4 == 0 && h.height % 4 == 0 && h.height * 24 <= INT32_MAX
    ensures var h2 := AfterRotation(h, |pixels|); var output := Encode(h2) + pixels;
      Decode(output) == Some(h2) &&
      Allocatable(h2) && BufferSize(h2) == |pixels| &&
      Loaded(output[HEADER_SIZE..], BufferSize(h2)) == pixels
  {
    var h2 := AfterRotation(h, |pixels|);
    var output := Encode(h2) + pixels;
    DecodeWrittenFile(h2, pixels);
    UnpaddedRotatedSize(h);
    assert output[HEADER_SIZE..] == pixels;
  }
}
