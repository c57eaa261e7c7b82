/** The 54-byte header of `struct BMPHeader` (lines 8-28): with `#pragma pack(1)`
    its sixteen fields lie back to back, little-endian, with no padding — the
    14-byte BITMAPFILEHEADER followed by the 40-byte BITMAPINFOHEADER. The
    program reads it (lines 156 and 225) and writes it (lines 215 and 250) as
    raw memory bytes of a little-endian machine; here that is an explicit
    encoder and decoder over the fixed field offsets. */
module Header {
  import opened Ints

  datatype Option<T> = None | Some(value: T)

  /** `struct BMPHeader`, field for field. */
  datatype BMPHeader = BMPHeader(
    signature: U16,
    fileSize: U32,
    reserved1: U16,
    reserved2: U16,
    dataOffset: U32,
    headerSize: U32,
    width: I32,
    height: I32,
    planes: U16,
    bitsPerPixel: U16,
    compression: U32,
    dataSize: U32,
    horizontalRes: I32,
    verticalRes: I32,
    colors: U32,
    importantColors: U32)

  /** `sizeof(header)` */
  const HEADER_SIZE: int := 54

  /** Byte offsets of the fields. */
  const SIGNATURE_AT: int := 0
  const FILE_SIZE_AT: int := 2
  const RESERVED1_AT: int := 6
  const RESERVED2_AT: int := 8
  const DATA_OFFSET_AT: int := 10
  const HEADER_SIZE_AT: int := 14
  const WIDTH_AT: int := 18
  const HEIGHT_AT: int := 22
  const PLANES_AT: int := 26
  const BITS_PER_PIXEL_AT: int := 28
  const COMPRESSION_AT: int := 30
  const DATA_SIZE_AT: int := 34
  const HORIZONTAL_RES_AT: int := 38
  const VERTICAL_RES_AT: int := 42
  const COLORS_AT: int := 46
  const IMPORTANT_COLORS_AT: int := 50

  /** A `uint16_t` in memory: low byte first. */
  function LE16(v: U16): (b: seq<Byte>)
    ensures |b| == 2
  {
    [v % 0x100, v / 0x100]
  }

  /** A `uint32_t` in memory: least significant byte first. */
  function LE32(v: U32): (b: seq<Byte>)
    ensures |b| == 4
  {
    [v % 0x100, (v / 0x100) % 0x100, (v / 0x1_0000) % 0x100, v / 0x100_0000]
  }

  /** The `uint16_t` stored at byte `at`. */
  function ReadLE16(b: seq<Byte>, at: int): (v: U16)
    requires 0 <= at && at + 2 <= |b|
  {
    b[at] as int + 0x100 * (b[at + 1] as int)
  }

  /** The `uint32_t` stored at byte `at`. */
  function ReadLE32(b: seq<Byte>, at: int): (v: U32)
    requires 0 <= at && at + 4 <= |b|
  {
    b[at] as int + 0x100 * (b[at + 1] as int) + 0x1_0000 * (b[at + 2] as int) + 0x100_0000 * (b[at + 3] as int)
  }

  /** Reading back a stored 16-bit value gives the value. */
  lemma Read16OfLE16(v: U16, b: seq<Byte>, at: int)
    requires 0 <= at && at + 2 <= |b| && b[at..at + 2] == LE16(v)
    ensures ReadLE16(b, at) == v
  {
    assert b[at] == LE16(v)[0] && b[at + 1] == LE16(v)[1];
  }

  /** Storing a value read from two bytes gives back those bytes. */
  lemma LE16OfRead16(b: seq<Byte>, at: int)
    requires 0 <= at && at + 2 <= |b|
    ensures LE16(ReadLE16(b, at)) == b[at..at + 2]
  {
    var v := ReadLE16(b, at);
    assert v / 0x100 == b[at + 1] && v % 0x100 == b[at];
  }

  /** Reading back a stored 32-bit value gives the value. */
  lemma Read32OfLE32(v: U32, b: seq<Byte>, at: int)
    requires 0 <= at && at + 4 <= |b| && b[at..at + 4] == LE32(v)
    ensures ReadLE32(b, at) == v
  {
    var e := LE32(v);
    assert b[at] == e[0] && b[at + 1] == e[1] && b[at + 2] == e[2] && b[at + 3] == e[3];
    var q1, q2 := v / 0x100, v / 0x1_0000;
    assert q2 == q1 / 0x100 && v / 0x100_0000 == q2 / 0x100;
    assert v == v % 0x100 + 0x100 * q1;
    assert q1 == q1 % 0x100 + 0x100 * q2;
    assert q2 == q2 % 0x100 + 0x100 * (q2 / 0x100);
  }

  /** Storing a value read from four bytes gives back those bytes. */
  lemma LE32OfRead32(b: seq<Byte>, at: int)
    requires 0 <= at && at + 4 <= |b|
    ensures LE32(ReadLE32(b, at)) == b[at..at + 4]
  {
    var v := ReadLE32(b, at);
    var b1: int, b2: int, b3: int := b[at + 1], b[at + 2], b[at + 3];
    assert v / 0x100 == b1 + 0x100 * b2 + 0x1_0000 * b3;
    assert v / 0x1_0000 == b2 + 0x100 * b3;
    assert v / 0x100_0000 == b3;
  }

  /** The 14-byte file header: signature, file size, two reserved words and
      the offset of the pixel data. */
  function FileHeaderBytes(h: BMPHeader): (b: seq<Byte>)
    ensures |b| == 14
  {
    LE16(h.signature) + LE32(h.fileSize) + LE16(h.reserved1) + LE16(h.reserved2) + LE32(h.dataOffset)
  }

  /** The 40-byte info header, from `headerSize` to `importantColors`. */
  function InfoHeaderBytes(h: BMPHeader): (b: seq<Byte>)
    ensures |b| == 40
  {
    LE32(h.headerSize) + LE32(AsUnsigned(h.width)) + LE32(AsUnsigned(h.height))
    + LE16(h.planes) + LE16(h.bitsPerPixel) + LE32(h.compression) + LE32(h.dataSize)
    + LE32(AsUnsigned(h.horizontalRes)) + LE32(AsUnsigned(h.verticalRes))
    + LE32(h.colors) + LE32(h.importantColors)
  }

  /** The bytes `write(reinterpret_cast<char*>(&header), sizeof(header))` emits. */
  function Encode(h: BMPHeader): (b: seq<Byte>)
    ensures |b| == HEADER_SIZE
  {
    FileHeaderBytes(h) + InfoHeaderBytes(h)
  }

  /** What `read(reinterpret_cast<char*>(&header), sizeof(header))` fills in
      from the first 54 bytes of a file; a file shorter than the header
      leaves it unfilled, which is None here. */
  function Decode(b: seq<Byte>): (r: Option<BMPHeader>)
    ensures r.Some? <==> HEADER_SIZE <= |b|
  {
    if |b| < HEADER_SIZE then None
    else Some(BMPHeader(
      ReadLE16(b, SIGNATURE_AT),
      ReadLE32(b, FILE_SIZE_AT),
      ReadLE16(b, RESERVED1_AT),
      ReadLE16(b, RESERVED2_AT),
      ReadLE32(b, DATA_OFFSET_AT),
      ReadLE32(b, HEADER_SIZE_AT),
      AsSigned(ReadLE32(b, WIDTH_AT)),
      AsSigned(ReadLE32(b, HEIGHT_AT)),
      ReadLE16(b, PLANES_AT),
      ReadLE16(b, BITS_PER_PIXEL_AT),
      ReadLE32(b, COMPRESSION_AT),
      ReadLE32(b, DATA_SIZE_AT),
      AsSigned(ReadLE32(b, HORIZONTAL_RES_AT)),
      AsSigned(ReadLE32(b, VERTICAL_RES_AT)),
      ReadLE32(b, COLORS_AT),
      ReadLE32(b, IMPORTANT_COLORS_AT)))
  }

  /** Each field of an encoded header sits at its offset. */
  lemma {:induction false} EncodeLayout(h: BMPHeader)
    ensures var b := Encode(h);
      b[SIGNATURE_AT..SIGNATURE_AT + 2] == LE16(h.signature) &&
      b[FILE_SIZE_AT..FILE_SIZE_AT + 4] == LE32(h.fileSize) &&
      b[RESERVED1_AT..RESERVED1_AT + 2] == LE16(h.reserved1) &&
      b[RESERVED2_AT..RESERVED2_AT + 2] == LE16(h.reserved2) &&
      b[DATA_OFFSET_AT..DATA_OFFSET_AT + 4] == LE32(h.dataOffset) &&
      b[HEADER_SIZE_AT..HEADER_SIZE_AT + 4] == LE32(h.headerSize) &&
      b[WIDTH_AT..WIDTH_AT + 4] == LE32(AsUnsigned(h.width)) &&
      b[HEIGHT_AT..HEIGHT_AT + 4] == LE32(AsUnsigned(h.height)) &&
      b[PLANES_AT..PLANES_AT + 2] == LE16(h.planes) &&
      b[BITS_PER_PIXEL_AT..BITS_PER_PIXEL_AT + 2] == LE16(h.bitsPerPixel) &&
      b[COMPRESSION_AT..COMPRESSION_AT + 4] == LE32(h.compression) &&
      b[DATA_SIZE_AT..DATA_SIZE_AT + 4] == LE32(h.dataSize) &&
      b[HORIZONTAL_RES_AT..HORIZONTAL_RES_AT + 4] == LE32(AsUnsigned(h.horizontalRes)) &&
      b[VERTICAL_RES_AT..VERTICAL_RES_AT + 4] == LE32(AsUnsigned(h.verticalRes)) &&
      b[COLORS_AT..COLORS_AT + 4] == LE32(h.colors) &&
      b[IMPORTANT_COLORS_AT..IMPORTANT_COLORS_AT + 4] == LE32(h.importantColors)
  {
    var b, f, i := Encode(h), FileHeaderBytes(h), InfoHeaderBytes(h);
    FileHeaderLayout(h);
    InfoHeaderLayout(h);
    assert b[..14] == f && b[14..] == i;
    forall lo, hi | 0 <= lo <= hi <= 14
      ensures b[lo..hi] == f[lo..hi]
    {
      assert b[lo..hi] == b[..14][lo..hi];
    }
    forall lo, hi | 14 <= lo <= hi <= HEADER_SIZE
      ensures b[lo..hi] == i[lo - 14..hi - 14]
    {
      assert b[lo..hi] == b[14..][lo - 14..hi - 14];
    }
  }

  /** The fields of the file header at their offsets within it. */
  lemma FileHeaderLayout(h: BMPHeader)
    ensures var f := FileHeaderBytes(h);
      f[0..2] == LE16(h.signature) && f[2..6] == LE32(h.fileSize) &&
      f[6..8] == LE16(h.reserved1) && f[8..10] == LE16(h.reserved2) &&
      f[10..14] == LE32(h.dataOffset)
  {
    var p1, p2, p3, p4, p5 := LE16(h.signature), LE32(h.fileSize), LE16(h.reserved1), LE16(h.reserved2), LE32(h.dataOffset);
    var f := FileHeaderBytes(h);
    assert f == p1 + p2 + p3 + p4 + p5;
  }

  /** The fields of the info header at their offsets within it. */
  lemma InfoHeaderLayout(h: BMPHeader)
    ensures var i := InfoHeaderBytes(h);
      i[0..4] == LE32(h.headerSize) && i[4..8] == LE32(AsUnsigned(h.width)) &&
      i[8..12] == LE32(AsUnsigned(h.height)) && i[12..14] == LE16(h.planes) &&
      i[14..16] == LE16(h.bitsPerPixel) && i[16..20] == LE32(h.compression) &&
      i[20..24] == LE32(h.dataSize) && i[24..28] == LE32(AsUnsigned(h.horizontalRes)) &&
      i[28..32] == LE32(AsUnsigned(h.verticalRes)) && i[32..36] == LE32(h.colors) &&
      i[36..40] == LE32(h.importantColors)
  {
  }

  /** Writing a header and reading it back gives the same header. */
  lemma {:induction false} DecodeEncode(h: BMPHeader)
    ensures Decode(Encode(h)) == Some(h)
  {
    var b := Encode(h);
    EncodeLayout(h);
    Read16OfLE16(h.signature, b, SIGNATURE_AT);
    Read32OfLE32(h.fileSize, b, FILE_SIZE_AT);
    Read16OfLE16(h.reserved1, b, RESERVED1_AT);
    Read16OfLE16(h.reserved2, b, RESERVED2_AT);
    Read32OfLE32(h.dataOffset, b, DATA_OFFSET_AT);
    Read32OfLE32(h.headerSize, b, HEADER_SIZE_AT);
    Read32OfLE32(AsUnsigned(h.width), b, WIDTH_AT);
    Read32OfLE32(AsUnsigned(h.height), b, HEIGHT_AT);
    Read16OfLE16(h.planes, b, PLANES_AT);
    Read16OfLE16(h.bitsPerPixel, b, BITS_PER_PIXEL_AT);
    Read32OfLE32(h.compression, b, COMPRESSION_AT);
    Read32OfLE32(h.dataSize, b, DATA_SIZE_AT);
    Read32OfLE32(AsUnsigned(h.horizontalRes), b, HORIZONTAL_RES_AT);
    Read32OfLE32(AsUnsigned(h.verticalRes), b, VERTICAL_RES_AT);
    Read32OfLE32(h.colors, b, COLORS_AT);
    Read32OfLE32(h.importantColors, b, IMPORTANT_COLORS_AT);
    SignedUnsignedInverse(h.width, 0);
    SignedUnsignedInverse(h.height, 0);
    SignedUnsignedInverse(h.horizontalRes, 0);
    SignedUnsignedInverse(h.verticalRes, 0);
  }

  /** Reading 54 bytes as a header and writing it back gives the same bytes. */
  lemma {:induction false} EncodeDecode(b: seq<Byte>)
    requires |b| == HEADER_SIZE
    ensures Decode(b).Some? && Encode(Decode(b).value) == b
  {
    FileHeaderOfDecode(b);
    InfoHeaderOfDecode(b);
    assert b == b[..14] + b[14..];
  }

  /** The first 14 bytes are rebuilt from the decoded file-header fields. */
  lemma FileHeaderOfDecode(b: seq<Byte>)
    requires |b| == HEADER_SIZE
    ensures Decode(b).Some? && FileHeaderBytes(Decode(b).value) == b[..14]
  {
    LE16OfRead16(b, SIGNATURE_AT);
    LE32OfRead32(b, FILE_SIZE_AT);
    LE16OfRead16(b, RESERVED1_AT);
    LE16OfRead16(b, RESERVED2_AT);
    LE32OfRead32(b, DATA_OFFSET_AT);
    assert b[..14] == b[0..2] + b[2..6] + b[6..8] + b[8..10] + b[10..14];
  }

  /** The last 40 bytes are rebuilt from the decoded info-header fields. */
  lemma InfoHeaderOfDecode(b: seq<Byte>)
    requires |b| == HEADER_SIZE
    ensures Decode(b).Some? && InfoHeaderBytes(Decode(b).value) == b[14..]
  {
    LE32OfRead32(b, HEADER_SIZE_AT);
    LE32OfRead32(b, WIDTH_AT);
    LE32OfRead32(b, HEIGHT_AT);
    LE16OfRead16(b, PLANES_AT);
    LE16OfRead16(b, BITS_PER_PIXEL_AT);
    LE32OfRead32(b, COMPRESSION_AT);
    LE32OfRead32(b, DATA_SIZE_AT);
    LE32OfRead32(b, HORIZONTAL_RES_AT);
    LE32OfRead32(b, VERTICAL_RES_AT);
    LE32OfRead32(b, COLORS_AT);
    LE32OfRead32(b, IMPORTANT_COLORS_AT);
    SignedUnsignedInverse(0, ReadLE32(b, WIDTH_AT));
    SignedUnsignedInverse(0, ReadLE32(b, HEIGHT_AT));
    SignedUnsignedInverse(0, ReadLE32(b, HORIZONTAL_RES_AT));
    SignedUnsignedInverse(0, ReadLE32(b, VERTICAL_RES_AT));
    assert b[14..] == b[14..18] + b[18..22] + b[22..26] + b[26..28] + b[28..30]
      + b[30..34] + b[34..38] + b[38..42] + b[42..46] + b[46..50] + b[50..54];
  }

  /** The header is read from the start of the file: whatever follows the
      first 54 bytes does not change it. */
  lemma {:induction false} DecodePrefix(b: seq<Byte>, rest: seq<Byte>)
    requires HEADER_SIZE <= |b|
    ensures Decode(b + rest) == Decode(b)
  {
  }

  /** A file written as a header followed by pixel data reads back that
      header (lines 215-216 write it, line 225 reads it again). */
  lemma {:induction false} DecodeWrittenFile(h: BMPHeader, pixels: seq<Byte>)
    ensures Decode(Encode(h) + pixels) == Some(h)
  {
    DecodePrefix(Encode(h), pixels);
    DecodeEncode(h);
  }

  /** Width and height are exchanged after the rotation (lines 189-190), and the
      file size becomes the 54 header bytes plus the pixel buffer's length
      (line 198), truncated to the 32-bit field. */
  function AfterRotation(h: BMPHeader, pixelBytes: nat): (r: BMPHeader)
    ensures r.width == h.height && r.height == h.width
    ensures HEADER_SIZE + pixelBytes < TWO_TO_32 ==> r.fileSize == HEADER_SIZE + pixelBytes
    ensures r.(width := h.width, height := h.height, fileSize := h.fileSize) == h
  {
    h.(width := h.height, height := h.width, fileSize := (HEADER_SIZE + pixelBytes) % TWO_TO_32)
  }

  /** The header side of Rotation.RotateFourTimes: after four rotations of the
      same buffer, each followed by the update of lines 189-198, the header is
      the original one with only the file size recomputed. */
  lemma RotateHeaderFourTimes(h: BMPHeader, pixelBytes: nat)
    ensures var n := pixelBytes;
      AfterRotation(AfterRotation(AfterRotation(AfterRotation(h, n), n), n), n)
        == h.(fileSize := (HEADER_SIZE + n) % TWO_TO_32)
  {
  }
}
