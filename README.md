# bmp_project in Dafny

A model of the image core of `main.cpp`. The program reads a 24-bit BMP file
and rotates its pixel buffer by 90 degrees. It then swaps the header's width
and height, sets the file size, and writes the result. Finally it reads that
file back, applies a 5 x 5 Gaussian blur and writes the blurred image.

The model is organised in these modules:

- `Ints`: the fixed-width integer types (`unsigned char`, `uint16_t`,
  `uint32_t`, `int32_t`). It also holds two's complement and C's truncating
  division by 8.
- `PixelGrid`: the packed pixel buffer. Pixel (x, y) channel c is byte
  `(y * width + x) * 3 + c`.
- `Header`: `struct BMPHeader`. It is a 16-field datatype, encoded to and
  decoded from its 54-byte little-endian layout.
- `RowStride`: the row size `(width * bitsPerPixel / 8 + 3) & ~3`, with the
  bitwise AND written out bit by bit.
- `Rotation`: `rotateImage90Degrees`. It is a method with loops over arrays,
  proved against the function `Rotated`, whose properties are lemmas.
- `Gaussian`: `GaussianFilter`. It is a method with four nested loops,
  proved against the function `Blurred`, whose properties are lemmas.
- `Driver`: the two stages of `main`, from the bytes of a file to the bytes
  written.

The kernel's weights are written in the source as `double`s with three
decimals. The model keeps them as exact integer thousandths. A channel is then
the exact weighted sum divided by 1000 and truncated, which is what
`static_cast<unsigned char>` does to the sum. The weights total 0.987, not 1,
so a uniform grey level v becomes floor(0.987 v) in the interior: 128 becomes
126, not 128. The model follows the code here.

The code does not copy the two-pixel border through. It leaves the border 0,
because `filteredPixels` starts zero-filled. The model follows the code.

The rotation ignores BMP row padding. It addresses the buffer as packed
3-byte pixels. The new file size is `54 + pixels.size()`, with the buffer's
length unchanged. The row size of the rotated image is not recomputed. The
model follows the code in both respects.

## Model

| member | source | states |
|---|---|---|
| Ints.AsUnsigned | main.cpp:18-19 | the stored bit pattern of an `int32_t` field is congruent to it mod 2^32 and is below 2^31 exactly for non-negative values |
| Ints.AsSigned | main.cpp:18-19 | an `int32_t` field read from its bit pattern is congruent to it mod 2^32 and non-negative exactly when the pattern is below 2^31 |
| Ints.SignedUnsignedInverse | main.cpp:18-19 | the two conversions are inverse to each other in both directions |
| Ints.TruncDiv8 | main.cpp:171 | C's `/ 8` rounds toward zero: 8q <= a < 8q + 8 for a >= 0 and 8q - 8 < a <= 8q for a < 0 |
| PixelGrid.OffsetInGrid | main.cpp:113 | `(y * width + x) * 3 + c` of an in-grid pixel lies in the packed buffer and decodes back to x, y and c |
| PixelGrid.PixelCoordinates | main.cpp:113 | every pixel index of the grid is `y * width + x` of one in-grid pair (x, y) |
| Header.DecodeEncode | main.cpp:8-28 | writing a header as its 54 bytes and reading them back gives the same header |
| Header.EncodeDecode | main.cpp:8-28 | reading 54 bytes as a header and writing it back gives the same 54 bytes |
| Header.EncodeLayout | main.cpp:11-28 | each of the 16 fields sits at its packed offset (0, 2, 6, ..., 50), least significant byte first |
| Header.FileHeaderLayout | main.cpp:12-16 | within the 14-byte file header, each of its five fields sits at its packed offset |
| Header.InfoHeaderLayout | main.cpp:17-27 | within the 40-byte info header, each of its eleven fields sits at its packed offset |
| Header.Read16OfLE16 | main.cpp:12 | a `uint16_t` read from its two stored bytes is the stored value |
| Header.LE16OfRead16 | main.cpp:12 | any two bytes are the stored form of the `uint16_t` read from them |
| Header.Read32OfLE32 | main.cpp:13 | a `uint32_t` read from its four stored bytes is the stored value |
| Header.LE32OfRead32 | main.cpp:13 | any four bytes are the stored form of the `uint32_t` read from them |
| Header.Decode | main.cpp:156 | a header is read exactly when the file holds at least 54 bytes |
| Header.DecodePrefix | main.cpp:156 | the header read depends only on the first 54 bytes of the file |
| Header.DecodeWrittenFile | main.cpp:215-225 | a file written as a header followed by pixel bytes reads back that header |
| Header.AfterRotation | main.cpp:189-198 | the new header swaps width and height, has file size 54 + buffer length (mod 2^32), and equals the old header in every other field |
| Header.RotateHeaderFourTimes | main.cpp:188-198 | four rotations of the same buffer, each followed by the header update, give back the original header with only the file size recomputed |
| RowStride.ClearLowTwoBits | main.cpp:171 | `v & ~3` on a 32-bit `int`, computed bit by bit on the two's complement pattern, equals v rounded down to a multiple of 4 |
| RowStride.ClearLowBitsPattern | main.cpp:171 | masking a 32-bit pattern with `~3` clears exactly its two lowest bits |
| RowStride.RowSizeRoundsUp | main.cpp:171 | for width >= 0 the row size is a multiple of 4, at least `width * bitsPerPixel / 8` and less than 4 more |
| RowStride.RowHoldsPixels | main.cpp:171-174 | with at least 24 bits per pixel a row holds its 3 * width pixel bytes |
| Rotation.DestinationOfPixel | main.cpp:113-117 | the destination pixel `(width - x - 1) * height + y` of an in-grid pixel is in the grid and maps back to `y * width + x` |
| Rotation.SourceOfPixel | main.cpp:117 | every destination pixel is reached from an in-grid source pixel, so the destination map is onto |
| Rotation.DestinationInjective | main.cpp:117 | no two source pixels share a destination pixel |
| Rotation.RotatedAt | main.cpp:113-123 | both offsets of one copy are in bounds, and the rotated buffer holds the source channel at the destination |
| Rotation.RotatedMovesPixels | main.cpp:107-123 | every channel of every pixel reaches its destination, and the bytes past 3 * width * height stay 0 |
| Rotation.RotateImage90Degrees | main.cpp:104-128 | the loops fill a freshly allocated buffer of the same length with exactly `Rotated` of the input |
| Rotation.RotatedColumn | main.cpp:110-111 | one source column fills the 3 * height bytes just before the later columns' destinations |
| Rotation.RotateColumn | main.cpp:111-124 | the inner loop writes exactly the destinations of source column x and leaves every other byte unchanged |
| Rotation.RotateTwice | main.cpp:188-190 | rotating twice, with the dimensions swapped between, sends pixel (x, y) to (width - 1 - x, height - 1 - y) and keeps the tail 0 |
| Rotation.RotateFourTimes | main.cpp:188-190 | four rotations give the pixel grid back unchanged and leave the tail 0 |
| Rotation.RotationKeepsUniformColour | main.cpp:121-123 | an image of one colour is still that colour after rotation |
| Rotation.RotatedPixel | main.cpp:113-123 | the three bytes of source pixel (x, y) are the three bytes of its destination pixel in the rotated buffer |
| Rotation.TwoByTwoExample | main.cpp:117 | the 2 x 2 image A B / C D becomes the buffer B D A C |
| Gaussian.KernelTotal | main.cpp:38-44 | the 25 weights total 987 thousandths |
| Gaussian.NeighbourInGrid | main.cpp:74 | every neighbourhood read of an interior pixel lies inside the pixel grid |
| Gaussian.TapInGrid | main.cpp:67-74 | the offset `((y + j) * width + (x + i)) * 3` and the two after it are in the buffer for every tap of an interior pixel |
| Gaussian.TapIsNeighbour | main.cpp:74-75 | tap (i, j) is neighbour `5 (j + 2) + (i + 2)` of the window, and its weight is `kernel[j + 2][i + 2]` |
| Gaussian.NeighbourOffsetAt | main.cpp:74-75 | neighbour `5 (j + 2) + (i + 2)` is pixel (x + i, y + j), and its weight is the kernel entry |
| Gaussian.WeightedSumBound | main.cpp:77-79 | a weighted sum of bytes is at most 255 times the weights summed |
| Gaussian.Channel | main.cpp:87-93 | the stored channel is floor(weighted sum / 1000) and never exceeds 251, so the cast to `unsigned char` stays in range |
| Gaussian.Convolve | main.cpp:62-81 | the three loop sums equal the kernel-weighted sums of the red, green and blue windows |
| Gaussian.FilterRow | main.cpp:59-94 | one interior row's loop writes exactly the blurred bytes of that row's interior pixels and nothing else |
| Gaussian.GaussianFilter | main.cpp:33-99 | the loops fill a freshly allocated buffer of the same length with exactly `Blurred` of the input |
| Gaussian.BlurredAt | main.cpp:55-93 | an interior pixel's channel is its blurred value, and any other pixel's channel is 0 |
| Gaussian.BlurredRow | main.cpp:59-93 | every interior pixel of an interior row holds its blurred value |
| Gaussian.BorderHead | main.cpp:34 | the bytes before interior pixel (2, 2) stay 0 |
| Gaussian.BorderGap | main.cpp:59 | the bytes between one interior row's last visited pixel and the next row's first stay 0 |
| Gaussian.BorderTail | main.cpp:55 | the bytes from the last two rows onward stay 0 |
| Gaussian.BlurBorderIsBlack | main.cpp:34-95 | every pixel within two of an edge, and every byte past the grid, is 0 in the output |
| Gaussian.SmallImageIsBlack | main.cpp:55-59 | an image narrower or lower than 5 pixels blurs to all zeros |
| Gaussian.UniformSum | main.cpp:77-79 | on a window of one grey level v the weighted sum is v times the summed weights |
| Gaussian.UniformImageDarkens | main.cpp:38-93 | every interior channel of a uniform grey image v becomes floor(0.987 v), so 128 becomes 126 |
| Driver.Loaded | main.cpp:174-184 | the loaded buffer has the vector's size, holds the file's bytes as far as they go, and holds 0 after them |
| Driver.LoadPixels | main.cpp:174-184 | the fresh vector holds `Loaded` of the file's pixel bytes |
| Driver.RotateBitmap | main.cpp:143-217 | the output file is the updated header followed by the rotated buffer, and the buffer's length is `rowSize * height` |
| Driver.BlurBitmap | main.cpp:221-252 | the output file is the header as read followed by the blurred buffer, and its first 54 bytes are the input's |
| Driver.BufferHoldsPixels | main.cpp:171-174 | with at least 24 bits per pixel, the `rowSize * height` buffer holds the packed grid that the rotation and the blur address |
| Driver.UnpaddedRow | main.cpp:171 | a 24-bit row whose width is a multiple of 4 is exactly 3 * width bytes |
| Driver.UnpaddedRotatedSize | main.cpp:232-235 | without row padding, the rotated header sizes a buffer of the same length as the original |
| Driver.BlurStageSeesRotation | main.cpp:215-240 | without row padding, the blur stage reads back the rotated header, a buffer of the same size and exactly the rotated pixels |

## Left out

- File and console I/O: file names, streams, `close` and the two messages printed. A file is a sequence of bytes given as a parameter or returned.
- `setlocale` at line 139 has no effect on the image.
- Floating point. The model holds the kernel's `double` weights as exact thousandths, so the rounding of the `double` sums is not modelled. The exact sum is a whole number of thousandths. A sum one thousandth short of a multiple of 1000 cannot cross it through `double` error. The case that can differ is an exact multiple of 1000 whose `double` sum lands just below it: the cast then gives one less than the model's channel.
- Header.Decode: a file shorter than 54 bytes leaves the C++ struct partly uninitialised. It is None in the model, and the driver methods require a full header.
- Driver.RotateBitmap and Driver.BlurBitmap require what the source needs for defined behaviour:
  - `width * bitsPerPixel` and `rowSize * height` fit in an `int`;
  - the buffer size is not negative;
  - the packed grid fits in the buffer.

  Behaviour when these fail (overflow, a failed allocation, reads past the buffer) is not modelled. With at least 24 bits per pixel, the last condition follows from the others (Driver.BufferHoldsPixels).
- The reload at lines 232-235 sizes the buffer from the swapped header, `rowSize(height) * width`. The bytes written number `rowSize(width) * height`. The two differ exactly when `rowSize(W) * H != rowSize(H) * W`: never for a square image, and not for a 1 x 2 image at 24 bits (8 bytes both ways), though both of its rows are padded. Through `Loaded`, the model reproduces the reload whether it truncates or zero-fills. It proves the two sizes equal only when no row is padded (Driver.BlurStageSeesRotation).
- Row padding is ignored by the rotation and the blur, as in the source. Neither carries padding bytes through nor recomputes the destination's padding.
- Rotation.RotateImage90Degrees and Gaussian.GaussianFilter return a fresh array. The source builds a new vector and assigns it to the by-reference parameter. The copy-back is the caller rebinding its buffer.
- Rotation.RotateColumn and Gaussian.FilterRow are the inner loops of the source's nested loops, written as separate methods. Convolve is likewise the two innermost loops.
