/**
 * The arithmetic of the image-available listener of CaptureManager: a raw RGBA_8888 plane whose rows may be
 * padded is turned into a densely packed width x height raster. The listener allocates a working bitmap that is
 * exactly one buffer row wide, fills it row-major from the buffer, and crops its top-left width x height corner.
 */
module Frames {

  type Byte = b: int | 0 <= b < 256

  /** One ARGB_8888 pixel, its four bytes in buffer order. */
  datatype Pixel = Pixel(r: Byte, g: Byte, b: Byte, a: Byte)

  /** An image as a sequence of rows. */
  type Raster = seq<seq<Pixel>>

  /** Bytes per pixel of PixelFormat.RGBA_8888, the only format the capture reader is created with. */
  const RGBA_8888_PIXEL_STRIDE := 4

  /** Plane 0 of an acquired `Image`: its byte buffer and the two strides the platform reports. */
  datatype Plane = Plane(buffer: seq<Byte>, pixelStride: int, rowStride: int)

  /** `rowPadding = rowStride - pixelStride * w`: the bytes at the end of each buffer row that hold no pixel. */
  function RowPadding(width: int, plane: Plane): (pad: int)
    ensures plane.pixelStride * width + pad == plane.rowStride
    ensures pad == 0 <==> plane.rowStride == plane.pixelStride * width
  {
    plane.rowStride - plane.pixelStride * width
  }

  /**
   * What the listener takes for granted of a plane (it checks none of it): the RGBA_8888 stride, padding that is
   * a whole number of pixels, and a positive width.
   */
  predicate StridesFit(width: int, plane: Plane) {
    && width > 0
    && plane.pixelStride == RGBA_8888_PIXEL_STRIDE
    && RowPadding(width, plane) >= 0
    && RowPadding(width, plane) % plane.pixelStride == 0
  }

  /**
   * StridesFit, a positive height (Bitmap.createBitmap refuses an empty bitmap) and a buffer holding every row of
   * the working bitmap (copyPixelsFromBuffer refuses a shorter one).
   */
  predicate WellFormed(width: int, height: int, plane: Plane) {
    && StridesFit(width, plane)
    && height > 0
    && plane.rowStride * height <= |plane.buffer|
  }

  /** `w + rowPadding / pixelStride`: the width in pixels of the working bitmap. */
  function WorkingWidth(width: int, plane: Plane): (ww: int)
    requires StridesFit(width, plane)
    ensures ww >= width
    ensures ww * plane.pixelStride == plane.rowStride
  {
    width + RowPadding(width, plane) / plane.pixelStride
  }

  /** The pixel whose four bytes start at `offset`. */
  function PixelAt(buffer: seq<Byte>, offset: int): Pixel
    requires 0 <= offset && offset + 4 <= |buffer|
  {
    Pixel(buffer[offset], buffer[offset + 1], buffer[offset + 2], buffer[offset + 3])
  }

  /** `width` pixels taken from consecutive 4-byte groups at the front of `buffer`. */
  function PixelRow(buffer: seq<Byte>, width: nat): (row: seq<Pixel>)
    requires 4 * width <= |buffer|
  {
    seq(width, x requires 0 <= x < width => PixelAt(buffer, 4 * x))
  }

  /** Multiplication facts the row-by-row recursion needs. */
  lemma MulPred(k: nat, h: nat)
    requires h > 0
    ensures k * (h - 1) == k * h - k
  {
  }

  lemma MulNonNegative(k: nat, h: nat)
    ensures k * h >= 0
  {
  }

  lemma RowsFit(k: nat, h: nat)
    requires h > 0
    ensures k <= h * k && (h - 1) * k == h * k - k
  {
    MulPred(k, h);
    MulNonNegative(k, h - 1);
  }

  /**
   * `Bitmap.copyPixelsFromBuffer` on a width x height ARGB_8888 bitmap: the bitmap's rows, in order, take
   * consecutive runs of 4 * width bytes from the front of the buffer.
   */
  function FillRowMajor(buffer: seq<Byte>, width: nat, height: nat): (rows: Raster)
    requires height * (4 * width) <= |buffer|
    ensures |rows| == height
    ensures forall y :: 0 <= y < height ==> |rows[y]| == width
    decreases height
  {
    if height == 0 then []
    else
      RowsFit(4 * width, height);
      [PixelRow(buffer, width)] + FillRowMajor(buffer[4 * width..], width, height - 1)
  }

  /** Where pixel (x, y) of a dense `width`-pixel-wide fill starts, and that it lies inside the fill. */
  lemma FillOffset(width: nat, height: nat, x: nat, y: nat)
    requires x < width && y < height
    ensures 4 * (y * width + x) + 4 <= height * (4 * width)
    ensures y > 0 ==> 4 * width + 4 * ((y - 1) * width + x) == 4 * (y * width + x)
  {
    MulMonotone(y, height, width);
    assert height * (4 * width) == 4 * (height * width);
    if y > 0 {
      MulPred(width, y);
      assert (y - 1) * width == width * (y - 1);
    }
  }

  lemma PixelAtSuffix(buffer: seq<Byte>, k: nat, offset: nat)
    requires k + offset + 4 <= |buffer|
    ensures PixelAt(buffer[k..], offset) == PixelAt(buffer, k + offset)
  {
  }

  /** Pixel (x, y) of the filled bitmap is the 4-byte group at 4 * (y * width + x). */
  lemma {:induction false} FillRowMajorAt(buffer: seq<Byte>, width: nat, height: nat, x: nat, y: nat)
    requires height * (4 * width) <= |buffer|
    requires x < width && y < height
    ensures 4 * (y * width + x) + 4 <= |buffer|
    ensures FillRowMajor(buffer, width, height)[y][x] == PixelAt(buffer, 4 * (y * width + x))
    decreases height
  {
    FillOffset(width, height, x, y);
    RowsFit(4 * width, height);
    var rest := buffer[4 * width..];
    assert FillRowMajor(buffer, width, height) == [PixelRow(buffer, width)] + FillRowMajor(rest, width, height - 1);
    if y > 0 {
      FillRowMajorAt(rest, width, height - 1, x, y - 1);
      PixelAtSuffix(buffer, 4 * width, 4 * ((y - 1) * width + x));
    }
  }

  /** `Bitmap.createBitmap(source, x0, y0, w, h)` on rasters: the w x h rectangle whose top-left corner is (x0, y0). */
  function Crop(source: Raster, x0: nat, y0: nat, w: nat, h: nat): (r: Raster)
    requires y0 + h <= |source|
    requires forall y :: y0 <= y < y0 + h ==> x0 + w <= |source[y]|
    ensures |r| == h && forall j :: 0 <= j < h ==> |r[j]| == w
    ensures forall j, i :: 0 <= j < h && 0 <= i < w ==> r[j][i] == source[y0 + j][x0 + i]
  {
    seq(h, j requires 0 <= j < h => source[y0 + j][x0..x0 + w])
  }

  /** Lines 82-90 of the listener: fill the working bitmap from the plane, then keep its top-left w x h corner. */
  function Reconstruct(width: int, height: int, plane: Plane): (img: Raster)
    requires WellFormed(width, height, plane)
    ensures |img| == height
    ensures forall y :: 0 <= y < height ==> |img[y]| == width
  {
    var ww := WorkingWidth(width, plane);
    var working := FillRowMajor(plane.buffer, ww, height);
    Crop(working, 0, 0, width, height)
  }

  /** The offset of pixel (x, y) in a buffer whose rows are exactly `ww` pixels, i.e. `rowStride` bytes, wide. */
  lemma OffsetLaw(y: int, x: int, ww: int, rowStride: int)
    requires ww * 4 == rowStride
    ensures 4 * (y * ww + x) == y * rowStride + x * 4
  {
    calc {
      y * rowStride;
      y * (ww * 4);
      4 * (y * ww);
    }
  }

  lemma MulMonotone(a: nat, b: nat, k: nat)
    requires a < b
    ensures a * k + k <= b * k
  {
    MulPred(k, b - a);
    MulNonNegative(k, b - a - 1);
    assert b * k == a * k + (b - a) * k;
  }

  /**
   * The listener's promise: the reconstructed image is exactly width x height, and its pixel (x, y) is the
   * 4 bytes of the buffer at offset y * rowStride + x * pixelStride, whatever the padding bytes hold.
   */
  lemma ReconstructPixel(width: int, height: int, plane: Plane, x: int, y: int)
    requires WellFormed(width, height, plane)
    requires 0 <= x < width && 0 <= y < height
    ensures 0 <= y * plane.rowStride + x * plane.pixelStride
    ensures y * plane.rowStride + x * plane.pixelStride + 4 <= |plane.buffer|
    ensures Reconstruct(width, height, plane)[y][x] == PixelAt(plane.buffer, y * plane.rowStride + x * plane.pixelStride)
  {
    var ww := WorkingWidth(width, plane);
    FillRowMajorAt(plane.buffer, ww, height, x, y);
    OffsetLaw(y, x, ww, plane.rowStride);
  }

  /** The four bytes of a pixel, in buffer order. */
  function PixelBytes(p: Pixel): (bytes: seq<Byte>)
    ensures |bytes| == 4 && PixelAt(bytes, 0) == p
  {
    [p.r, p.g, p.b, p.a]
  }

  /** A row of pixels laid out densely, 4 bytes per pixel. */
  function RowBytes(row: seq<Pixel>): (bytes: seq<Byte>)
    ensures |bytes| == 4 * |row|
  {
    if row == [] then [] else PixelBytes(row[0]) + RowBytes(row[1..])
  }

  lemma {:induction false} RowBytesAt(row: seq<Pixel>, x: nat)
    requires x < |row|
    ensures PixelAt(RowBytes(row), 4 * x) == row[x]
  {
    if x > 0 {
      RowBytesAt(row[1..], x - 1);
      assert RowBytes(row)[4 * x..4 * x + 4] == RowBytes(row[1..])[4 * (x - 1)..4 * (x - 1) + 4];
    }
  }

  /** Every row of `img` has `width` pixels. */
  predicate IsRaster(img: Raster, width: nat) {
    forall y :: 0 <= y < |img| ==> |img[y]| == width
  }

  lemma RestIsRaster(img: Raster, width: nat)
    requires |img| > 0 && IsRaster(img, width)
    ensures IsRaster(img[1..], width)
  {
    forall j | 0 <= j < |img| - 1 ensures |img[1..][j]| == width {
      assert img[1..][j] == img[j + 1];
    }
  }

  /** A synthetic capture of `img`: every row laid out densely and followed by the same `padding` bytes. */
  function PaddedBuffer(img: Raster, padding: seq<Byte>): (buffer: seq<Byte>)
  {
    if img == [] then [] else RowBytes(img[0]) + padding + PaddedBuffer(img[1..], padding)
  }

  /** The RGBA_8888 plane whose rows hold `img` followed by `padding`. */
  function PaddedPlane(img: Raster, width: nat, padding: seq<Byte>): Plane {
    Plane(PaddedBuffer(img, padding), RGBA_8888_PIXEL_STRIDE, 4 * width + |padding|)
  }

  /** The offset at which row y starts when every row takes k bytes, counted row by row. */
  function RowStart(y: nat, k: nat): nat {
    if y == 0 then 0 else k + RowStart(y - 1, k)
  }

  lemma {:induction false} RowStartIsProduct(y: nat, k: nat)
    ensures RowStart(y, k) == y * k
  {
    if y > 0 {
      RowStartIsProduct(y - 1, k);
      MulPred(k, y);
    }
  }

  lemma {:induction false} PaddedBufferLength(img: Raster, width: nat, padding: seq<Byte>)
    requires IsRaster(img, width)
    ensures |PaddedBuffer(img, padding)| == RowStart(|img|, 4 * width + |padding|)
    decreases |img|
  {
    if img != [] {
      RestIsRaster(img, width);
      PaddedBufferLength(img[1..], width, padding);
    }
  }

  /** The first row of the synthetic capture is the first row's pixels followed by the padding. */
  lemma PaddedBufferHead(img: Raster, width: nat, padding: seq<Byte>, offset: nat)
    requires IsRaster(img, width) && |img| > 0 && offset < 4 * width + |padding|
    ensures offset < |PaddedBuffer(img, padding)|
    ensures PaddedBuffer(img, padding)[offset] == (RowBytes(img[0]) + padding)[offset]
  {
    assert PaddedBuffer(img, padding) == (RowBytes(img[0]) + padding) + PaddedBuffer(img[1..], padding);
  }

  /** After its first row, the synthetic capture continues with that of the remaining rows. */
  lemma PaddedBufferTail(img: Raster, width: nat, padding: seq<Byte>, j: nat)
    requires IsRaster(img, width) && |img| > 0 && j < |PaddedBuffer(img[1..], padding)|
    ensures 4 * width + |padding| + j < |PaddedBuffer(img, padding)|
    ensures PaddedBuffer(img, padding)[4 * width + |padding| + j] == PaddedBuffer(img[1..], padding)[j]
  {
    var head := RowBytes(img[0]) + padding;
    assert PaddedBuffer(img, padding) == head + PaddedBuffer(img[1..], padding);
    assert |head| == 4 * width + |padding|;
  }

  /** Byte `offset` of buffer row y is byte `offset` of that row's pixels followed by the padding. */
  lemma {:induction false} PaddedBufferAt(img: Raster, width: nat, padding: seq<Byte>, y: nat, offset: nat)
    requires IsRaster(img, width)
    requires y < |img| && offset < 4 * width + |padding|
    ensures RowStart(y, 4 * width + |padding|) + offset < |PaddedBuffer(img, padding)|
    ensures PaddedBuffer(img, padding)[RowStart(y, 4 * width + |padding|) + offset] == (RowBytes(img[y]) + padding)[offset]
    decreases |img|
  {
    if y == 0 {
      PaddedBufferHead(img, width, padding, offset);
    } else {
      RestIsRaster(img, width);
      PaddedBufferAt(img[1..], width, padding, y - 1, offset);
      assert img[1..][y - 1] == img[y];
      PaddedBufferTail(img, width, padding, RowStart(y - 1, 4 * width + |padding|) + offset);
    }
  }

  /** Byte i of pixel (x, y) of the synthetic capture is byte i of that pixel's dense row bytes. */
  lemma PaddedByte(img: Raster, width: nat, padding: seq<Byte>, y: nat, x: nat, i: nat)
    requires IsRaster(img, width)
    requires y < |img| && x < width && i < 4
    ensures y * (4 * width + |padding|) + 4 * x + i < |PaddedBuffer(img, padding)|
    ensures PaddedBuffer(img, padding)[y * (4 * width + |padding|) + 4 * x + i] == RowBytes(img[y])[4 * x + i]
  {
    PaddedBufferAt(img, width, padding, y, 4 * x + i);
    RowStartIsProduct(y, 4 * width + |padding|);
    assert |RowBytes(img[y])| == 4 * width;
  }

  /** Pixel (x, y) of the synthetic capture sits at offset y * rowStride + 4 * x. */
  lemma PaddedPixel(img: Raster, width: nat, padding: seq<Byte>, y: nat, x: nat)
    requires IsRaster(img, width)
    requires y < |img| && x < width
    ensures y * (4 * width + |padding|) + 4 * x + 4 <= |PaddedBuffer(img, padding)|
    ensures PixelAt(PaddedBuffer(img, padding), y * (4 * width + |padding|) + 4 * x) == img[y][x]
  {
    PaddedByte(img, width, padding, y, x, 0);
    PaddedByte(img, width, padding, y, x, 1);
    PaddedByte(img, width, padding, y, x, 2);
    PaddedByte(img, width, padding, y, x, 3);
    RowBytesAt(img[y], x);
  }

  /**
   * Round trip: padding every row of a width x h image with a whole number of pixels' worth of arbitrary bytes
   * and reconstructing gives back exactly that image.
   */
  lemma PadThenReconstruct(img: Raster, width: nat, padding: seq<Byte>)
    requires width > 0 && |img| > 0 && IsRaster(img, width)
    requires |padding| % 4 == 0
    ensures WellFormed(width, |img|, PaddedPlane(img, width, padding))
    ensures Reconstruct(width, |img|, PaddedPlane(img, width, padding)) == img
  {
    var plane := PaddedPlane(img, width, padding);
    PaddedBufferLength(img, width, padding);
    RowStartIsProduct(|img|, 4 * width + |padding|);
    assert RowPadding(width, plane) == |padding|;
    assert WellFormed(width, |img|, plane);
    var r := Reconstruct(width, |img|, plane);
    forall y | 0 <= y < |img| ensures r[y] == img[y] {
      forall x | 0 <= x < width ensures r[y][x] == img[y][x] {
        ReconstructPixel(width, |img|, plane, x, y);
        PaddedPixel(img, width, padding, y, x);
      }
    }
  }

  /**
   * A 3 x 2 frame with rowStride 16: rowPadding is 4, so the working bitmap is 4 pixels wide, and each output
   * pixel (x, y) is the source pixel at byte offset y * 16 + x * 4; bytes 12-15 and 28-31 are never read.
   */
  lemma ThreeByTwoFrame(buffer: seq<Byte>)
    requires |buffer| == 32
    ensures RowPadding(3, Plane(buffer, 4, 16)) == 4
    ensures WorkingWidth(3, Plane(buffer, 4, 16)) == 4
    ensures WellFormed(3, 2, Plane(buffer, 4, 16))
    ensures Reconstruct(3, 2, Plane(buffer, 4, 16)) == [
              [PixelAt(buffer, 0), PixelAt(buffer, 4), PixelAt(buffer, 8)],
              [PixelAt(buffer, 16), PixelAt(buffer, 20), PixelAt(buffer, 24)]]
  {
    var plane := Plane(buffer, 4, 16);
    var r := Reconstruct(3, 2, plane);
    forall y, x | 0 <= y < 2 && 0 <= x < 3 ensures r[y][x] == PixelAt(buffer, y * 16 + x * 4) {
      ReconstructPixel(3, 2, plane, x, y);
    }
    assert r[0] == [PixelAt(buffer, 0), PixelAt(buffer, 4), PixelAt(buffer, 8)];
    assert r[1] == [PixelAt(buffer, 16), PixelAt(buffer, 20), PixelAt(buffer, 24)];
  }
}
