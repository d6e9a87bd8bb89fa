/**
 * The platform objects the image-available listener touches: the acquired `Image` (here `Frame`) with its close(),
 * and ARGB_8888 bitmaps with the two operations the listener uses on them, `copyPixelsFromBuffer` and the cropping
 * `Bitmap.createBitmap(source, x, y, width, height)`. Both work in place on the bitmap's pixel grid.
 */
module Bitmaps {
  import opened Frames

  /** An ARGB_8888 `android.graphics.Bitmap`; `pixels[y, x]` is the pixel in row y, column x. */
  class Bitmap {
    const width: nat
    const height: nat
    const pixels: array2<Pixel>

    ghost predicate Valid()
      reads this
    {
      pixels.Length0 == height && pixels.Length1 == width
    }

    /** The bitmap holds exactly the raster `img`. */
    ghost predicate Shows(img: Raster)
      requires Valid()
      reads this, pixels
    {
      && |img| == height
      && (forall y :: 0 <= y < height ==> |img[y]| == width)
      && (forall y, x :: 0 <= y < height && 0 <= x < width ==> pixels[y, x] == img[y][x])
    }

    /** `Bitmap.createBitmap(width, height, ARGB_8888)`, which refuses an empty size: a new, transparent bitmap. */
    constructor (width: nat, height: nat)
      requires width > 0 && height > 0
      ensures Valid() && this.width == width && this.height == height && fresh(pixels)
      ensures forall y, x :: 0 <= y < height && 0 <= x < width ==> pixels[y, x] == Pixel(0, 0, 0, 0)
    {
      this.width := width;
      this.height := height;
      pixels := new Pixel[height, width]((y, x) => Pixel(0, 0, 0, 0));
    }
  }

  /** An `android.media.Image` acquired from the ImageReader: its size, plane 0, and whether it has been closed. */
  class Frame {
    const width: int
    const height: int
    const plane: Plane
    var closed: bool

    constructor (width: int, height: int, plane: Plane)
      ensures this.width == width && this.height == height && this.plane == plane && !closed
    {
      this.width := width;
      this.height := height;
      this.plane := plane;
      closed := false;
    }

    /** `Image.close()`: hands the buffer back to the reader. */
    method Close()
      modifies this
      ensures closed
    {
      closed := true;
    }
  }

  /**
   * `bitmap.copyPixelsFromBuffer(buffer)`: overwrites every pixel of the bitmap, in row-major order, from
   * consecutive 4-byte groups of the buffer. The platform throws when the buffer is shorter than the bitmap.
   */
  method CopyPixelsFromBuffer(bitmap: Bitmap, buffer: seq<Byte>)
    requires bitmap.Valid()
    requires bitmap.height * (4 * bitmap.width) <= |buffer|
    modifies bitmap.pixels
    ensures bitmap.Shows(FillRowMajor(buffer, bitmap.width, bitmap.height))
  {
    var w, h := bitmap.width, bitmap.height;
    ghost var rows := FillRowMajor(buffer, w, h);
    var y := 0;
    while y < h
      invariant 0 <= y <= h
      invariant forall j, i :: 0 <= j < y && 0 <= i < w ==> bitmap.pixels[j, i] == rows[j][i]
    {
      var x := 0;
      while x < w
        invariant 0 <= x <= w
        invariant forall j, i :: 0 <= j < y && 0 <= i < w ==> bitmap.pixels[j, i] == rows[j][i]
        invariant forall i :: 0 <= i < x ==> bitmap.pixels[y, i] == rows[y][i]
      {
        FillRowMajorAt(buffer, w, h, x, y);
        bitmap.pixels[y, x] := PixelAt(buffer, 4 * (y * w + x));
        x := x + 1;
      }
      y := y + 1;
    }
  }

  /**
   * `Bitmap.createBitmap(source, x0, y0, width, height)` on a mutable source: a new bitmap holding the
   * width x height rectangle of `source` whose top-left corner is (x0, y0). The platform throws when the
   * rectangle is empty or leaves the source.
   */
  method CreateCroppedBitmap(source: Bitmap, x0: nat, y0: nat, width: nat, height: nat) returns (cropped: Bitmap)
    requires source.Valid()
    requires width > 0 && height > 0
    requires x0 + width <= source.width && y0 + height <= source.height
    ensures fresh(cropped) && fresh(cropped.pixels) && cropped.Valid()
    ensures cropped.width == width && cropped.height == height
    ensures forall y, x :: 0 <= y < height && 0 <= x < width ==> cropped.pixels[y, x] == source.pixels[y0 + y, x0 + x]
  {
    cropped := new Bitmap(width, height);
    var y := 0;
    while y < height
      invariant 0 <= y <= height
      invariant forall j, i :: 0 <= j < y && 0 <= i < width ==> cropped.pixels[j, i] == source.pixels[y0 + j, x0 + i]
    {
      var x := 0;
      while x < width
        invariant 0 <= x <= width
        invariant forall j, i :: 0 <= j < y && 0 <= i < width ==> cropped.pixels[j, i] == source.pixels[y0 + j, x0 + i]
        invariant forall i :: 0 <= i < x ==> cropped.pixels[y, i] == source.pixels[y0 + y, x0 + i]
      {
        cropped.pixels[y, x] := source.pixels[y0 + y, x0 + x];
        x := x + 1;
      }
      y := y + 1;
    }
  }

  /**
   * Lines 76-90 of the listener: read plane 0, allocate the working bitmap `w + rowPadding / pixelStride` pixels
   * wide and h tall, fill it from the buffer and crop its top-left w x h corner into a new bitmap.
   * The cropped bitmap holds exactly `Reconstruct` of the frame; the working bitmap is returned to be recycled.
   */
  method ReconstructFrame(image: Frame) returns (cropped: Bitmap, working: Bitmap)
    requires WellFormed(image.width, image.height, image.plane)
    ensures fresh(working) && fresh(cropped) && working != cropped
    ensures working.width == WorkingWidth(image.width, image.plane) && working.height == image.height
    ensures cropped.Valid() && cropped.width == image.width && cropped.height == image.height
    ensures cropped.Shows(Reconstruct(image.width, image.height, image.plane))
  {
    var plane := image.plane;
    var pixelStride := plane.pixelStride;
    var rowStride := plane.rowStride;
    var w := image.width;
    var h := image.height;
    var rowPadding := rowStride - pixelStride * w;
    working := new Bitmap(w + rowPadding / pixelStride, h);
    CopyPixelsFromBuffer(working, plane.buffer);
    cropped := CreateCroppedBitmap(working, 0, 0, w, h);
  }
}
