/** The framebuffer: LockBitmap wraps a 32-bit-per-pixel bitmap of `Width * Height` pixels and
    writes into it through a raw pointer that is valid only between LockBits and UnlockBits.
    The bitmap's pixel store is modelled as the array `pixels`, row by row with no padding;
    `locked` stands for the data pointer being non-null. */
module Canvas {
  import opened Pixel

  /** The index SetPixel writes for the point (x, y), `y * Width + x`. */
  function PixelIndex(x: int, y: int, width: int): int
  {
    y * width + x
  }

  /** A point inside the bitmap addresses a pixel inside the buffer, so SetPixel's unchecked
      write stays in bounds. */
  lemma PixelIndexInBuffer(x: int, y: int, width: int, height: int)
    requires 0 <= x < width && 0 <= y < height
    ensures 0 <= PixelIndex(x, y, width) < width * height
  {
    var d := height - 1 - y;
    assert d * width >= 0;
    assert width * height == y * width + d * width + width;
    assert y * width >= 0;
  }

  class LockBitmap {
    const Width: int
    const Height: int
    /** `_dataLength`, fixed at construction. */
    const DataLength: int
    /** The bitmap's pixels. */
    const pixels: array<uint32>
    /** True between LockBits and UnlockBits, when the data pointer is valid. */
    var locked: bool

    ghost predicate Valid()
      reads this
    {
      0 < Width && 0 < Height && DataLength == Width * Height && pixels.Length == DataLength
    }

    /** `new LockBitmap(new Bitmap(width, height))`: a fresh bitmap is all zero, and the
        wrapper starts unlocked. */
    constructor (width: int, height: int)
      requires 0 < width && 0 < height && width * height < 0x8000_0000
      ensures Valid() && Width == width && Height == height && !locked
      ensures fresh(pixels) && forall i :: 0 <= i < pixels.Length ==> pixels[i] == 0
    {
      Width := width;
      Height := height;
      DataLength := width * height;
      pixels := new uint32[width * height](_ => 0);
      locked := false;
    }

    /** Locks the bitmap and obtains the data pointer; the pixels themselves do not change. */
    method LockBits()
      requires Valid() && !locked
      modifies this`locked
      ensures Valid() && locked
    {
      locked := true;
    }

    /** Releases the bitmap; the data pointer is null again. */
    method UnlockBits()
      requires Valid() && locked
      modifies this`locked
      ensures Valid() && !locked
    {
      locked := false;
    }

    /** Overwrites every pixel of the buffer with `color`. */
    method Fill(color: uint32)
      requires Valid() && locked
      modifies pixels
      ensures forall i :: 0 <= i < pixels.Length ==> pixels[i] == color
    {
      var point := 0;
      while point < DataLength
        invariant 0 <= point <= DataLength
        invariant forall i :: 0 <= i < point ==> pixels[i] == color
      {
        pixels[point] := color;
        point := point + 1;
      }
    }

    /** Blends `color` into the pixel at `y * Width + x` and leaves every other pixel alone.
        There is no bounds check: the index must lie inside the buffer. */
    method SetPixel(x: int, y: int, color: uint32)
      requires Valid() && locked
      requires 0 <= PixelIndex(x, y, Width) < DataLength
      modifies pixels
      ensures pixels[..] == old(pixels[..])[PixelIndex(x, y, Width) := BlendPixel(old(pixels[PixelIndex(x, y, Width)]), color)]
    {
      var index := y * Width + x;
      pixels[index] := BlendPixel(pixels[index], color);
    }
  }
}
