/** Pixels in row-major order, and the fixed-width integers that index them. */
module Raster {
  import opened Words

  /** C's `int`. */
  type Int32 = i: int | -0x8000_0000 <= i < 0x8000_0000 witness 0

  type Pixel = p: nat | p < 0x1_0000_0000 witness 0

  /** `0xAARRGGBB` from its four bytes, most significant first. */
  function Pack(a: nat, r: nat, g: nat, b: nat): Pixel
    requires a < 256 && r < 256 && g < 256 && b < 256
  {
    a * 0x100_0000 + r * 0x1_0000 + g * 0x100 + b
  }

  function A(p: Pixel): (c: nat) ensures c < 256 { p / 0x100_0000 }

  function R(p: Pixel): (c: nat) ensures c < 256 { p / 0x1_0000 % 256 }

  function G(p: Pixel): (c: nat) ensures c < 256 { p / 0x100 % 256 }

  function B(p: Pixel): (c: nat) ensures c < 256 { p % 256 }

  lemma Unpack(a: nat, r: nat, g: nat, b: nat)
    requires a < 256 && r < 256 && g < 256 && b < 256
    ensures var p := Pack(a, r, g, b); A(p) == a && R(p) == r && G(p) == g && B(p) == b
  {
    var p := Pack(a, r, g, b);
    assert p / 0x100 == a * 0x1_0000 + r * 0x100 + g;
    assert p / 0x1_0000 == a * 0x100 + r;
  }

  lemma Repack(p: Pixel)
    ensures Pack(A(p), R(p), G(p), B(p)) == p
  {
    var q := p / 0x100;
    var r := p / 0x1_0000;
    assert q / 0x100 == r && r / 0x100 == p / 0x100_0000;
  }

  /** An image in memory: `width * height` pixels, row by row from the top. */
  datatype Image = Image(width: nat, height: nat, pixels: seq<Pixel>)

  ghost predicate Complete(img: Image) { img.width > 0 && img.height > 0 && |img.pixels| == img.width * img.height }

  lemma InRaster(x: nat, y: nat, w: nat, h: nat)
    requires x < w && y < h
    ensures y * w + x < h * w == w * h && y * w <= y * w + x
  {
    assert (y + 1) * w <= h * w by {
      MulMono(y + 1, h, w);
    }
  }

  lemma IndexParts(x: nat, y: nat, w: nat)
    requires x < w
    ensures (y * w + x) / w == y && (y * w + x) % w == x
  {
    MulMono(0, y, w);
    ModUnique(y * w + x, w, y, x);
  }

  lemma PartsOf(i: nat, w: nat, h: nat)
    requires w > 0 && i < w * h
    ensures 0 <= i / w < h && 0 <= i % w < w && i / w * w + i % w == i
  {
    if i / w >= h {
      MulMono(h, i / w, w);
    }
  }

  /** The row and the column of a pixel index. */
  function RowOf(i: nat, w: nat, h: nat): (y: nat)
    requires w > 0 && i < w * h
    ensures y < h
  {
    PartsOf(i, w, h);
    i / w
  }

  function ColumnOf(i: nat, w: nat): (x: nat)
    requires w > 0
    ensures x < w
  {
    i % w
  }

  lemma IndexAt(x: nat, y: nat, w: nat, h: nat)
    requires x < w && y < h
    ensures 0 <= y * w + x < w * h && RowOf(y * w + x, w, h) == y && ColumnOf(y * w + x, w) == x
  {
    InRaster(x, y, w, h);
    IndexParts(x, y, w);
  }

  function At(img: Image, x: nat, y: nat): Pixel
    requires Complete(img) && x < img.width && y < img.height
  {
    InRaster(x, y, img.width, img.height);
    img.pixels[y * img.width + x]
  }

  /** Complete images of one size are equal when they agree at every position. */
  lemma SameImage(a: Image, b: Image)
    requires Complete(a) && Complete(b) && a.width == b.width && a.height == b.height
    requires forall x: nat, y: nat :: x < a.width && y < a.height ==> At(a, x, y) == At(b, x, y)
    ensures a == b
  {
    forall i: nat | i < |a.pixels|
      ensures a.pixels[i] == b.pixels[i]
    {
      PartsOf(i, a.width, a.height);
      assert At(a, i % a.width, i / a.width) == At(b, i % a.width, i / a.width);
    }
  }
}
