/** Clockwise rotation of images (apps/image.h). */
module Rotation {
  import opened Words
  import opened Raster

  /** A quarter turn clockwise: the pixel at (x, y) goes to column `h - 1 - y` of row `x`. */
  function Rotated(img: Image): (turned: Image)
    requires Complete(img)
    ensures Complete(turned) && turned.width == img.height && turned.height == img.width
  {
    var w, h := img.width, img.height;
    Image(h, w, seq(w * h, i requires 0 <= i < w * h => RotatedPixel(img, i)))
  }

  function RotatedPixel(img: Image, i: nat): Pixel
    requires Complete(img) && i < img.width * img.height
  {
    PartsOf(i, img.height, img.width);
    At(img, i / img.height, img.height - 1 - i % img.height)
  }

  lemma RotatedAt(img: Image, x: nat, y: nat)
    requires Complete(img) && x < img.height && y < img.width
    ensures At(Rotated(img), x, y) == At(img, y, img.height - 1 - x)
  {
    InRaster(x, y, img.height, img.width);
    IndexParts(x, y, img.height);
  }

  /** Two quarter turns are a half turn. */
  lemma HalfTurn(img: Image)
    requires Complete(img)
    ensures var half := Rotated(Rotated(img)); half.width == img.width && half.height == img.height
    ensures forall x: nat, y: nat :: x < img.width && y < img.height ==>
              At(Rotated(Rotated(img)), x, y) == At(img, img.width - 1 - x, img.height - 1 - y)
  {
    hide Rotated, At;
    forall x: nat, y: nat | x < img.width && y < img.height
      ensures At(Rotated(Rotated(img)), x, y) == At(img, img.width - 1 - x, img.height - 1 - y)
    {
      RotatedAt(Rotated(img), x, y);
      RotatedAt(img, y, img.width - 1 - x);
    }
  }

  /** Four clockwise quarter turns give the image back. */
  lemma FourTurns(img: Image)
    requires Complete(img)
    ensures Rotated(Rotated(Rotated(Rotated(img)))) == img
  {
    hide Rotated, At;
    var half := Rotated(Rotated(img));
    HalfTurn(img);
    HalfTurn(half);
    var full := Rotated(Rotated(half));
    forall x: nat, y: nat | x < img.width && y < img.height
      ensures At(full, x, y) == At(img, x, y)
    {
      assert At(full, x, y) == At(half, img.width - 1 - x, img.height - 1 - y);
    }
    SameImage(full, img);
  }

  /** The source positions that the loops have passed when they stand at (x, y), as target indices. */
  predicate Passed(i: nat, h: nat, x: nat, y: nat)
    requires h > 0
  {
    var sx, sy := i / h, h - 1 - i % h;
    sy < y || (sy == y && sx < x)
  }

  ghost predicate TurnedUpTo(img: Image, dst: seq<Pixel>, x: nat, y: nat)
    requires Complete(img)
  {
    |dst| == img.width * img.height && forall i: nat | i < |dst| && Passed(i, img.height, x, y) ::
      dst[i] == RotatedPixel(img, i)
  }

  method RotateRow(src: array<Pixel>, w: Int32, h: Int32, dst: array<Pixel>, y: Int32)
    requires src != dst && w > 0 && 0 <= y < h && src.Length == dst.Length == w * h
    requires TurnedUpTo(Image(w, h, src[..]), dst[..], 0, y)
    modifies dst
    ensures TurnedUpTo(Image(w, h, src[..]), dst[..], 0, y + 1)
  {
    hide RotatedPixel, Passed;
    ghost var img := Image(w, h, src[..]);
    var x: Int32 := 0;
    while x < w
      invariant 0 <= x <= w && src[..] == img.pixels && TurnedUpTo(img, dst[..], x, y)
    {
      InRaster(x, y, w, h);
      var nx, ny := h - 1 - y, x;
      InRaster(nx, ny, h, w);
      Turned(img, x, y);
      PixelTurned(img, dst[..], x, y, src[y * w + x]);
      dst[ny * h + nx] := src[y * w + x];
      x := x + 1;
    }
    RowPassed(w, h, y, dst.Length);
  }

  /** `image_rotate_90_cw`; `memory` says whether the allocation succeeds. */
  method Rotate90Cw(src: array<Pixel>, w: Int32, h: Int32, memory: bool) returns (dst: array?<Pixel>)
    requires w > 0 && h > 0 ==> src.Length == w * h < 0x4000_0000
    ensures dst == null <==> w <= 0 || h <= 0 || !memory
    ensures dst != null ==> fresh(dst) && Image(h, w, dst[..]) == Rotated(Image(w, h, src[..]))
  {
    hide RotatedPixel, Passed;
    if w <= 0 || h <= 0 || !memory { return null; }
    ghost var img := Image(w, h, src[..]);
    dst := new Pixel[w * h];
    NonePassed(h, dst.Length);
    var y: Int32 := 0;
    while y < h
      invariant 0 <= y <= h && fresh(dst) && src[..] == img.pixels && TurnedUpTo(img, dst[..], 0, y)
    {
      RotateRow(src, w, h, dst, y);
      y := y + 1;
    }
    AllPassed(h, dst.Length);
  }

  lemma PixelTurned(img: Image, dst: seq<Pixel>, x: nat, y: nat, p: Pixel)
    requires Complete(img) && x < img.width && y < img.height && TurnedUpTo(img, dst, x, y)
    requires p == At(img, x, y)
    ensures var i := x * img.height + (img.height - 1 - y); i < |dst| && TurnedUpTo(img, dst[i := p], x + 1, y)
  {
    hide RotatedPixel, Passed, At;
    Turned(img, x, y);
    OnlyNext(img.height, x, y, |dst|);
  }

  lemma NonePassed(h: nat, n: nat)
    requires h > 0
    ensures forall i: nat | i < n :: !Passed(i, h, 0, 0)
  {
  }

  lemma Turned(img: Image, x: nat, y: nat)
    requires Complete(img) && x < img.width && y < img.height
    ensures var i := x * img.height + (img.height - 1 - y);
            i < img.width * img.height && RotatedPixel(img, i) == At(img, x, y)
  {
    InRaster(img.height - 1 - y, x, img.height, img.width);
    IndexParts(img.height - 1 - y, x, img.height);
  }

  /** The next target index is the only one that becomes passed. */
  lemma OnlyNext(h: nat, x: nat, y: nat, n: nat)
    requires y < h
    ensures forall i: nat | i < n && Passed(i, h, x + 1, y) :: i == x * h + (h - 1 - y) || Passed(i, h, x, y)
  {
    forall i: nat | i < n && Passed(i, h, x + 1, y) && !Passed(i, h, x, y)
      ensures i == x * h + (h - 1 - y)
    {
      assert i / h == x && i % h == h - 1 - y;
      assert i == i / h * h + i % h;
    }
  }

  lemma RowPassed(w: nat, h: nat, y: nat, n: nat)
    requires y < h && n == w * h
    ensures forall i: nat | i < n && Passed(i, h, 0, y + 1) :: Passed(i, h, w, y)
  {
    forall i: nat | i < n && Passed(i, h, 0, y + 1)
      ensures Passed(i, h, w, y)
    {
      PartsOf(i, h, w);
    }
  }

  lemma AllPassed(h: nat, n: nat)
    requires h > 0
    ensures forall i: nat | i < n :: Passed(i, h, 0, h)
  {
  }
}
