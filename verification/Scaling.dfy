/** Fixed-point scaling of images (apps/image.h). */
module Scaling {
  import opened Words
  import opened Raster

  const ONE: nat := 0x1_0000

  /** `((s - 1) << 16) / (d > 1 ? d - 1 : 1)` */
  function Ratio(s: nat, d: nat): nat
    requires s > 0
  {
    (s - 1) * ONE / (if d > 1 then d - 1 else 1)
  }

  /** The whole and the fractional part of a source position. */
  function Whole(s: nat, d: nat, x: nat): nat
    requires s > 0
  {
    x * Ratio(s, d) / ONE
  }

  function Fraction(s: nat, d: nat, x: nat): (f: nat)
    requires s > 0
    ensures f < ONE
  {
    x * Ratio(s, d) % ONE
  }

  /** The shifted extent stays inside an `int` exactly for sides up to 32768. */
  lemma ExtentFits(s: nat)
    requires s > 0
    ensures (s - 1) * ONE < 0x8000_0000 <==> s <= 32768
  {
  }

  lemma Position(s: nat, d: nat, x: nat)
    requires s > 0 && d > 1 && x < d
    ensures x * Ratio(s, d) <= (s - 1) * ONE
  {
    var r := Ratio(s, d);
    MulMono(x, d - 1, r);
    assert (d - 1) * r <= (s - 1) * ONE;
  }

  /**
    * Every source position is in range, and it has no fractional part where the next pixel is missing,
    * so that the pixel used in its stead has weight zero.
    */
  lemma InRange(s: nat, d: nat, x: nat)
    requires s > 0 && d > 1 && x < d
    ensures Whole(s, d, x) < s
    ensures Whole(s, d, x) + 1 >= s ==> Fraction(s, d, x) == 0
  {
    Position(s, d, x);
  }

  /** The place of target `x`, as a whole and a fractional part: it lags behind the exact one, `x * (s - 1) / (d - 1)`,
      by less than one 65536th of a pixel for each column. */
  ghost predicate Placed(s: nat, d: nat, x: nat, whole: nat, frac: nat) {
    whole < s && frac < ONE && 0 <= x * ((s - 1) * ONE) - (whole * ONE + frac) * (d - 1) <= x * (d - 2)
  }

  lemma Accuracy(s: nat, d: nat, x: nat)
    requires s > 0 && d > 1 && x < d
    ensures Placed(s, d, x, Whole(s, d, x), Fraction(s, d, x))
  {
    InRange(s, d, x);
    Remainders(x, (s - 1) * ONE, d - 1);
    assert x * Ratio(s, d) == Whole(s, d, x) * ONE + Fraction(s, d, x);
  }

  lemma Remainders(x: nat, n: nat, m: nat)
    requires m > 0
    ensures 0 <= x * n - x * (n / m) * m <= x * (m - 1)
  {
    var q, rest := n / m, n % m;
    assert n == q * m + rest;
    MulMono(0, rest, x);
    MulMono(rest, m - 1, x);
    assert x * (q * m + rest) == x * (q * m) + x * rest;
    assert x * (q * m) == x * q * m;
  }

  // ---------- interpolation ----------

  /** One interpolation step, in 16-bit fixed point. */
  function Mix(a: nat, b: nat, f: nat): (c: nat)
    requires f < ONE
  {
    MulMono(0, a, ONE - f);
    MulMono(0, b, f);
    (a * (ONE - f) + b * f) / ONE
  }

  function Low(a: nat, b: nat): nat { if a < b then a else b }

  function High(a: nat, b: nat): nat { if a < b then b else a }

  /** Interpolation stays between its two values, and inside 32 bits. */
  lemma MixBetween(a: nat, b: nat, f: nat)
    requires f < ONE && a < 256 && b < 256
    ensures Low(a, b) <= Mix(a, b, f) <= High(a, b) < 256
    ensures a * (ONE - f) + b * f < 0x1_0000_0000
    ensures f == 0 ==> Mix(a, b, f) == a
  {
    var lo, hi := Low(a, b), High(a, b);
    MulMono(lo, a, ONE - f);
    MulMono(lo, b, f);
    MulMono(a, hi, ONE - f);
    MulMono(b, hi, f);
    assert lo * (ONE - f) + lo * f == lo * ONE;
    assert hi * (ONE - f) + hi * f == hi * ONE;
  }

  /** Two steps along x, one along y. */
  function Blend(c00: nat, c01: nat, c10: nat, c11: nat, fx: nat, fy: nat): nat
    requires fx < ONE && fy < ONE
  {
    Mix(Mix(c00, c01, fx), Mix(c10, c11, fx), fy)
  }

  lemma BlendBetween(c00: nat, c01: nat, c10: nat, c11: nat, fx: nat, fy: nat)
    requires fx < ONE && fy < ONE && c00 < 256 && c01 < 256 && c10 < 256 && c11 < 256
    ensures Low(Low(c00, c01), Low(c10, c11)) <= Blend(c00, c01, c10, c11, fx, fy)
    ensures Blend(c00, c01, c10, c11, fx, fy) <= High(High(c00, c01), High(c10, c11)) < 256
    ensures Mix(c00, c01, fx) < 256 && Mix(c10, c11, fx) < 256
  {
    hide Mix;
    MixBetween(c00, c01, fx);
    MixBetween(c10, c11, fx);
    MixBetween(Mix(c00, c01, fx), Mix(c10, c11, fx), fy);
  }

  /** `c` is the weighted mean of four values, rounded down twice: at most the mean, and less than 2 below it. */
  ghost predicate RoundedMean(c: nat, c00: nat, c01: nat, c10: nat, c11: nat, fx: nat, fy: nat)
    requires fx < ONE && fy < ONE
  {
    var sum := (ONE - fx) * (ONE - fy) * c00 + fx * (ONE - fy) * c01 + (ONE - fx) * fy * c10 + fx * fy * c11;
    c * ONE * ONE <= sum < (c + 2) * ONE * ONE
  }

  lemma BlendRounds(c00: nat, c01: nat, c10: nat, c11: nat, fx: nat, fy: nat)
    requires fx < ONE && fy < ONE && c00 < 256 && c01 < 256 && c10 < 256 && c11 < 256
    ensures RoundedMean(Blend(c00, c01, c10, c11, fx, fy), c00, c01, c10, c11, fx, fy)
  {
    MixRounds(c00, c01, fx);
    MixRounds(c10, c11, fx);
    MixRounds(Mix(c00, c01, fx), Mix(c10, c11, fx), fy);
    MeanBounds(Mix(c00, c01, fx), c00 * (ONE - fx) + c01 * fx, Mix(c10, c11, fx), c10 * (ONE - fx) + c11 * fx, fy,
               Blend(c00, c01, c10, c11, fx, fy));
    Distributed(c00, c01, c10, c11, fx, fy);
  }

  lemma MixRounds(a: nat, b: nat, f: nat)
    requires f < ONE
    ensures Mix(a, b, f) * ONE <= a * (ONE - f) + b * f < Mix(a, b, f) * ONE + ONE
  {
  }

  lemma MeanBounds(t: nat, top: int, b: nat, bottom: int, f: nat, c: nat)
    requires f < ONE && t * ONE <= top < t * ONE + ONE && b * ONE <= bottom < b * ONE + ONE
    requires c * ONE <= t * (ONE - f) + b * f < c * ONE + ONE
    ensures c * ONE * ONE <= top * (ONE - f) + bottom * f < (c + 2) * ONE * ONE
  {
    PartBounds(t, top, ONE - f);
    PartBounds(b, bottom, f);
  }

  lemma PartBounds(t: nat, top: int, f: nat)
    requires t * ONE <= top < t * ONE + ONE
    ensures t * f * ONE <= top * f <= t * f * ONE + (ONE - 1) * f
  {
    var rest := top - t * ONE;
    assert top * f == t * f * ONE + rest * f;
    MulMono(0, rest, f);
    MulMono(rest, ONE - 1, f);
  }

  lemma Distributed(c00: nat, c01: nat, c10: nat, c11: nat, fx: nat, fy: nat)
    requires fx < ONE && fy < ONE
    ensures (ONE - fx) * (ONE - fy) * c00 + fx * (ONE - fy) * c01 + (ONE - fx) * fy * c10 + fx * fy * c11 ==
            (c00 * (ONE - fx) + c01 * fx) * (ONE - fy) + (c10 * (ONE - fx) + c11 * fx) * fy
  {
    var u, v := ONE - fx, ONE - fy;
    assert u * v * c00 == c00 * u * v && fx * v * c01 == c01 * fx * v;
    assert u * fy * c10 == c10 * u * fy && fx * fy * c11 == c11 * fx * fy;
  }

  /** All four channels at once. */
  function BlendPixel(p00: Pixel, p01: Pixel, p10: Pixel, p11: Pixel, fx: nat, fy: nat): Pixel
    requires fx < ONE && fy < ONE
  {
    BlendBetween(A(p00), A(p01), A(p10), A(p11), fx, fy);
    BlendBetween(R(p00), R(p01), R(p10), R(p11), fx, fy);
    BlendBetween(G(p00), G(p01), G(p10), G(p11), fx, fy);
    BlendBetween(B(p00), B(p01), B(p10), B(p11), fx, fy);
    Pack(Blend(A(p00), A(p01), A(p10), A(p11), fx, fy), Blend(R(p00), R(p01), R(p10), R(p11), fx, fy),
         Blend(G(p00), G(p01), G(p10), G(p11), fx, fy), Blend(B(p00), B(p01), B(p10), B(p11), fx, fy))
  }

  /** A neighbour with its coordinates held inside the image. */
  function Clamped(img: Image, x: nat, y: nat): Pixel
    requires Complete(img)
  {
    At(img, Low(x, img.width - 1), Low(y, img.height - 1))
  }

  /** The reference: bilinear interpolation between the four clamped neighbours. */
  function Bilinear(img: Image, dw: nat, dh: nat, x: nat, y: nat): Pixel
    requires Complete(img)
  {
    var sx, sy := Whole(img.width, dw, x), Whole(img.height, dh, y);
    BlendPixel(Clamped(img, sx, sy), Clamped(img, sx + 1, sy), Clamped(img, sx, sy + 1), Clamped(img, sx + 1, sy + 1),
               Fraction(img.width, dw, x), Fraction(img.height, dh, y))
  }

  predicate Between(c: nat, c00: nat, c01: nat, c10: nat, c11: nat) {
    Low(Low(c00, c01), Low(c10, c11)) <= c <= High(High(c00, c01), High(c10, c11))
  }

  /** Every channel of a scaled pixel lies between the extremes of its four neighbours. */
  lemma BilinearBetween(img: Image, dw: nat, dh: nat, x: nat, y: nat)
    requires Complete(img)
    ensures var sx, sy := Whole(img.width, dw, x), Whole(img.height, dh, y);
            var p00, p01 := Clamped(img, sx, sy), Clamped(img, sx + 1, sy);
            var p10, p11 := Clamped(img, sx, sy + 1), Clamped(img, sx + 1, sy + 1);
            var p := Bilinear(img, dw, dh, x, y);
            && Between(A(p), A(p00), A(p01), A(p10), A(p11)) && Between(R(p), R(p00), R(p01), R(p10), R(p11))
            && Between(G(p), G(p00), G(p01), G(p10), G(p11)) && Between(B(p), B(p00), B(p01), B(p10), B(p11))
  {
    hide Whole, Fraction, Clamped, Blend, A, R, G, B, Pack;
    var sx, sy := Whole(img.width, dw, x), Whole(img.height, dh, y);
    var fx, fy := Fraction(img.width, dw, x), Fraction(img.height, dh, y);
    var p00, p01 := Clamped(img, sx, sy), Clamped(img, sx + 1, sy);
    var p10, p11 := Clamped(img, sx, sy + 1), Clamped(img, sx + 1, sy + 1);
    BlendBetween(A(p00), A(p01), A(p10), A(p11), fx, fy);
    BlendBetween(R(p00), R(p01), R(p10), R(p11), fx, fy);
    BlendBetween(G(p00), G(p01), G(p10), G(p11), fx, fy);
    BlendBetween(B(p00), B(p01), B(p10), B(p11), fx, fy);
    Unpack(Blend(A(p00), A(p01), A(p10), A(p11), fx, fy), Blend(R(p00), R(p01), R(p10), R(p11), fx, fy),
           Blend(G(p00), G(p01), G(p10), G(p11), fx, fy), Blend(B(p00), B(p01), B(p10), B(p11), fx, fy));
  }

  /** The pixel that stands for a missing neighbour has no influence. */
  lemma BlendIgnores(p00: Pixel, p01: Pixel, p10: Pixel, p11: Pixel, q01: Pixel, q10: Pixel, q11: Pixel, fx: nat,
                     fy: nat)
    requires fx < ONE && fy < ONE
    requires fx == 0 || (p01 == q01 && (fy == 0 || p11 == q11))
    requires fy == 0 || p10 == q10
    ensures BlendPixel(p00, p01, p10, p11, fx, fy) == BlendPixel(p00, q01, q10, q11, fx, fy)
  {
    hide A, R, G, B, Pack;
    BlendZero(A(p00), A(p01), A(p10), A(p11), A(q01), A(q10), A(q11), fx, fy);
    BlendZero(R(p00), R(p01), R(p10), R(p11), R(q01), R(q10), R(q11), fx, fy);
    BlendZero(G(p00), G(p01), G(p10), G(p11), G(q01), G(q10), G(q11), fx, fy);
    BlendZero(B(p00), B(p01), B(p10), B(p11), B(q01), B(q10), B(q11), fx, fy);
  }

  lemma BlendZero(c00: nat, c01: nat, c10: nat, c11: nat, d01: nat, d10: nat, d11: nat, fx: nat, fy: nat)
    requires fx < ONE && fy < ONE
    requires c00 < 256 && c01 < 256 && c10 < 256 && c11 < 256 && d01 < 256 && d10 < 256 && d11 < 256
    requires fx == 0 || (c01 == d01 && (fy == 0 || c11 == d11))
    requires fy == 0 || c10 == d10
    ensures Blend(c00, c01, c10, c11, fx, fy) == Blend(c00, d01, d10, d11, fx, fy)
  {
    hide Mix;
    MixBetween(c00, c01, fx);
    MixBetween(c00, d01, fx);
    MixBetween(c10, c11, fx);
    MixBetween(d10, d11, fx);
    MixBetween(Mix(c00, c01, fx), Mix(c10, c11, fx), fy);
    MixBetween(Mix(c00, d01, fx), Mix(d10, d11, fx), fy);
  }

  // ---------- whole images ----------

  /** The source column or row of a target column or row. */
  function NearestIndex(s: nat, d: nat, x: nat): (r: nat)
    requires s > 0 && x < d
    ensures Under(s, d, x, r)
  {
    NearestInRange(s, d, x);
    x * s / d
  }

  /** The source column or row that the start of target `x` lies in. */
  predicate Under(s: nat, d: nat, x: nat, r: nat) {
    r < s && r * d <= x * s < (r + 1) * d
  }

  lemma NearestInRange(s: nat, d: nat, x: nat)
    requires s > 0 && x < d
    ensures 0 <= x * s / d < s && 0 <= x * s <= (d - 1) * s
  {
    MulMono(0, x, s);
    MulMono(x, d - 1, s);
    assert x * s < d * s;
    if x * s / d >= s {
      MulMono(s, x * s / d, d);
    }
  }

  function NearestAt(img: Image, dw: nat, dh: nat, x: nat, y: nat): Pixel
    requires Complete(img) && x < dw && y < dh
  {
    At(img, NearestIndex(img.width, dw, x), NearestIndex(img.height, dh, y))
  }

  function NearestPixel(img: Image, dw: nat, dh: nat, i: nat): Pixel
    requires Complete(img) && dw > 0 && i < dw * dh
  {
    PartsOf(i, dw, dh);
    NearestAt(img, dw, dh, i % dw, i / dw)
  }

  function Nearest(img: Image, dw: nat, dh: nat): (out: Image)
    requires Complete(img) && dw > 0 && dh > 0
    ensures Complete(out)
  {
    Image(dw, dh, seq(dw * dh, i requires 0 <= i < dw * dh => NearestPixel(img, dw, dh, i)))
  }

  function BilinearPixel(img: Image, dw: nat, dh: nat, i: nat): Pixel
    requires Complete(img) && dw > 0 && i < dw * dh
  {
    Bilinear(img, dw, dh, i % dw, i / dw)
  }

  function Smooth(img: Image, dw: nat, dh: nat): (out: Image)
    requires Complete(img) && dw > 0 && dh > 0
    ensures Complete(out)
  {
    Image(dw, dh, seq(dw * dh, i requires 0 <= i < dw * dh => BilinearPixel(img, dw, dh, i)))
  }

  /** Tiny targets and strong reductions take the nearest pixel. */
  predicate Coarse(img: Image, dw: nat, dh: nat)
    requires dw > 0 && dh > 0
  {
    dw < 32 || dh < 32 || img.width / dw >= 3 || img.height / dh >= 3
  }

  function Scaled(img: Image, dw: nat, dh: nat): (out: Image)
    requires Complete(img) && dw > 0 && dh > 0
    ensures Complete(out) && out.width == dw && out.height == dh
  {
    if dw == img.width && dh == img.height then img else if Coarse(img, dw, dh) then Nearest(img, dw, dh)
    else Smooth(img, dw, dh)
  }

  /** Pixel `p` has in each channel the rounded mean of the pixels around a place, nearer ones with more weight. */
  ghost predicate Interpolated(img: Image, sx: nat, fx: nat, sy: nat, fy: nat, p: Pixel)
    requires Complete(img) && sx < img.width && sy < img.height && fx < ONE && fy < ONE
  {
    var tx, ty := Low(sx + 1, img.width - 1), Low(sy + 1, img.height - 1);
    var p00, p01, p10, p11 := At(img, sx, sy), At(img, tx, sy), At(img, sx, ty), At(img, tx, ty);
    && RoundedMean(A(p), A(p00), A(p01), A(p10), A(p11), fx, fy)
    && RoundedMean(R(p), R(p00), R(p01), R(p10), R(p11), fx, fy)
    && RoundedMean(G(p), G(p00), G(p01), G(p10), G(p11), fx, fy)
    && RoundedMean(B(p), B(p00), B(p01), B(p10), B(p11), fx, fy)
  }

  /**
    * What scaling means for one target pixel: at the same size it is the pixel itself; for small targets and for
    * reductions by three or more it is the source pixel under it; otherwise it is interpolated at its place.
    */
  ghost predicate Resampled(img: Image, dw: nat, dh: nat, x: nat, y: nat, p: Pixel)
    requires Complete(img) && x < dw && y < dh
  {
    if dw == img.width && dh == img.height then p == At(img, x, y)
    else if dw < 32 || dh < 32 || img.width >= 3 * dw || img.height >= 3 * dh then
      exists sx, sy :: Under(img.width, dw, x, sx) && Under(img.height, dh, y, sy) && p == At(img, sx, sy)
    else
      exists sx, fx, sy, fy ::
        Placed(img.width, dw, x, sx, fx) && Placed(img.height, dh, y, sy, fy) && Interpolated(img, sx, fx, sy, fy, p)
  }

  lemma ScaledPixel(img: Image, dw: nat, dh: nat, x: nat, y: nat)
    requires Complete(img) && x < dw && y < dh
    ensures Resampled(img, dw, dh, x, y, At(Scaled(img, dw, dh), x, y))
  {
    hide Whole, Fraction, Bilinear, NearestIndex, Placed, Under, Interpolated;
    IndexAt(x, y, dw, dh);
    IndexParts(x, y, dw);
    Reduction(img.width, dw);
    Reduction(img.height, dh);
    if dw == img.width && dh == img.height {
    } else if Coarse(img, dw, dh) {
      NearestMeans(img, dw, dh, x, y);
    } else {
      Accuracy(img.width, dw, x);
      Accuracy(img.height, dh, y);
      BilinearMeans(img, dw, dh, x, y);
    }
  }

  lemma Reduction(s: nat, d: nat)
    requires d > 0
    ensures s / d >= 3 <==> s >= 3 * d
  {
  }

  lemma NearestMeans(img: Image, dw: nat, dh: nat, x: nat, y: nat)
    requires Complete(img) && x < dw && y < dh
    ensures exists sx, sy ::
              Under(img.width, dw, x, sx) && Under(img.height, dh, y, sy)
              && NearestAt(img, dw, dh, x, y) == At(img, sx, sy)
  {
    hide NearestIndex;
    var sx, sy := NearestIndex(img.width, dw, x), NearestIndex(img.height, dh, y);
    assert Under(img.width, dw, x, sx) && Under(img.height, dh, y, sy);
  }

  lemma BilinearMeans(img: Image, dw: nat, dh: nat, x: nat, y: nat)
    requires Complete(img) && 1 < dw && 1 < dh && x < dw && y < dh
    ensures var sx, sy := Whole(img.width, dw, x), Whole(img.height, dh, y);
            && sx < img.width && sy < img.height
            && Interpolated(img, sx, Fraction(img.width, dw, x), sy, Fraction(img.height, dh, y),
                            Bilinear(img, dw, dh, x, y))
  {
    hide Whole, Fraction, At, Blend, RoundedMean, A, R, G, B, Pack;
    InRange(img.width, dw, x);
    InRange(img.height, dh, y);
    var sx, sy := Whole(img.width, dw, x), Whole(img.height, dh, y);
    BlendMeans(Clamped(img, sx, sy), Clamped(img, sx + 1, sy), Clamped(img, sx, sy + 1), Clamped(img, sx + 1, sy + 1),
               Fraction(img.width, dw, x), Fraction(img.height, dh, y));
  }

  lemma BlendMeans(p00: Pixel, p01: Pixel, p10: Pixel, p11: Pixel, fx: nat, fy: nat)
    requires fx < ONE && fy < ONE
    ensures var p := BlendPixel(p00, p01, p10, p11, fx, fy);
            && RoundedMean(A(p), A(p00), A(p01), A(p10), A(p11), fx, fy)
            && RoundedMean(R(p), R(p00), R(p01), R(p10), R(p11), fx, fy)
            && RoundedMean(G(p), G(p00), G(p01), G(p10), G(p11), fx, fy)
            && RoundedMean(B(p), B(p00), B(p01), B(p10), B(p11), fx, fy)
  {
    hide Blend, RoundedMean, A, R, G, B, Pack;
    BlendRounds(A(p00), A(p01), A(p10), A(p11), fx, fy);
    BlendRounds(R(p00), R(p01), R(p10), R(p11), fx, fy);
    BlendRounds(G(p00), G(p01), G(p10), G(p11), fx, fy);
    BlendRounds(B(p00), B(p01), B(p10), B(p11), fx, fy);
    BlendBetween(A(p00), A(p01), A(p10), A(p11), fx, fy);
    BlendBetween(R(p00), R(p01), R(p10), R(p11), fx, fy);
    BlendBetween(G(p00), G(p01), G(p10), G(p11), fx, fy);
    BlendBetween(B(p00), B(p01), B(p10), B(p11), fx, fy);
    Unpack(Blend(A(p00), A(p01), A(p10), A(p11), fx, fy), Blend(R(p00), R(p01), R(p10), R(p11), fx, fy),
           Blend(G(p00), G(p01), G(p10), G(p11), fx, fy), Blend(B(p00), B(p01), B(p10), B(p11), fx, fy));
  }

  /** An image of one colour stays that colour at every size. */
  lemma PlainStaysPlain(img: Image, dw: nat, dh: nat, p: Pixel)
    requires Complete(img) && dw > 0 && dh > 0 && forall q | q in img.pixels :: q == p
    ensures forall q | q in Scaled(img, dw, dh).pixels :: q == p
  {
    hide Nearest, Smooth, NearestPixel, BilinearPixel, Complete;
    forall i: nat | i < dw * dh
      ensures NearestPixel(img, dw, dh, i) == p && BilinearPixel(img, dw, dh, i) == p
    {
      PlainPixels(img, dw, dh, i, p);
    }
    PlainTables(img, dw, dh, p);
  }

  lemma PlainPixels(img: Image, dw: nat, dh: nat, i: nat, p: Pixel)
    requires Complete(img) && dw > 0 && i < dw * dh && forall q | q in img.pixels :: q == p
    ensures NearestPixel(img, dw, dh, i) == p && BilinearPixel(img, dw, dh, i) == p
  {
    hide Bilinear, At, NearestIndex;
    PartsOf(i, dw, dh);
    AtMember(img, NearestIndex(img.width, dw, i % dw), NearestIndex(img.height, dh, i / dw));
    PlainPixel(img, dw, dh, i % dw, i / dw, p);
  }

  lemma PlainTables(img: Image, dw: nat, dh: nat, p: Pixel)
    requires Complete(img) && dw > 0 && dh > 0
    requires forall i: nat | i < dw * dh :: NearestPixel(img, dw, dh, i) == p && BilinearPixel(img, dw, dh, i) == p
    ensures forall q | q in Nearest(img, dw, dh).pixels :: q == p
    ensures forall q | q in Smooth(img, dw, dh).pixels :: q == p
  {
    hide NearestPixel, BilinearPixel;
  }

  lemma PlainPixel(img: Image, dw: nat, dh: nat, x: nat, y: nat, p: Pixel)
    requires Complete(img) && forall q | q in img.pixels :: q == p
    ensures Bilinear(img, dw, dh, x, y) == p
  {
    hide Whole, Fraction, A, R, G, B, Pack, Between;
    var q := Bilinear(img, dw, dh, x, y);
    var sx, sy := Whole(img.width, dw, x), Whole(img.height, dh, y);
    PlainAt(img, sx, sy, p);
    PlainAt(img, sx + 1, sy, p);
    PlainAt(img, sx, sy + 1, p);
    PlainAt(img, sx + 1, sy + 1, p);
    BilinearBetween(img, dw, dh, x, y);
    Squeezed(A(q), A(p));
    Squeezed(R(q), R(p));
    Squeezed(G(q), G(p));
    Squeezed(B(q), B(p));
    Repack(p);
    Repack(q);
  }

  lemma Squeezed(c: nat, d: nat)
    requires Between(c, d, d, d, d)
    ensures c == d
  {
  }

  lemma AtMember(img: Image, x: nat, y: nat)
    requires Complete(img) && x < img.width && y < img.height
    ensures At(img, x, y) in img.pixels
  {
    InRaster(x, y, img.width, img.height);
  }

  lemma PlainAt(img: Image, x: nat, y: nat, p: Pixel)
    requires Complete(img) && forall q | q in img.pixels :: q == p
    ensures Clamped(img, x, y) == p
  {
    hide At;
    AtMember(img, Low(x, img.width - 1), Low(y, img.height - 1));
  }

  // ---------- the loops over buffers ----------

  /** Sizes whose pixel indices fit an `int`. */
  predicate Indexable(w: nat, h: nat) { w * h < 0x8000_0000 }

  /** `if (v >= n) v = n - 1;` */
  method Clip(v: Int32, n: Int32) returns (r: Int32)
    requires n > 0
    ensures r == if v >= n then n - 1 else v
  {
    r := v;
    if r >= n { r := n - 1; }
  }

  /** One row of `image_scale_nearest`, from the source row at `base` to the target row at `out`. */
  method NearestRow(src: array<Pixel>, base: Int32, sw: Int32, dst: array<Pixel>, out: Int32, dw: Int32)
    requires sw > 0 && dw > 0 && base >= 0 && out >= 0 && src != dst
    requires base + sw <= src.Length && out + dw <= dst.Length && out + dw < 0x8000_0000 && base + sw < 0x8000_0000
    requires (dw - 1) * sw < 0x8000_0000
    modifies dst
    ensures forall x: nat | x < dw :: dst[out + x] == src[base + NearestIndex(sw, dw, x)]
    ensures forall i | 0 <= i < dst.Length && !(out <= i < out + dw) :: dst[i] == old(dst[i])
  {
    var dx: Int32 := 0;
    while dx < dw
      invariant 0 <= dx <= dw
      invariant forall x: nat | x < dx :: dst[out + x] == src[base + NearestIndex(sw, dw, x)]
      invariant forall i | 0 <= i < dst.Length && !(out <= i < out + dx) :: dst[i] == old(dst[i])
    {
      NearestInRange(sw, dw, dx);
      var scaled: Int32 := dx * sw;
      var sx := Clip(scaled / dw, sw);
      dst[out + dx] := src[base + sx];
      dx := dx + 1;
    }
  }

  /** The row `dy` of `image_scale_nearest` */
  method NearestLine(src: array<Pixel>, sw: Int32, sh: Int32, dst: array<Pixel>, dw: Int32, dh: Int32, dy: Int32)
    requires src != dst && sw > 0 && sh > 0 && 0 < dw && 0 <= dy < dh
    requires src.Length == sw * sh && Indexable(sw, sh) && dst.Length == dw * dh && Indexable(dw, dh)
    requires (dw - 1) * sw < 0x8000_0000 && (dh - 1) * sh < 0x8000_0000
    modifies dst
    ensures 0 <= dy * dw <= dy * dw + dw <= dw * dh
    ensures forall i: nat | dy * dw <= i < dy * dw + dw :: dst[i] == NearestPixel(Image(sw, sh, src[..]), dw, dh, i)
    ensures forall i: nat | i < dst.Length && !(dy * dw <= i < dy * dw + dw) :: dst[i] == old(dst[i])
  {
    hide NearestIndex, NearestPixel;
    NearestInRange(sh, dh, dy);
    var scaled: Int32 := dy * sh;
    var sy := Clip(scaled / dh, sh);
    assert sy == NearestIndex(sh, dh, dy) by { NearestIndexIs(sh, dh, dy); }
    RowInRaster(sy, sw, sh);
    RowInRaster(dy, dw, dh);
    var base: Int32, out: Int32 := sy * sw, dy * dw;
    NearestRow(src, base, sw, dst, out, dw);
    NearestRowDone(Image(sw, sh, src[..]), dw, dh, dy, base, out, dst[..]);
  }

  lemma NearestIndexIs(s: nat, d: nat, x: nat)
    requires s > 0 && x < d
    ensures NearestIndex(s, d, x) == x * s / d
  {
  }

  /** `image_scale_nearest` */
  method ScaleNearest(src: array<Pixel>, sw: Int32, sh: Int32, dst: array<Pixel>, dw: Int32, dh: Int32)
    requires src != dst
    requires sw > 0 && sh > 0 ==> src.Length == sw * sh && Indexable(sw, sh)
    requires dw > 0 && dh > 0 ==> dst.Length == dw * dh && Indexable(dw, dh)
    requires sw > 0 && sh > 0 && dw > 0 && dh > 0 ==> (dw - 1) * sw < 0x8000_0000 && (dh - 1) * sh < 0x8000_0000
    modifies dst
    ensures sw <= 0 || sh <= 0 || dw <= 0 || dh <= 0 ==> dst[..] == old(dst[..])
    ensures sw > 0 && sh > 0 && dw > 0 && dh > 0 ==>
              Image(dw, dh, dst[..]) == Nearest(Image(sw, sh, src[..]), dw, dh)
  {
    hide NearestPixel;
    if sw <= 0 || sh <= 0 || dw <= 0 || dh <= 0 { return; }
    ghost var img, done: nat := Image(sw, sh, src[..]), 0;
    var dy: Int32 := 0;
    while dy < dh
      invariant 0 <= dy <= dh && src[..] == img.pixels && done == dy * dw <= dst.Length
      invariant forall i: nat | i < done :: dst[i] == NearestPixel(img, dw, dh, i)
    {
      RowInRaster(dy, dw, dh);
      NearestLine(src, sw, sh, dst, dw, dh, dy);
      done := done + dw;
      dy := dy + 1;
    }
  }

  lemma RowInRaster(y: nat, w: nat, h: nat)
    requires y < h
    ensures 0 <= y * w <= y * w + w == (y + 1) * w <= w * h
  {
    MulMono(0, y, w);
    MulMono(y + 1, h, w);
  }

  lemma NearestRowDone(img: Image, dw: nat, dh: nat, dy: nat, base: nat, out: nat, dst: seq<Pixel>)
    requires Complete(img) && dw > 0 && dy < dh && |dst| == dw * dh && out == dy * dw && out + dw <= |dst|
    requires base == NearestIndex(img.height, dh, dy) * img.width && base + img.width <= |img.pixels|
    requires forall x: nat | x < dw :: dst[out + x] == img.pixels[base + NearestIndex(img.width, dw, x)]
    ensures forall i: nat | out <= i < out + dw :: dst[i] == NearestPixel(img, dw, dh, i)
  {
    hide NearestIndex;
    forall i: nat | out <= i < out + dw
      ensures dst[i] == NearestPixel(img, dw, dh, i)
    {
      var x := i - out;
      IndexParts(x, dy, dw);
      assert dst[out + x] == dst[i];
    }
  }

  /** One channel, with every intermediate value in an unsigned 32-bit integer. */
  method Channel(c00: Pixel, c01: Pixel, c10: Pixel, c11: Pixel, fx: Int32, fy: Int32) returns (c: Pixel)
    requires 0 <= fx < ONE && 0 <= fy < ONE && c00 < 256 && c01 < 256 && c10 < 256 && c11 < 256
    ensures c == Blend(c00, c01, c10, c11, fx, fy) < 256
  {
    var fxInv: Int32, fyInv: Int32 := ONE - fx, ONE - fy;
    MixBetween(c00, c01, fx);
    MixBetween(c10, c11, fx);
    BlendBetween(c00, c01, c10, c11, fx, fy);
    var top: Pixel := MulAdd(c00, fxInv, c01, fx);
    var bottom: Pixel := MulAdd(c10, fxInv, c11, fx);
    MixBetween(top / ONE, bottom / ONE, fy);
    var both: Pixel := MulAdd(top / ONE, fyInv, bottom / ONE, fy);
    c := both / ONE;
  }

  function MulAdd(a: nat, f: nat, b: nat, g: nat): (s: nat)
    ensures s == a * f + b * g
  {
    MulMono(0, a, f);
    MulMono(0, b, g);
    a * f + b * g
  }

  /** The four neighbours of a source position blended; a missing one is replaced by the first. */
  method Sample(src: array<Pixel>, sw: Int32, sh: Int32, sx: Int32, sy: Int32, fx: Int32, fy: Int32) returns (p: Pixel)
    requires 0 <= sx < sw && 0 <= sy < sh && src.Length == sw * sh && Indexable(sw, sh)
    requires 0 <= fx < ONE && 0 <= fy < ONE && (sx + 1 >= sw ==> fx == 0) && (sy + 1 >= sh ==> fy == 0)
    ensures var img := Image(sw, sh, src[..]);
            p == BlendPixel(Clamped(img, sx, sy), Clamped(img, sx + 1, sy), Clamped(img, sx, sy + 1),
                            Clamped(img, sx + 1, sy + 1), fx, fy)
  {
    hide BlendPixel;
    ghost var img := Image(sw, sh, src[..]);
    var p00 := Fetch(src, sw, sh, sx, sy);
    var p01, p10, p11 := p00, p00, p00;
    if sx + 1 < sw { p01 := Fetch(src, sw, sh, sx + 1, sy); }
    if sy + 1 < sh { p10 := Fetch(src, sw, sh, sx, sy + 1); }
    if sx + 1 < sw && sy + 1 < sh { p11 := Fetch(src, sw, sh, sx + 1, sy + 1); }
    p := Mixed(p00, p01, p10, p11, fx, fy);
    BlendIgnores(p00, p01, p10, p11, Clamped(img, sx + 1, sy), Clamped(img, sx, sy + 1), Clamped(img, sx + 1,
                 sy + 1), fx, fy);
  }

  method Fetch(src: array<Pixel>, sw: Int32, sh: Int32, x: Int32, y: Int32) returns (p: Pixel)
    requires 0 <= x < sw && 0 <= y < sh && src.Length == sw * sh && Indexable(sw, sh)
    ensures p == At(Image(sw, sh, src[..]), x, y) == Clamped(Image(sw, sh, src[..]), x, y)
  {
    hide At, Indexable;
    IndexFits(x, y, sw, sh);
    var i: Int32 := y * sw + x;
    p := src[i];
    FetchedIs(Image(sw, sh, src[..]), x, y);
  }

  lemma IndexFits(x: nat, y: nat, w: nat, h: nat)
    requires x < w && y < h && Indexable(w, h)
    ensures 0 <= y * w + x < w * h < 0x8000_0000
  {
    InRaster(x, y, w, h);
  }

  lemma FetchedIs(img: Image, x: nat, y: nat)
    requires Complete(img) && x < img.width && y < img.height
    ensures 0 <= y * img.width + x < |img.pixels|
    ensures img.pixels[y * img.width + x] == At(img, x, y) == Clamped(img, x, y)
  {
    InRaster(x, y, img.width, img.height);
  }

  method Mixed(p00: Pixel, p01: Pixel, p10: Pixel, p11: Pixel, fx: Int32, fy: Int32) returns (p: Pixel)
    requires 0 <= fx < ONE && 0 <= fy < ONE
    ensures p == BlendPixel(p00, p01, p10, p11, fx, fy)
  {
    hide Blend, A, R, G, B;
    var a := Channel(A(p00), A(p01), A(p10), A(p11), fx, fy);
    var r := Channel(R(p00), R(p01), R(p10), R(p11), fx, fy);
    var g := Channel(G(p00), G(p01), G(p10), G(p11), fx, fy);
    var b := Channel(B(p00), B(p01), B(p10), B(p11), fx, fy);
    p := Pack(a, r, g, b);
  }

  /** The row `y` of the smooth path of `image_scale_bilinear` */
  method BilinearLine(src: array<Pixel>, sw: Int32, sh: Int32, dst: array<Pixel>, dw: Int32, dh: Int32,
                      xRatio: Int32, yRatio: Int32, y: Int32)
    requires src != dst && 0 < sw <= 32768 && 0 < sh <= 32768 && 1 < dw && 1 < dh && 0 <= y < dh
    requires src.Length == sw * sh && Indexable(sw, sh) && dst.Length == dw * dh && Indexable(dw, dh)
    requires xRatio == Ratio(sw, dw) && yRatio == Ratio(sh, dh)
    modifies dst
    ensures 0 <= y * dw <= y * dw + dw <= dw * dh
    ensures forall i: nat | y * dw <= i < y * dw + dw :: dst[i] == BilinearPixel(Image(sw, sh, src[..]), dw, dh, i)
    ensures forall i: nat | i < dst.Length && !(y * dw <= i < y * dw + dw) :: dst[i] == old(dst[i])
  {
    hide BilinearPixel, Ratio, BlendPixel, Clamped;
    ghost var img := Image(sw, sh, src[..]);
    Position(sh, dh, y);
    InRange(sh, dh, y);
    RowInRaster(y, dw, dh);
    MulMono(0, y, yRatio);
    var ty: Int32 := y * yRatio;
    var sy: Int32, fy: Int32, out: Int32 := ty / ONE, ty % ONE, y * dw;
    var x: Int32 := 0;
    while x < dw
      invariant 0 <= x <= dw && src[..] == img.pixels
      invariant forall i: nat | out <= i < out + x :: dst[i] == BilinearPixel(img, dw, dh, i)
      invariant forall i: nat | i < dst.Length && !(out <= i < out + x) :: dst[i] == old(dst[i])
    {
      Position(sw, dw, x);
      InRange(sw, dw, x);
      MulMono(0, x, xRatio);
      var tx: Int32 := x * xRatio;
      var p := Sample(src, sw, sh, tx / ONE, sy, tx % ONE, fy);
      dst[out + x] := p;
      BilinearPixelIs(img, dw, dh, x, y, out + x);
      x := x + 1;
    }
  }

  lemma BilinearPixelIs(img: Image, dw: nat, dh: nat, x: nat, y: nat, i: nat)
    requires Complete(img) && x < dw && y < dh && i == y * dw + x < dw * dh
    ensures BilinearPixel(img, dw, dh, i) == Bilinear(img, dw, dh, x, y)
  {
    IndexParts(x, y, dw);
  }

  /** The fixed-point products of the path taken stay inside an `int`. */
  predicate Computable(sw: nat, sh: nat, dw: nat, dh: nat)
    requires dw > 0 && dh > 0
  {
    || (dw == sw && dh == sh)
    || (if dw < 32 || dh < 32 || sw / dw >= 3 || sh / dh >= 3
        then (dw - 1) * sw < 0x8000_0000 && (dh - 1) * sh < 0x8000_0000
        else sw <= 32768 && sh <= 32768)
  }

  predicate IsInt(v: int) { -0x8000_0000 <= v < 0x8000_0000 }

  /** All products of positions and sides, or of positions and ratios, that the path taken computes are `int`s. */
  ghost predicate ProductsFit(sw: nat, sh: nat, dw: nat, dh: nat)
    requires sw > 0 && sh > 0 && dw > 0 && dh > 0
  {
    || (dw == sw && dh == sh)
    || (if dw < 32 || dh < 32 || sw / dw >= 3 || sh / dh >= 3 then
          (forall x: nat | x < dw :: IsInt(x * sw)) && (forall y: nat | y < dh :: IsInt(y * sh))
        else
          && IsInt((sw - 1) * ONE) && (forall x: nat | x < dw :: IsInt(x * Ratio(sw, dw)))
          && IsInt((sh - 1) * ONE) && (forall y: nat | y < dh :: IsInt(y * Ratio(sh, dh))))
  }

  /** The check on the sizes is exact. */
  lemma ComputableExact(sw: nat, sh: nat, dw: nat, dh: nat)
    requires sw > 0 && sh > 0 && dw > 0 && dh > 0
    ensures Computable(sw, sh, dw, dh) <==> ProductsFit(sw, sh, dw, dh)
  {
    hide Ratio, IsInt;
    AllProducts(sw, dw);
    AllProducts(sh, dh);
    ExtentFits(sw);
    ExtentFits(sh);
    assert IsInt((sw - 1) * ONE) <==> sw <= 32768 by { BelowLimit((sw - 1) * ONE); }
    assert IsInt((sh - 1) * ONE) <==> sh <= 32768 by { BelowLimit((sh - 1) * ONE); }
    assert IsInt((dw - 1) * sw) <==> (dw - 1) * sw < 0x8000_0000 by { BelowLimit((dw - 1) * sw); }
    assert IsInt((dh - 1) * sh) <==> (dh - 1) * sh < 0x8000_0000 by { BelowLimit((dh - 1) * sh); }
    if dw >= 32 && dh >= 32 {
      AllPositions(sw, dw);
      AllPositions(sh, dh);
    }
  }

  lemma BelowLimit(v: nat)
    ensures IsInt(v) <==> v < 0x8000_0000
  {
  }

  lemma AllProducts(s: nat, d: nat)
    requires d > 0
    ensures 0 <= (d - 1) * s
    ensures (forall x: nat | x < d :: 0 <= x * s && IsInt(x * s)) <==> IsInt((d - 1) * s)
  {
    MulMono(0, d - 1, s);
    forall x: nat | x < d
      ensures 0 <= x * s <= (d - 1) * s
    {
      MulMono(x, d - 1, s);
    }
  }

  lemma AllPositions(s: nat, d: nat)
    requires s > 0 && d > 1
    ensures IsInt((s - 1) * ONE) ==> forall x: nat | x < d :: 0 <= x * Ratio(s, d) && IsInt(x * Ratio(s, d))
  {
    forall x: nat | x < d
      ensures 0 <= x * Ratio(s, d) <= (s - 1) * ONE
    {
      MulMono(0, x, Ratio(s, d));
      Position(s, d, x);
    }
  }

  /** `image_scale_bilinear` */
  method ScaleBilinear(src: array<Pixel>, sw: Int32, sh: Int32, dst: array<Pixel>, dw: Int32, dh: Int32)
    requires src != dst
    requires sw > 0 && sh > 0 ==> src.Length == sw * sh && Indexable(sw, sh)
    requires dw > 0 && dh > 0 ==> dst.Length == dw * dh && Indexable(dw, dh)
    requires sw > 0 && sh > 0 && dw > 0 && dh > 0 ==> Computable(sw, sh, dw, dh)
    modifies dst
    ensures sw <= 0 || sh <= 0 || dw <= 0 || dh <= 0 ==> dst[..] == old(dst[..])
    ensures sw > 0 && sh > 0 && dw > 0 && dh > 0 ==>
              Image(dw, dh, dst[..]) == Scaled(Image(sw, sh, src[..]), dw, dh)
    ensures sw > 0 && sh > 0 && dw > 0 && dh > 0 ==>
              forall x: nat, y: nat | x < dw && y < dh ::
                Resampled(Image(sw, sh, src[..]), dw, dh, x, y, At(Image(dw, dh, dst[..]), x, y))
  {
    hide BilinearPixel, NearestPixel, Resampled, At;
    if sw <= 0 || sh <= 0 || dw <= 0 || dh <= 0 { return; }
    ghost var img := Image(sw, sh, src[..]);
    forall x: nat, y: nat | x < dw && y < dh
      ensures Resampled(img, dw, dh, x, y, At(Scaled(img, dw, dh), x, y))
    {
      ScaledPixel(img, dw, dh, x, y);
    }
    if dw == sw && dh == sh {
      CopyPixels(src, dst);
      return;
    }
    if dw < 32 || dh < 32 || sw / dw >= 3 || sh / dh >= 3 {
      ScaleNearest(src, sw, sh, dst, dw, dh);
      return;
    }
    SmoothLines(src, sw, sh, dst, dw, dh);
  }

  method CopyPixels(src: array<Pixel>, dst: array<Pixel>)
    requires src != dst && src.Length == dst.Length
    modifies dst
    ensures dst[..] == src[..]
  {
    for i := 0 to src.Length
      invariant dst[..i] == src[..i]
    {
      dst[i] := src[i];
    }
  }

  method SmoothLines(src: array<Pixel>, sw: Int32, sh: Int32, dst: array<Pixel>, dw: Int32, dh: Int32)
    requires src != dst && 0 < sw <= 32768 && 0 < sh <= 32768 && 32 <= dw && 32 <= dh
    requires src.Length == sw * sh && Indexable(sw, sh) && dst.Length == dw * dh && Indexable(dw, dh)
    modifies dst
    ensures Image(dw, dh, dst[..]) == Smooth(Image(sw, sh, src[..]), dw, dh)
  {
    hide BilinearPixel;
    ExtentFits(sw);
    ExtentFits(sh);
    var xRatio, yRatio := RatioOf(sw, dw), RatioOf(sh, dh);
    ghost var img, done: nat := Image(sw, sh, src[..]), 0;
    var y: Int32 := 0;
    while y < dh
      invariant 0 <= y <= dh && src[..] == img.pixels && done == y * dw <= dst.Length
      invariant forall i: nat | i < done :: dst[i] == BilinearPixel(img, dw, dh, i)
    {
      RowInRaster(y, dw, dh);
      BilinearLine(src, sw, sh, dst, dw, dh, xRatio, yRatio, y);
      done := done + dw;
      y := y + 1;
    }
  }

  /** The ratio as an `int`. */
  function RatioOf(s: Int32, d: Int32): (r: Int32)
    requires 0 < s <= 32768 && d > 0
    ensures r == Ratio(s, d)
  {
    var extent: Int32 := (s - 1) * ONE;
    extent / (if d > 1 then d - 1 else 1)
  }
}
