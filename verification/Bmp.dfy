/** The uncompressed bitmap encoder and decoder (apps/image.h). */
module Bmp {
  import opened Options
  import opened Words
  import opened Bytes
  import opened Raster

  const HEADER: nat := 54
  const MAX_SIDE: int := 4096

  // ---------- encoding ----------

  /** The negative height marks rows from the top. */
  function Header(w: nat, h: nat): (s: seq<Byte>)
    requires w < 0x8000_0000 && 0 < h < 0x8000_0000
    ensures |s| == HEADER
  {
    Preamble(w, h) + Encode(1, 2) + Encode(32, 2) + Encode(0, 4) +
    Encode(w * h * 4 % U32, 4) + Encode(2835, 4) + Encode(2835, 4) + Encode(0, 4) + Encode(0, 4)
  }

  function Preamble(w: nat, h: nat): (s: seq<Byte>)
    requires w < 0x8000_0000 && 0 < h < 0x8000_0000
    ensures |s| == 26
  {
    [66, 77] + Encode((HEADER + w * h * 4) % U32, 4) + Encode(0, 2) + Encode(0, 2) + Encode(HEADER, 4) +
    Encode(40, 4) + Encode(w, 4) + Encode(U32 - h, 4)
  }

  function PixelBytes(ps: seq<Pixel>): (s: seq<Byte>)
    ensures |s| == 4 * |ps|
  {
    if |ps| == 0 then [] else PixelBytes(ps[..|ps| - 1]) + Encode(ps[|ps| - 1], 4)
  }

  ghost predicate Encodable(img: Image) { Complete(img) && img.width < 0x8000_0000 && img.height < 0x8000_0000 }

  function Encoded(img: Image): seq<Byte>
    requires Encodable(img)
  {
    Header(img.width, img.height) + PixelBytes(img.pixels)
  }

  // ---------- decoding ----------

  function Field(data: seq<Byte>, o: nat, n: nat): (v: nat)
    requires o + n <= |data|
    ensures n == 4 ==> v < U32
  {
    if n == 4 then FourByteField(data, o); Decode(data[o..o + n]) else Decode(data[o..o + n])
  }

  /** Four bytes, least significant first. */
  function Little(a: nat, b: nat, c: nat, d: nat): (v: nat)
    ensures a < 256 && b < 256 && c < 256 && d < 256 ==> v < U32
  {
    a + 256 * (b + 256 * (c + 256 * d))
  }

  lemma FourByteField(data: seq<Byte>, o: nat)
    requires o + 4 <= |data|
    ensures Decode(data[o..o + 4]) == Little(data[o], data[o + 1], data[o + 2], data[o + 3])
  {
    var s1, s2, s3 := data[o + 1..o + 4], data[o + 2..o + 4], data[o + 3..o + 4];
    assert data[o..o + 4][1..] == s1 && s1[1..] == s2 && s2[1..] == s3 && s3[1..] == [];
    assert Decode(s3) == data[o + 3];
    assert Decode(s2) == s2[0] + 256 * Decode(s3);
    assert Decode(s1) == s1[0] + 256 * Decode(s2);
  }

  /** Two's complement. */
  function Signed(v: nat): int { if v < 0x8000_0000 then v else v - U32 }

  datatype Format = Format(offset: nat, width: nat, height: nat, topDown: bool, depth: nat) {
    ghost predicate Valid() {
      offset < U32 && 0 < width <= MAX_SIDE && 0 < height <= MAX_SIDE && (depth == 3 || depth == 4)
    }

    /** Rows are padded to multiples of four bytes. */
    function RowBytes(): (n: nat)
      ensures width * depth <= n < width * depth + 4
    {
      MulMono(0, width, depth);
      (width * depth + 3) / 4 * 4
    }

    function SourceRow(y: nat): (r: nat)
      requires y < height
      ensures r < height
    {
      if topDown then y else height - 1 - y
    }

    /** The index at which the bytes of a row begin, and the one at which they end. */
    function RowStart(y: nat): nat
      requires y < height
    {
      MulMono(0, SourceRow(y), RowBytes());
      offset + SourceRow(y) * RowBytes()
    }

    function RowEnd(y: nat): (e: nat)
      requires y < height
    {
      RowStart(y) + RowBytes()
    }

    /** The check that the decoder makes, in 32-bit arithmetic. */
    predicate RowPresent(y: nat, len: nat)
      requires y < height
    {
      RowEnd(y) % U32 <= len
    }

    /** What the check is meant to say. */
    predicate RowInFile(y: nat, len: nat)
      requires y < height
    {
      RowEnd(y) <= len
    }

    /** The rows that are read, from row `y` on: all up to the first that fails the check. */
    function RowsRead(y: nat, len: nat): (n: nat)
      requires y <= height
      ensures y <= n <= height && forall k: nat | y <= k < n :: RowPresent(k, len)
      ensures n == height || !RowPresent(n, len)
      decreases height - y
    {
      if y == height || !RowPresent(y, len) then y else RowsRead(y + 1, len)
    }
  }

  /** The header checks, in the order of the decoder. */
  function ParseHeader(data: seq<Byte>): (f: Option<Format>)
    ensures f.Some? ==> f.value.Valid()
  {
    if |data| < HEADER || data[0] != 66 || data[1] != 77 then None
    else
      var offset, w, h := Field(data, 10, 4), Signed(Field(data, 18, 4)), Signed(Field(data, 22, 4));
      var bpp, comp := Field(data, 28, 2), Field(data, 30, 4);
      if comp != 0 && comp != 3 then None
      else if bpp != 24 && bpp != 32 then None
      else if w <= 0 || w > MAX_SIDE || h == 0 || h > MAX_SIDE || h < -MAX_SIDE then None
      else Some(Format(offset, w, if h < 0 then -h else h, h < 0, bpp / 8))
  }

  /** The byte that an index reads: addresses wrap, and what lies past the end of the file is not the file's. */
  function Peek(data: seq<Byte>, outside: nat -> Byte, o: nat): Byte {
    if o % U32 < |data| then data[o % U32] else outside(o % U32)
  }

  function Position(f: Format, x: nat, y: nat): nat
    requires x < f.width && y < f.height
  {
    MulMono(0, x, f.depth);
    f.RowStart(y) + x * f.depth
  }

  function PixelAt(f: Format, data: seq<Byte>, outside: nat -> Byte, x: nat, y: nat): Pixel
    requires x < f.width && y < f.height
  {
    var o := Position(f, x, y);
    var b, g, r := Peek(data, outside, o), Peek(data, outside, o + 1), Peek(data, outside, o + 2);
    Pack(if f.depth == 4 then Peek(data, outside, o + 3) else 255, r, g, b)
  }

  /** The bytes of a pixel lie inside its row, and the last ones at most three bytes of padding before its end. */
  lemma PixelInRow(f: Format, x: nat, y: nat)
    requires x < f.width && y < f.height
    ensures f.RowStart(y) <= Position(f, x, y) && Position(f, x, y) + f.depth <= f.RowEnd(y)
    ensures x == f.width - 1 ==> f.RowEnd(y) < Position(f, x, y) + f.depth + 4
  {
    MulMono(x + 1, f.width, f.depth);
    MulMono(0, x, f.depth);
    assert (x + 1) * f.depth == x * f.depth + f.depth;
  }

  /** The pixel buffer after the copy loop; rows missing from the file keep what the memory held. */
  function Pixels(f: Format, data: seq<Byte>, outside: nat -> Byte, junk: seq<Pixel>): (ps: seq<Pixel>)
    requires f.Valid() && |junk| == f.width * f.height
    ensures |ps| == f.width * f.height
  {
    seq(|junk|, i requires 0 <= i < |junk| => PixelOf(f, data, outside, junk, i))
  }

  function PixelOf(f: Format, data: seq<Byte>, outside: nat -> Byte, junk: seq<Pixel>, i: nat): Pixel
    requires f.Valid() && |junk| == f.width * f.height && i < |junk|
  {
    PixelOr(f, data, outside, ColumnOf(i, f.width), RowOf(i, f.width, f.height), junk[i])
  }

  function PixelOr(f: Format, data: seq<Byte>, outside: nat -> Byte, x: nat, y: nat, junk: Pixel): Pixel
    requires f.Valid() && x < f.width && y < f.height
  {
    if y < f.RowsRead(0, |data|) then PixelAt(f, data, outside, x, y) else junk
  }

  predicate HasAlpha(ps: seq<Pixel>) { exists p | p in ps :: A(p) != 0 }

  /** `p | 0xFF000000` */
  function WithAlpha(p: Pixel): Pixel { Pack(255, R(p), G(p), B(p)) }

  /** A picture without any alpha is made opaque. */
  function Opaque(ps: seq<Pixel>): (qs: seq<Pixel>)
    ensures |qs| == |ps|
  {
    if HasAlpha(ps) then ps else seq(|ps|, i requires 0 <= i < |ps| => WithAlpha(ps[i]))
  }

  datatype Bitmap = Bitmap(image: Image, channels: nat)

  /** The pixel buffer has the size that the header asks for. */
  predicate Sized(data: seq<Byte>, junk: seq<Pixel>) {
    var f := ParseHeader(data);
    f.Some? ==> |junk| == f.value.width * f.value.height
  }

  function DecodeBmp(data: seq<Byte>, outside: nat -> Byte, junk: seq<Pixel>): Option<Bitmap>
    requires Sized(data, junk)
  {
    match ParseHeader(data)
    case None => None
    case Some(f) =>
      var ps := Pixels(f, data, outside, junk);
      Some(Bitmap(Image(f.width, f.height, if f.depth == 4 then Opaque(ps) else ps), f.depth))
  }

  // ---------- round trip ----------

  lemma {:induction false} PixelBytesAt(ps: seq<Pixel>, i: nat)
    requires i < |ps|
    ensures PixelBytes(ps)[4 * i..4 * i + 4] == Encode(ps[i], 4)
    decreases |ps|
  {
    var rest := ps[..|ps| - 1];
    if i < |ps| - 1 {
      PixelBytesAt(rest, i);
      assert PixelBytes(ps)[4 * i..4 * i + 4] == PixelBytes(rest)[4 * i..4 * i + 4];
    }
  }

  /** Four bytes in little-endian order are the channels from blue to alpha. */
  lemma FourBytes(p: Pixel)
    ensures Encode(p, 4) == [B(p), G(p), R(p), A(p)]
  {
    var e3 := Encode(p / 256 / 256 / 256, 1);
    assert e3 == [p / 256 / 256 / 256 % 256] + Encode(p / 256 / 256 / 256 / 256, 0);
    var e2 := Encode(p / 256 / 256, 2);
    assert e2 == [p / 256 / 256 % 256] + e3;
    var e1 := Encode(p / 256, 3);
    assert e1 == [p / 256 % 256] + e2;
    assert p / 256 / 256 == p / 0x1_0000 && p / 256 / 256 / 256 == p / 0x100_0000;
  }

  lemma FieldOf(d: seq<Byte>, pre: seq<Byte>, v: nat, n: nat)
    requires FitsIn(v, n) && pre + Encode(v, n) <= d
    ensures Field(d, |pre|, n) == v
  {
    DecodeEncode(v, n);
    assert d[|pre|..|pre| + n] == (pre + Encode(v, n))[|pre|..];
  }

  lemma SmallFits(v: nat, n: nat)
    requires v < 256 && n > 0
    ensures FitsIn(v, n)
  {
    ZeroFits(n - 1);
  }

  lemma {:induction false} ZeroFits(n: nat)
    ensures FitsIn(0, n)
  {
    if n > 0 { ZeroFits(n - 1); }
  }

  lemma PreambleFields(w: nat, h: nat, d: seq<Byte>)
    requires w < 0x8000_0000 && 0 < h < 0x8000_0000 && Preamble(w, h) <= d
    ensures d[0] == 66 && d[1] == 77 && Field(d, 10, 4) == HEADER && Field(d, 18, 4) == w && Field(d, 22, 4) == U32 - h
  {
    hide Encode, Field, FitsIn;
    var p10 := [66, 77] + Encode((HEADER + w * h * 4) % U32, 4) + Encode(0, 2) + Encode(0, 2);
    var p14 := p10 + Encode(HEADER, 4);
    var p18 := p14 + Encode(40, 4);
    var p22 := p18 + Encode(w, 4);
    var p26 := p22 + Encode(U32 - h, 4);
    assert p26 == Preamble(w, h);
    assert p10[0] == 66 && p10[1] == 77;
    SmallFits(HEADER, 4);
    U32Fits(w);
    U32Fits(U32 - h);
    FieldOf(d, p10, HEADER, 4);
    FieldOf(d, p18, w, 4);
    FieldOf(d, p22, U32 - h, 4);
  }

  lemma HeaderFields(w: nat, h: nat, d: seq<Byte>)
    requires w < 0x8000_0000 && 0 < h < 0x8000_0000 && Header(w, h) <= d
    ensures Preamble(w, h) <= d && Field(d, 28, 2) == 32 && Field(d, 30, 4) == 0
  {
    hide Encode, Field, FitsIn, Preamble;
    var p26 := Preamble(w, h);
    var p28 := p26 + Encode(1, 2);
    var p30 := p28 + Encode(32, 2);
    var p34 := p30 + Encode(0, 4);
    var rest := Encode(w * h * 4 % U32, 4) + Encode(2835, 4) + Encode(2835, 4) + Encode(0, 4) + Encode(0, 4);
    assert Header(w, h) == p34 + rest;
    SmallFits(32, 2);
    SmallFits(0, 4);
    FieldOf(d, p28, 32, 2);
    FieldOf(d, p30, 0, 4);
  }

  /** The fields that the decoder does not read: the size of the file and of the raster, the size of the second header,
      one plane, and 2835 pixels per metre. */
  lemma UnreadFields(img: Image)
    requires Encodable(img)
    ensures var d := Encoded(img);
            && |d| == HEADER + 4 * |img.pixels|
            && Field(d, 2, 4) == |d| % U32 && Field(d, 34, 4) == (|d| - HEADER) % U32
            && Field(d, 14, 4) == 40 && Field(d, 26, 2) == 1 && Field(d, 38, 4) == 2835 && Field(d, 42, 4) == 2835
            && Field(d, 6, 4) == 0 && Field(d, 46, 4) == 0 && Field(d, 50, 4) == 0
  {
    hide Encode, Field, FitsIn, PixelBytes;
    var d, w, h := Encoded(img), img.width, img.height;
    assert |d| == HEADER + 4 * |img.pixels| && 4 * |img.pixels| == w * h * 4;
    FrontFields(w, h, d);
    BackFields(w, h, d);
  }

  lemma FrontFields(w: nat, h: nat, d: seq<Byte>)
    requires w < 0x8000_0000 && 0 < h < 0x8000_0000 && Preamble(w, h) <= d
    ensures Field(d, 2, 4) == (HEADER + w * h * 4) % U32 && Field(d, 6, 4) == 0 && Field(d, 14, 4) == 40
  {
    hide Encode, Field, FitsIn;
    var p2: seq<Byte> := [66, 77];
    var p6 := p2 + Encode((HEADER + w * h * 4) % U32, 4);
    var p8 := p6 + Encode(0, 2);
    var p10 := p8 + Encode(0, 2);
    var p14 := p10 + Encode(HEADER, 4);
    assert Preamble(w, h) == p14 + Encode(40, 4) + Encode(w, 4) + Encode(U32 - h, 4);
    U32Fits((HEADER + w * h * 4) % U32);
    SmallFits(0, 2);
    SmallFits(40, 4);
    FieldOf(d, p2, (HEADER + w * h * 4) % U32, 4);
    FieldOf(d, p6, 0, 2);
    FieldOf(d, p8, 0, 2);
    TwoHalves(d, 6);
    FieldOf(d, p14, 40, 4);
  }

  lemma TwoHalves(d: seq<Byte>, o: nat)
    requires o + 4 <= |d| && Field(d, o, 2) == 0 && Field(d, o + 2, 2) == 0
    ensures Field(d, o, 4) == 0
  {
    FourByteField(d, o);
    TwoByteField(d, o);
    TwoByteField(d, o + 2);
  }

  lemma TwoByteField(data: seq<Byte>, o: nat)
    requires o + 2 <= |data|
    ensures Decode(data[o..o + 2]) == Little(data[o], data[o + 1], 0, 0)
  {
    assert data[o..o + 2][1..] == data[o + 1..o + 2] && data[o + 1..o + 2][1..] == [];
    assert Decode(data[o + 1..o + 2]) == data[o + 1];
  }

  lemma BackFields(w: nat, h: nat, d: seq<Byte>)
    requires w < 0x8000_0000 && 0 < h < 0x8000_0000 && Header(w, h) <= d
    ensures Field(d, 26, 2) == 1 && Field(d, 34, 4) == w * h * 4 % U32 && Field(d, 38, 4) == 2835
    ensures Field(d, 42, 4) == 2835 && Field(d, 46, 4) == 0 && Field(d, 50, 4) == 0
  {
    hide Encode, Field, FitsIn, Preamble;
    var p26 := Preamble(w, h);
    var p34 := p26 + Encode(1, 2) + Encode(32, 2) + Encode(0, 4);
    var p38 := p34 + Encode(w * h * 4 % U32, 4);
    var p42 := p38 + Encode(2835, 4);
    var p46 := p42 + Encode(2835, 4);
    var p50 := p46 + Encode(0, 4);
    assert Header(w, h) == p50 + Encode(0, 4);
    SmallFits(1, 2);
    SmallFits(0, 4);
    U32Fits(2835);
    U32Fits(w * h * 4 % U32);
    FieldOf(d, p26, 1, 2);
    FieldOf(d, p34, w * h * 4 % U32, 4);
    FieldOf(d, p38, 2835, 4);
    FieldOf(d, p42, 2835, 4);
    FieldOf(d, p46, 0, 4);
    FieldOf(d, p50, 0, 4);
  }

  /** The decoder reads the encoder's header as what was encoded, exactly up to 4096 by 4096. */
  lemma EncodedFormat(img: Image)
    requires Encodable(img)
    ensures ParseHeader(Encoded(img)) ==
            (if img.width <= MAX_SIDE && img.height <= MAX_SIDE
             then Some(Format(HEADER, img.width, img.height, true, 4)) else None)
  {
    hide Field, Preamble, Header;
    HeaderFields(img.width, img.height, Encoded(img));
    PreambleFields(img.width, img.height, Encoded(img));
  }

  /** What a header announces, as bytes with the least significant first and negative numbers in two's complement. */
  ghost predicate Announces(data: seq<Byte>, offset: nat, w: int, h: int, bits: nat, comp: nat) {
    && |data| >= 54 && data[0] as int == 'B' as int && data[1] as int == 'M' as int
    && -0x8000_0000 <= w < 0x8000_0000 && -0x8000_0000 <= h < 0x8000_0000
    && offset == Little(data[10], data[11], data[12], data[13])
    && (if w < 0 then w + U32 else w) == Little(data[18], data[19], data[20], data[21])
    && (if h < 0 then h + U32 else h) == Little(data[22], data[23], data[24], data[25])
    && bits == Little(data[28], data[29], 0, 0) && comp == Little(data[30], data[31], data[32], data[33])
  }

  /** The decoder accepts exactly uncompressed pictures of 24 or 32 bits, up to 4096 by 4096, and takes a negative
      height for rows from the top. */
  lemma HeaderExact(data: seq<Byte>, offset: nat, w: int, h: int, bits: nat, comp: nat)
    requires Announces(data, offset, w, h, bits, comp)
    ensures ParseHeader(data) ==
            if comp in {0, 3} && bits in {24, 32} && 1 <= w <= 4096 && h != 0 && -4096 <= h <= 4096
            then Some(Format(offset, w, if h > 0 then h else -h, h < 0, bits / 8)) else None
  {
    hide Little;
    FourByteField(data, 10);
    FourByteField(data, 18);
    FourByteField(data, 22);
    TwoByteField(data, 28);
    FourByteField(data, 30);
  }

  lemma AllRowsPresent(f: Format, y: nat, len: nat)
    requires y <= f.height && f.topDown && f.depth == 4 && f.offset + f.width * f.height * 4 <= len < U32
    ensures f.RowsRead(y, len) == f.height
    decreases f.height - y
  {
    if y < f.height {
      RowFits(f, y);
      AllRowsPresent(f, y + 1, len);
    }
  }

  lemma RowFits(f: Format, y: nat)
    requires y < f.height && f.topDown && f.depth == 4
    ensures f.RowBytes() == 4 * f.width && f.RowStart(y) == f.offset + 4 * (y * f.width)
    ensures f.RowEnd(y) <= f.offset + f.width * f.height * 4
  {
    assert y * (4 * f.width) == 4 * (y * f.width);
    MulMono(y + 1, f.height, f.width);
    assert (y + 1) * f.width == y * f.width + f.width;
  }

  /** Files of up to 4096 by 4096 pixels stay far below 4 GiB. */
  lemma SmallFile(w: nat, h: nat)
    requires w <= MAX_SIDE && h <= MAX_SIDE
    ensures HEADER + w * h * 4 < U32
  {
    MulMono(w, 4096, h);
  }

  lemma EncodedPixel(img: Image, i: nat)
    requires Encodable(img) && i < |img.pixels|
    ensures var d, o, p := Encoded(img), HEADER + 4 * i, img.pixels[i];
            && |d| == HEADER + 4 * |img.pixels|
            && d[o] == B(p) && d[o + 1] == G(p) && d[o + 2] == R(p) && d[o + 3] == A(p)
  {
    hide Header, PixelBytes, A, R, G, B, Encode;
    var d, p, bytes := Encoded(img), img.pixels[i], PixelBytes(img.pixels);
    PixelBytesAt(img.pixels, i);
    FourBytes(p);
    forall k | 0 <= k < 4
      ensures d[HEADER + 4 * i + k] == [B(p), G(p), R(p), A(p)][k]
    {
      assert d[HEADER + 4 * i + k] == bytes[4 * i + k] == bytes[4 * i..4 * i + 4][k];
    }
  }

  lemma PixelThere(img: Image, f: Format, outside: nat -> Byte, x: nat, y: nat)
    requires Encodable(img) && f == Format(HEADER, img.width, img.height, true, 4) && x < f.width && y < f.height
    requires img.width <= MAX_SIDE && img.height <= MAX_SIDE
    ensures PixelAt(f, Encoded(img), outside, x, y) == At(img, x, y)
  {
    hide Encoded, A, R, G, B, Pack, Peek;
    InRaster(x, y, f.width, f.height);
    EncodedPixel(img, y * f.width + x);
    RowFits(f, y);
    SmallFile(f.width, f.height);
    var d, o := Encoded(img), HEADER + 4 * (y * f.width + x);
    InFile(d, outside, o);
    InFile(d, outside, o + 1);
    InFile(d, outside, o + 2);
    InFile(d, outside, o + 3);
    Repack(img.pixels[y * f.width + x]);
  }

  lemma InFile(data: seq<Byte>, outside: nat -> Byte, o: nat)
    requires o < |data| < U32
    ensures Peek(data, outside, o) == data[o]
  {
  }

  lemma DecodedPixel(img: Image, f: Format, outside: nat -> Byte, i: nat, junk: Pixel)
    requires Encodable(img) && i < |img.pixels| && f == Format(HEADER, img.width, img.height, true, 4) && f.Valid()
    ensures PixelOr(f, Encoded(img), outside, ColumnOf(i, f.width), RowOf(i, f.width, f.height), junk) == img.pixels[i]
  {
    hide Encoded, PixelAt;
    var x, y := ColumnOf(i, f.width), RowOf(i, f.width, f.height);
    EncodedPixel(img, i);
    SmallFile(f.width, f.height);
    AllRowsPresent(f, 0, |Encoded(img)|);
    PixelThere(img, f, outside, x, y);
    PartsOf(i, f.width, f.height);
  }

  /**
    * Decoding an encoded image gives its size and its pixels back, made opaque if none had alpha, whatever the
    * pixel buffer held before and whatever surrounds the file; images beyond 4096 by 4096 are encoded but refused.
    */
  lemma RoundTrip(img: Image, outside: nat -> Byte, junk: seq<Pixel>)
    requires Encodable(img) && |junk| == |img.pixels|
    ensures Sized(Encoded(img), junk)
    ensures DecodeBmp(Encoded(img), outside, junk) ==
            (if img.width <= MAX_SIDE && img.height <= MAX_SIDE
             then Some(Bitmap(img.(pixels := Opaque(img.pixels)), 4)) else None)
  {
    hide ParseHeader, Encoded, Opaque, PixelOr, PixelOf;
    EncodedFormat(img);
    if img.width <= MAX_SIDE && img.height <= MAX_SIDE {
      DecodedPixels(img, Format(HEADER, img.width, img.height, true, 4), outside, junk);
    }
  }

  lemma DecodedPixels(img: Image, f: Format, outside: nat -> Byte, junk: seq<Pixel>)
    requires Encodable(img) && f == Format(HEADER, img.width, img.height, true, 4) && f.Valid()
    requires |junk| == |img.pixels|
    ensures Pixels(f, Encoded(img), outside, junk) == img.pixels
  {
    hide Encoded, PixelOr;
    forall i: nat | i < |junk|
      ensures PixelOf(f, Encoded(img), outside, junk, i) == img.pixels[i]
    {
      DecodedPixel(img, f, outside, i, junk[i]);
    }
  }

  // ---------- rows that pass the check without being in the file ----------

  /** A row that passes the check is in the file if and only if its end is below 4 GiB. */
  lemma PassingRow(f: Format, y: nat, len: nat)
    requires y < f.height && f.RowPresent(y, len) && len < U32
    ensures f.RowInFile(y, len) <==> f.RowEnd(y) < U32
  {
  }

  /** Every row that the decoder reads is in the file. */
  ghost predicate Contained(f: Format, len: nat) {
    forall y: nat | y < f.height && y < f.RowsRead(0, len) :: f.RowInFile(y, len)
  }

  /** Rows that fit behind the offset, counted in the order of the file. */
  function Fitting(f: Format, len: nat): nat
    requires f.Valid() && f.offset <= len
  {
    SomeBytes(f);
    Whole(len - f.offset, f.RowBytes())
  }

  function Whole(n: nat, b: nat): (q: nat)
    requires b > 0
    ensures q * b <= n < q * b + b
  {
    n / b
  }

  lemma SomeBytes(f: Format)
    requires f.Valid()
    ensures 3 <= f.RowBytes() <= 4 * MAX_SIDE
  {
    MulMono(1, f.width, f.depth);
    MulMono(f.width, 4096, f.depth);
  }

  /**
    * What a caller can check on the header and the length: the end of the row that is read first does not wrap into
    * the file, and no row behind those that fit in the file wraps either.
    */
  predicate Guard(f: Format, len: nat)
    requires f.Valid()
  {
    var e := f.RowEnd(0);
    if e >= U32 then e - U32 > len
    else f.topDown && e <= len && Fitting(f, len) < f.height ==> f.RowEnd(Fitting(f, len)) < U32
  }

  /** The check is exact. */
  lemma GuardExact(f: Format, len: nat)
    requires f.Valid() && len < U32
    ensures Contained(f, len) <==> Guard(f, len)
  {
    hide Guard, Fitting;
    var e := f.RowEnd(0);
    RowsBelow(f, 0);
    if e >= U32 || e > len {
      FirstRow(f, len);
    } else if !f.topDown {
      BottomUp(f, len);
    } else {
      TopDown(f, len);
    }
  }

  lemma RowsBelow(f: Format, y: nat)
    requires f.Valid() && y < f.height
    ensures f.RowEnd(y) < U32 + f.height * f.RowBytes() <= U32 + 0x400_0000
  {
    SomeBytes(f);
    MulMono(f.SourceRow(y) + 1, f.height, f.RowBytes());
    MulMono(f.height, 4096, f.RowBytes());
    assert (f.SourceRow(y) + 1) * f.RowBytes() == f.SourceRow(y) * f.RowBytes() + f.RowBytes();
  }

  /** The case in which the first row fails the check, or passes it only by wrapping. */
  lemma FirstRow(f: Format, len: nat)
    requires f.Valid() && len < U32 && (f.RowEnd(0) >= U32 || f.RowEnd(0) > len)
    ensures Contained(f, len) <==> Guard(f, len)
  {
    hide Fitting;
    RowsBelow(f, 0);
    var e := f.RowEnd(0);
    WrappedEnd(e, len);
    if f.RowPresent(0, len) {
      assert f.RowsRead(0, len) > 0 && !f.RowInFile(0, len);
    } else {
      assert f.RowsRead(0, len) == 0;
    }
  }

  lemma WrappedEnd(e: nat, len: nat)
    requires e < 2 * U32 && len < U32
    ensures e % U32 <= len <==> if e < U32 then e <= len else e - U32 <= len
  {
  }

  lemma BottomUp(f: Format, len: nat)
    requires f.Valid() && len < U32 && !f.topDown && f.RowEnd(0) <= len
    ensures Contained(f, len) && Guard(f, len)
  {
    forall y: nat | y < f.height
      ensures f.RowInFile(y, len)
    {
      MulMono(f.SourceRow(y), f.SourceRow(0), f.RowBytes());
    }
  }

  /** The rows that fit, and the first that does not. */
  lemma FittingRows(f: Format, len: nat)
    requires f.Valid() && f.topDown && f.offset <= len
    ensures forall y: nat | y < f.height && y < Fitting(f, len) :: f.RowInFile(y, len)
    ensures Fitting(f, len) < f.height ==> f.RowStart(Fitting(f, len)) <= len < f.RowEnd(Fitting(f, len))
  {
    SomeBytes(f);
    var b, k := f.RowBytes(), Fitting(f, len);
    forall y: nat | y < f.height && y < k
      ensures f.RowInFile(y, len)
    {
      MulMono(y + 1, k, b);
      assert (y + 1) * b == y * b + b;
    }
  }

  lemma TopDown(f: Format, len: nat)
    requires f.Valid() && len < U32 && f.topDown && f.RowEnd(0) <= len
    ensures Contained(f, len) <==> Guard(f, len)
  {
    hide Fitting;
    var k := Fitting(f, len);
    FittingRows(f, len);
    SomeBytes(f);
    if k < f.height {
      AtRow(f, k, len);
    }
  }

  /** The first row behind those that fit. */
  lemma AtRow(f: Format, k: nat, len: nat)
    requires f.Valid() && k < f.height && f.RowStart(k) <= len < f.RowEnd(k) && len < U32
    requires f.RowBytes() <= len && forall y: nat | y < k :: f.RowInFile(y, len)
    ensures f.RowEnd(k) >= U32 ==> f.RowsRead(0, len) > k && !f.RowInFile(k, len)
    ensures f.RowEnd(k) < U32 ==> f.RowsRead(0, len) == k
  {
    WrappedEnd(f.RowEnd(k), len);
    if f.RowEnd(k) < U32 {
      PresentRows(f, k, len);
      RowsReadIs(f, 0, k, len);
    } else {
      PresentRows(f, k, len);
      ReadBeyond(f, 0, k, len);
    }
  }

  lemma PresentRows(f: Format, k: nat, len: nat)
    requires k < f.height && len < U32 && forall y: nat | y < k :: f.RowInFile(y, len)
    ensures forall y: nat | y < k :: f.RowPresent(y, len)
  {
    forall y: nat | y < k
      ensures f.RowPresent(y, len)
    {
      assert f.RowInFile(y, len);
    }
  }

  lemma ReadBeyond(f: Format, y: nat, k: nat, len: nat)
    requires y <= k < f.height && forall j: nat | j <= k :: f.RowPresent(j, len)
    ensures f.RowsRead(y, len) > k
    decreases k - y
  {
    if y < k { ReadBeyond(f, y + 1, k, len); }
  }

  /** With that check no byte outside the file matters. */
  lemma OutsideIgnored(data: seq<Byte>, outside: nat -> Byte, other: nat -> Byte, junk: seq<Pixel>)
    requires Sized(data, junk) && |data| < U32
    requires ParseHeader(data).Some? ==> Guard(ParseHeader(data).value, |data|)
    ensures DecodeBmp(data, outside, junk) == DecodeBmp(data, other, junk)
  {
    hide Guard, ParseHeader, Opaque;
    if ParseHeader(data).Some? {
      var f := ParseHeader(data).value;
      GuardExact(f, |data|);
      SamePixels(f, data, outside, other, junk);
    }
  }

  lemma SamePixels(f: Format, data: seq<Byte>, outside: nat -> Byte, other: nat -> Byte, junk: seq<Pixel>)
    requires f.Valid() && |junk| == f.width * f.height && Contained(f, |data|) && |data| < U32
    ensures Pixels(f, data, outside, junk) == Pixels(f, data, other, junk)
  {
    hide PixelAt, RowOf, ColumnOf;
    forall i: nat | i < |junk|
      ensures PixelOf(f, data, outside, junk, i) == PixelOf(f, data, other, junk, i)
    {
      var x, y := ColumnOf(i, f.width), RowOf(i, f.width, f.height);
      if y < f.RowsRead(0, |data|) {
        SamePixel(f, data, outside, other, x, y);
      }
    }
  }

  lemma SamePixel(f: Format, data: seq<Byte>, outside: nat -> Byte, other: nat -> Byte, x: nat, y: nat)
    requires f.Valid() && x < f.width && y < f.height && f.RowInFile(y, |data|) && |data| < U32
    ensures PixelAt(f, data, outside, x, y) == PixelAt(f, data, other, x, y)
  {
    hide Pack, Position, Peek;
    PixelInRow(f, x, y);
    var o := Position(f, x, y);
    SameByte(data, outside, other, o);
    SameByte(data, outside, other, o + 1);
    SameByte(data, outside, other, o + 2);
    if f.depth == 4 {
      SameByte(data, outside, other, o + 3);
    }
  }

  lemma SameByte(data: seq<Byte>, outside: nat -> Byte, other: nat -> Byte, o: nat)
    requires o < |data| < U32
    ensures Peek(data, outside, o) == Peek(data, other, o)
  {
    InFile(data, outside, o);
    InFile(data, other, o);
  }

  /** Without it some byte past the end of the file does. */
  lemma OutsideSeen(data: seq<Byte>, junk: seq<Pixel>)
    requires Sized(data, junk) && |data| + 8 <= U32
    requires ParseHeader(data).Some? && !Guard(ParseHeader(data).value, |data|)
    ensures DecodeBmp(data, _ => 1, junk) != DecodeBmp(data, _ => 2, junk)
  {
    hide Guard, ParseHeader, DecodeBmp, Pixels, Contained, B;
    var f := ParseHeader(data).value;
    GuardExact(f, |data|);
    var i := ForeignPixel(f, data, junk);
    DecodedBlue(data, _ => 1, junk, i);
    DecodedBlue(data, _ => 2, junk, i);
  }

  lemma BlueKept(ps: seq<Pixel>, i: nat)
    requires i < |ps|
    ensures B(Opaque(ps)[i]) == B(ps[i])
  {
    hide A, R, G, B, Pack;
    Unpack(255, R(ps[i]), G(ps[i]), B(ps[i]));
  }

  lemma KeptAlpha(ps: seq<Pixel>, i: nat)
    requires i < |ps| && A(ps[i]) != 0
    ensures Opaque(ps) == ps
  {
    assert ps[i] in ps;
  }

  /** A pixel whose blue byte is read past the end of the file. */
  lemma ForeignPixel(f: Format, data: seq<Byte>, junk: seq<Pixel>) returns (i: nat)
    requires f.Valid() && |junk| == f.width * f.height && |data| + 8 <= U32 && !Contained(f, |data|)
    ensures i < |junk|
    ensures B(Pixels(f, data, _ => 1, junk)[i]) != B(Pixels(f, data, _ => 2, junk)[i])
  {
    hide Position, PixelAt, Pixels, B, Format.RowBytes, Format.RowStart, Format.RowEnd, Format.SourceRow,
    Format.RowsRead;
    var y: nat :| y < f.height && y < f.RowsRead(0, |data|) && !f.RowInFile(y, |data|);
    PassingRow(f, y, |data|);
    var c := CrossingRow(f, y, |data|);
    FirstPosition(f, c);
    var x := ForeignColumn(f, c, 0, |data|);
    PixelRead(f, data, _ => 1, junk, x, c);
    PixelRead(f, data, _ => 2, junk, x, c);
    i := c * f.width + x;
    BlueByte(f, data, x, c, _ => 1);
    BlueByte(f, data, x, c, _ => 2);
  }

  /** Among the rows that are read one lies across the end of the addresses, if one ends behind it. */
  lemma CrossingRow(f: Format, y: nat, len: nat) returns (c: nat)
    requires f.Valid() && len < U32 && y < f.height && y < f.RowsRead(0, len) && f.RowEnd(y) >= U32
    ensures c < f.height && c < f.RowsRead(0, len) && f.RowStart(c) < U32 <= f.RowEnd(c)
    decreases f.SourceRow(y)
  {
    hide Format.RowBytes, Format.RowStart, Format.RowEnd, Format.SourceRow, Format.RowsRead;
    if f.RowStart(y) < U32 {
      return y;
    }
    RowBefore(f, y);
    if f.topDown {
      c := CrossingRow(f, y - 1, len);
    } else {
      EndAfterStart(f, y);
      PassesToo(f, y, y + 1, len);
      c := CrossingRow(f, y + 1, len);
    }
  }

  lemma EndAfterStart(f: Format, y: nat)
    requires f.Valid() && y < f.height
    ensures f.RowStart(y) <= f.RowEnd(y) < 2 * U32
  {
    hide Format.RowBytes, Format.RowStart;
    RowsBelow(f, y);
  }

  /** Among the ends that wrap, a smaller one passes the check if a larger one does. */
  lemma PassesToo(f: Format, y: nat, k: nat, len: nat)
    requires y < f.height && k < f.height && U32 <= f.RowEnd(k) <= f.RowEnd(y) < 2 * U32 && len < U32 && k <= y + 1
    requires y < f.RowsRead(0, len)
    ensures k < f.RowsRead(0, len)
  {
    hide Format.RowEnd, Format.RowsRead;
    assert f.RowPresent(y, len);
    WrappedEnd(f.RowEnd(y), len);
    WrappedEnd(f.RowEnd(k), len);
    assert f.RowPresent(k, len);
  }

  /** The row in front of a row, in the order of the file. */
  lemma RowBefore(f: Format, y: nat)
    requires f.Valid() && y < f.height && f.RowStart(y) >= U32
    ensures f.SourceRow(y) > 0 && var k := if f.topDown then y - 1 else y + 1;
            0 <= k < f.height && f.SourceRow(k) == f.SourceRow(y) - 1 && f.RowEnd(k) == f.RowStart(y)
  {
    hide Format.RowBytes;
    var b, n := f.RowBytes(), f.SourceRow(y);
    if n == 0 {
      MulZero(b);
    } else {
      OneRow(n, b);
    }
  }

  lemma MulZero(b: nat)
    ensures 0 * b == 0
  {
  }

  lemma OneRow(n: nat, b: nat)
    requires n > 0
    ensures n * b == (n - 1) * b + b
  {
  }

  /** A row starts with its first pixel. */
  lemma FirstPosition(f: Format, y: nat)
    requires 0 < f.width && y < f.height
    ensures Position(f, 0, y) == f.RowStart(y)
  {
    hide Format.RowStart;
  }

  /** A column of that row whose pixel starts behind the file and before the end of the addresses. */
  lemma ForeignColumn(f: Format, c: nat, x: nat, len: nat) returns (r: nat)
    requires f.Valid() && c < f.height && f.RowStart(c) < U32 <= f.RowEnd(c) && len + 8 <= U32
    requires x < f.width && Position(f, x, c) < U32
    ensures r < f.width && len <= Position(f, r, c) < U32
    decreases f.width - x
  {
    hide Position;
    if Position(f, x, c) >= len {
      return x;
    }
    PixelInRow(f, x, c);
    NextPosition(f, x, c);
    r := ForeignColumn(f, c, x + 1, len);
  }

  lemma NextPosition(f: Format, x: nat, y: nat)
    requires x < f.width && y < f.height
    ensures x + 1 < f.width ==> Position(f, x + 1, y) == Position(f, x, y) + f.depth
  {
    assert (x + 1) * f.depth == x * f.depth + f.depth;
  }

  lemma BlueByte(f: Format, data: seq<Byte>, x: nat, y: nat, outside: nat -> Byte)
    requires f.Valid() && x < f.width && y < f.height
    ensures B(PixelAt(f, data, outside, x, y)) == Peek(data, outside, Position(f, x, y))
  {
    hide Position, Pack, A, R, G, B, Peek;
    var o := Position(f, x, y);
    Unpack(if f.depth == 4 then Peek(data, outside, o + 3)
           else 255, Peek(data, outside, o + 2), Peek(data, outside, o + 1),
           Peek(data, outside, o));
  }

  // ---------- files that decide their picture ----------

  /** The picture is a function of the file: neither what lies around it nor what the pixel buffer held matters. */
  ghost predicate Decided(data: seq<Byte>) {
    forall outside: nat -> Byte, other: nat -> Byte, junk: seq<Pixel>, junk': seq<Pixel> |
      Sized(data, junk) && Sized(data, junk') :: DecodeBmp(data, outside, junk) == DecodeBmp(data, other, junk')
  }

  /** The check that would say so: all rows fit behind the offset, computed without wrapping. */
  predicate Covers(f: Format, len: nat) { f.offset + f.height * f.RowBytes() <= len }

  /** Exactly then all rows are read, each from inside the file. */
  lemma CoversExact(f: Format, len: nat)
    requires f.Valid() && len < U32
    ensures f.RowsRead(0, len) == f.height && Contained(f, len) <==> Covers(f, len)
  {
    hide Format.RowBytes, Format.RowsRead;
    if Covers(f, len) {
      forall y: nat | y < f.height
        ensures f.RowInFile(y, len) && f.RowPresent(y, len)
      {
        MulStep(f.SourceRow(y), f.height, f.RowBytes());
      }
      RowsReadIs(f, 0, f.height, len);
    } else if f.RowsRead(0, len) == f.height {
      var last := if f.topDown then f.height - 1 else 0;
      OneRow(f.height, f.RowBytes());
      assert !f.RowInFile(last, len);
    }
  }

  /** A file with a good header decides its picture if and only if its rows fit behind the offset. */
  lemma DecidedExact(data: seq<Byte>)
    requires |data| + 8 <= U32
    ensures Decided(data) <==> ParseHeader(data).None? || Covers(ParseHeader(data).value, |data|)
  {
    hide ParseHeader, DecodeBmp, Covers, Sized, Contained, Format.RowsRead;
    if ParseHeader(data).None? || Covers(ParseHeader(data).value, |data|) {
      forall outside: nat -> Byte, other: nat -> Byte, junk: seq<Pixel>, junk': seq<Pixel> |
        Sized(data, junk) && Sized(data, junk')
        ensures DecodeBmp(data, outside, junk) == DecodeBmp(data, other, junk')
      {
        CoveredFile(data, outside, other, junk, junk');
      }
    } else {
      var f := ParseHeader(data).value;
      CoversExact(f, |data|);
      var ones, twos := Uniform(f, 1), Uniform(f, 2);
      SizedFor(data, ones);
      SizedFor(data, twos);
      if Contained(f, |data|) {
        JunkSeen(data, _ => 0);
        assert DecodeBmp(data, _ => 0, ones) != DecodeBmp(data, _ => 0, twos);
      } else {
        if Guard(f, |data|) { GuardExact(f, |data|); }
        OutsideSeen(data, ones);
      }
    }
  }

  /** A pixel buffer that holds one value everywhere. */
  function Uniform(f: Format, p: Pixel): (ps: seq<Pixel>)
    requires f.Valid()
    ensures |ps| == f.width * f.height && forall q | q in ps :: q == p
  {
    MulMono(0, f.width, f.height);
    seq(f.width * f.height, _ => p)
  }

  lemma SizedFor(data: seq<Byte>, junk: seq<Pixel>)
    requires ParseHeader(data).Some? && |junk| == ParseHeader(data).value.width * ParseHeader(data).value.height
    ensures Sized(data, junk)
  {
    hide ParseHeader;
  }

  lemma CoveredFile(data: seq<Byte>, outside: nat -> Byte, other: nat -> Byte, junk: seq<Pixel>, junk': seq<Pixel>)
    requires Sized(data, junk) && Sized(data, junk') && |data| < U32
    requires ParseHeader(data).Some? ==> Covers(ParseHeader(data).value, |data|)
    ensures DecodeBmp(data, outside, junk) == DecodeBmp(data, other, junk')
  {
    hide ParseHeader, Opaque, Covers, Contained, Format.RowsRead, Pixels;
    if ParseHeader(data).Some? {
      var f := ParseHeader(data).value;
      CoversExact(f, |data|);
      SamePixels(f, data, outside, other, junk);
      AllRead(f, data, other, junk, junk');
    }
  }

  /** When all rows are read nothing of the buffer is left. */
  lemma AllRead(f: Format, data: seq<Byte>, outside: nat -> Byte, junk: seq<Pixel>, junk': seq<Pixel>)
    requires f.Valid() && |junk| == |junk'| == f.width * f.height && f.RowsRead(0, |data|) == f.height
    ensures Pixels(f, data, outside, junk) == Pixels(f, data, outside, junk')
  {
    hide PixelAt, RowOf, ColumnOf, Format.RowsRead;
    assert forall i: nat | i < |junk| :: PixelOf(f, data, outside, junk, i) == PixelOf(f, data, outside, junk', i);
  }

  /** When some row is not read the picture shows what the buffer held. */
  lemma JunkSeen(data: seq<Byte>, outside: nat -> Byte)
    requires ParseHeader(data).Some?
    requires var f := ParseHeader(data).value; f.RowsRead(0, |data|) < f.height
    ensures var f := ParseHeader(data).value;
            && Sized(data, Uniform(f, 1)) && Sized(data, Uniform(f, 2))
            && DecodeBmp(data, outside, Uniform(f, 1)) != DecodeBmp(data, outside, Uniform(f, 2))
  {
    hide ParseHeader, DecodeBmp, Sized, Pixels, Uniform, B, Format.RowsRead;
    var f := ParseHeader(data).value;
    SizedFor(data, Uniform(f, 1));
    SizedFor(data, Uniform(f, 2));
    var i := UnreadIndex(f, f.RowsRead(0, |data|));
    DecodedBlue(data, outside, Uniform(f, 1), i);
    DecodedBlue(data, outside, Uniform(f, 2), i);
    KeptUniform(f, data, outside, 1, i);
    KeptUniform(f, data, outside, 2, i);
    assert B(1) == 1 && B(2) == 2 by { SmallBlue(); }
  }

  lemma SmallBlue()
    ensures B(1) == 1 && B(2) == 2
  {
  }

  /** The index of the first pixel of row `y`. */
  lemma UnreadIndex(f: Format, y: nat) returns (i: nat)
    requires f.Valid() && y < f.height
    ensures i < f.width * f.height && RowOf(i, f.width, f.height) == y
  {
    hide RowOf;
    IndexAt(0, y, f.width, f.height);
    i := y * f.width + 0;
  }

  lemma KeptUniform(f: Format, data: seq<Byte>, outside: nat -> Byte, p: Pixel, i: nat)
    requires f.Valid() && i < f.width * f.height && f.RowsRead(0, |data|) <= RowOf(i, f.width, f.height)
    ensures |Uniform(f, p)| == f.width * f.height && Pixels(f, data, outside, Uniform(f, p))[i] == p
  {
    hide PixelAt, RowOf, ColumnOf, Format.RowsRead, Uniform;
    var junk := Uniform(f, p);
    assert Pixels(f, data, outside, junk)[i] == PixelOf(f, data, outside, junk, i) == junk[i];
    assert junk[i] in junk;
  }

  lemma DecodedBlue(data: seq<Byte>, outside: nat -> Byte, junk: seq<Pixel>, i: nat)
    requires Sized(data, junk) && ParseHeader(data).Some? && i < |junk|
    ensures var d, ps := DecodeBmp(data, outside, junk), Pixels(ParseHeader(data).value, data, outside, junk);
            d.Some? && i < |d.value.image.pixels| && B(d.value.image.pixels[i]) == B(ps[i])
  {
    hide ParseHeader, Opaque, Pixels, B;
    BlueKept(Pixels(ParseHeader(data).value, data, outside, junk), i);
  }

  /** An encoded picture of one pixel that ends behind its header. */
  lemma CutFile(p: Pixel, outside: nat -> Byte)
    ensures var d, f := Encoded(Image(1, 1, [p]))[..HEADER], Format(HEADER, 1, 1, true, 4);
            && |d| == HEADER && ParseHeader(d) == Some(f) && Guard(f, |d|) && !Covers(f, |d|)
            && Sized(d, [0x0100_0001]) && Sized(d, [0x0100_0002])
            && DecodeBmp(d, outside, [0x0100_0001]) == Some(Bitmap(Image(1, 1, [0x0100_0001]), 4))
            && DecodeBmp(d, outside, [0x0100_0002]) == Some(Bitmap(Image(1, 1, [0x0100_0002]), 4))
  {
    hide ParseHeader, Opaque, Pixels, Guard, Encoded;
    CutHeader(p);
    var d, f := Encoded(Image(1, 1, [p]))[..HEADER], Format(HEADER, 1, 1, true, 4);
    NoRowRead(f);
    CutPixel(d, f, outside, 0x0100_0001);
    CutPixel(d, f, outside, 0x0100_0002);
  }

  lemma CutHeader(p: Pixel)
    ensures Encodable(Image(1, 1, [p])) && |Encoded(Image(1, 1, [p]))| == HEADER + 4
    ensures ParseHeader(Encoded(Image(1, 1, [p]))[..HEADER]) == Some(Format(HEADER, 1, 1, true, 4))
  {
    hide Field, Preamble, Header, PixelBytes;
    var img := Image(1, 1, [p]);
    var d := Encoded(img)[..HEADER];
    assert d == Header(1, 1);
    HeaderFields(1, 1, d);
    PreambleFields(1, 1, d);
  }

  lemma NoRowRead(f: Format)
    requires f == Format(HEADER, 1, 1, true, 4)
    ensures f.RowsRead(0, HEADER) == 0 && Guard(f, HEADER) && !Covers(f, HEADER)
  {
    assert f.RowBytes() == 4;
  }

  lemma CutPixel(d: seq<Byte>, f: Format, outside: nat -> Byte, q: Pixel)
    requires f == Format(HEADER, 1, 1, true, 4) && |d| == HEADER && f.RowsRead(0, HEADER) == 0 && A(q) != 0
    ensures Opaque(Pixels(f, d, outside, [q])) == [q]
  {
    hide PixelAt, A;
    assert PixelOf(f, d, outside, [q], 0) == q;
    KeptAlpha([q], 0);
  }

  lemma PixelRead(f: Format, data: seq<Byte>, outside: nat -> Byte, junk: seq<Pixel>, x: nat, y: nat)
    requires f.Valid() && |junk| == f.width * f.height && x < f.width && y < f.height && y < f.RowsRead(0, |data|)
    ensures 0 <= y * f.width + x < |junk|
    ensures Pixels(f, data, outside, junk)[y * f.width + x] == PixelAt(f, data, outside, x, y)
  {
    hide PixelAt, RowOf, ColumnOf, PixelOr;
    IndexAt(x, y, f.width, f.height);
    var i := y * f.width + x;
    assert Pixels(f, data, outside, junk)[i] == PixelOf(f, data, outside, junk, i);
    assert PixelOf(f, data, outside, junk, i) == PixelOr(f, data, outside, x, y, junk[i]);
    ReadPixelIs(f, data, outside, x, y, junk[i]);
  }

  lemma ReadPixelIs(f: Format, data: seq<Byte>, outside: nat -> Byte, x: nat, y: nat, junk: Pixel)
    requires f.Valid() && x < f.width && y < f.height && y < f.RowsRead(0, |data|)
    ensures PixelOr(f, data, outside, x, y, junk) == PixelAt(f, data, outside, x, y)
  {
    hide PixelAt;
  }

  // ---------- files as the format lays them out ----------

  /** The bytes of a pixel: blue, green, red and, with four bytes, alpha. */
  predicate Stored(data: seq<Byte>, o: nat, p: Pixel, depth: nat) {
    && o + depth <= |data| && depth >= 3 && data[o] == B(p) && data[o + 1] == G(p) && data[o + 2] == R(p)
    && if depth == 4 then data[o + 3] == A(p) else A(p) == 255
  }

  /** The raster of a picture in a file: rows of a multiple of four bytes, at most three of them padding, the bottom row
      first unless the height is negative. */
  ghost predicate LaidOut(data: seq<Byte>, offset: nat, topDown: bool, depth: nat, rowBytes: nat, img: Image)
    requires Complete(img)
  {
    && rowBytes % 4 == 0 && img.width * depth <= rowBytes < img.width * depth + 4
    && offset + img.height * rowBytes <= |data|
    && forall x: nat, y: nat | x < img.width && y < img.height ::
         Stored(data, Place(offset, if topDown then y else img.height - 1 - y, rowBytes, x, depth), At(img, x, y),
                depth)
  }

  function Place(offset: nat, row: nat, rowBytes: nat, x: nat, depth: nat): nat {
    MulMono(0, row, rowBytes);
    MulMono(0, x, depth);
    offset + row * rowBytes + x * depth
  }

  /** The decoder shows exactly the picture that the file describes, for 24 and for 32 bits, from the top and from the
      bottom; 32-bit pictures without any alpha become opaque. */
  lemma DecodesLaidOut(data: seq<Byte>, outside: nat -> Byte, junk: seq<Pixel>, f: Format, rowBytes: nat, img: Image)
    requires ParseHeader(data) == Some(f) && Sized(data, junk) && |data| < U32
    requires Complete(img) && f.width == img.width && f.height == img.height
    requires LaidOut(data, f.offset, f.topDown, f.depth, rowBytes, img)
    ensures DecodeBmp(data, outside, junk) ==
            Some(Bitmap(img.(pixels := if f.depth == 4 then Opaque(img.pixels) else img.pixels), f.depth))
  {
    hide ParseHeader, Opaque, PixelAt, PixelOf, LaidOut, Format.RowsRead;
    LaidOutRows(data, f, rowBytes, img);
    LaidOutCovers(data, f, rowBytes, img);
    CoversExact(f, |data|);
    var ps := Pixels(f, data, outside, junk);
    forall x: nat, y: nat | x < img.width && y < img.height
      ensures At(Image(f.width, f.height, ps), x, y) == At(img, x, y)
    {
      PixelRead(f, data, outside, junk, x, y);
      LaidOutPixel(data, outside, f, rowBytes, img, x, y);
    }
    SameImage(Image(f.width, f.height, ps), img);
  }

  lemma LaidOutRows(data: seq<Byte>, f: Format, rowBytes: nat, img: Image)
    requires Complete(img) && f.width == img.width && LaidOut(data, f.offset, f.topDown, f.depth, rowBytes, img)
    ensures f.RowBytes() == rowBytes
  {
  }

  lemma LaidOutCovers(data: seq<Byte>, f: Format, rowBytes: nat, img: Image)
    requires Complete(img) && f.width == img.width && f.height == img.height
    requires LaidOut(data, f.offset, f.topDown, f.depth, rowBytes, img) && f.RowBytes() == rowBytes
    ensures Covers(f, |data|)
  {
  }

  lemma LaidOutPixel(data: seq<Byte>, outside: nat -> Byte, f: Format, rowBytes: nat, img: Image, x: nat, y: nat)
    requires f.Valid() && |data| < U32 && f.RowBytes() == rowBytes
    requires Complete(img) && f.width == img.width && f.height == img.height && x < img.width && y < img.height
    requires LaidOut(data, f.offset, f.topDown, f.depth, rowBytes, img)
    ensures PixelAt(f, data, outside, x, y) == At(img, x, y)
  {
    hide A, R, G, B, Pack, Peek, At;
    var o := Place(f.offset, if f.topDown then y else img.height - 1 - y, rowBytes, x, f.depth);
    assert Stored(data, o, At(img, x, y), f.depth);
    assert o == Position(f, x, y);
    InFile(data, outside, o);
    InFile(data, outside, o + 1);
    InFile(data, outside, o + 2);
    if f.depth == 4 {
      InFile(data, outside, o + 3);
    }
    Repack(At(img, x, y));
  }

  /** A file of 58 bytes: one pixel, and an offset four bytes below 4 GiB. */
  function Sample(): (data: seq<Byte>)
    ensures |data| == 58
  {
    SampleFront() + [1, 0, 32, 0] + [0, 0, 0, 0] + seq(24, _ => 0)
  }

  function SampleFront(): (data: seq<Byte>)
    ensures |data| == 26
  {
    [66, 77, 58, 0, 0, 0, 0, 0, 0, 0] + [0xFC, 0xFF, 0xFF, 0xFF] + [40, 0, 0, 0] + [1, 0, 0, 0] +
    [0xFF, 0xFF, 0xFF, 0xFF]
  }

  lemma FieldBytes(data: seq<Byte>, o: nat)
    requires o + 4 <= |data|
    ensures Field(data, o, 4) == Little(data[o], data[o + 1], data[o + 2], data[o + 3])
    ensures Field(data, o, 2) == Little(data[o], data[o + 1], 0, 0)
  {
    FourByteField(data, o);
    var t := data[o..o + 2];
    assert t[1..] == [data[o + 1]];
    assert Decode([data[o + 1]]) == data[o + 1];
  }

  /** Its row passes the check, and its one pixel is read from past the end. */
  lemma SampleReadsOutside(outside: nat -> Byte, junk: Pixel)
    ensures ParseHeader(Sample()) == Some(Format(0xFFFF_FFFC, 1, 1, true, 4))
    ensures var f := ParseHeader(Sample()).value; f.RowPresent(0, 58) && !f.RowInFile(0, 58) && !Guard(f, 58)
    ensures var o := 0xFFFF_FFFC;
            outside(o + 3) != 0 ==>
              DecodeBmp(Sample(), outside, [junk]) ==
              Some(Bitmap(Image(1, 1, [Pack(outside(o + 3), outside(o + 2), outside(o + 1), outside(o))]), 4))
  {
    hide Sample, ParseHeader, Opaque, Pixels, Guard;
    var d, f := Sample(), Format(0xFFFF_FFFC, 1, 1, true, 4);
    SampleHeader();
    SampleRow(f);
    var p := Pack(outside(0xFFFF_FFFF), outside(0xFFFF_FFFE), outside(0xFFFF_FFFD), outside(0xFFFF_FFFC));
    assert Pixels(f, d, outside, [junk]) == [p] by { SamplePixel(f, outside, junk); }
    if outside(0xFFFF_FFFF) != 0 {
      Unpack(outside(0xFFFF_FFFF), outside(0xFFFF_FFFE), outside(0xFFFF_FFFD), outside(0xFFFF_FFFC));
      KeptAlpha([p], 0);
    }
  }

  lemma SampleRow(f: Format)
    requires f == Format(0xFFFF_FFFC, 1, 1, true, 4)
    ensures f.RowStart(0) == 0xFFFF_FFFC && f.RowEnd(0) == U32 && f.RowPresent(0, 58) && !f.RowInFile(0, 58)
    ensures !Guard(f, 58)
    ensures f.RowsRead(0, 58) == 1
  {
    assert f.RowBytes() == 4;
  }

  lemma SamplePixel(f: Format, outside: nat -> Byte, junk: Pixel)
    requires f == Format(0xFFFF_FFFC, 1, 1, true, 4)
    ensures Pixels(f, Sample(), outside, [junk]) ==
            [Pack(outside(0xFFFF_FFFF), outside(0xFFFF_FFFE), outside(0xFFFF_FFFD), outside(0xFFFF_FFFC))]
  {
    hide Sample, Pack, PixelAt;
    SampleRow(f);
    SamplePixelAt(f, outside);
    assert PixelOf(f, Sample(), outside, [junk], 0) == PixelAt(f, Sample(), outside, 0, 0);
  }

  lemma SamplePixelAt(f: Format, outside: nat -> Byte)
    requires f == Format(0xFFFF_FFFC, 1, 1, true, 4)
    ensures PixelAt(f, Sample(), outside, 0, 0) ==
            Pack(outside(0xFFFF_FFFF), outside(0xFFFF_FFFE), outside(0xFFFF_FFFD), outside(0xFFFF_FFFC))
  {
    hide Sample, Pack, Position;
    assert Position(f, 0, 0) == 0xFFFF_FFFC by { SamplePosition(f); }
  }

  lemma SamplePosition(f: Format)
    requires f == Format(0xFFFF_FFFC, 1, 1, true, 4)
    ensures Position(f, 0, 0) == 0xFFFF_FFFC
  {
    SampleRow(f);
  }

  lemma SampleHeader()
    ensures ParseHeader(Sample()) == Some(Format(0xFFFF_FFFC, 1, 1, true, 4))
  {
    hide Field, Sample;
    var d := Sample();
    SampleBytes(d);
    FieldBytes(d, 10);
    FieldBytes(d, 18);
    FieldBytes(d, 22);
    FieldBytes(d, 28);
    FieldBytes(d, 30);
  }

  lemma SampleBytes(d: seq<Byte>)
    requires d == Sample()
    ensures d[0] == 66 && d[1] == 77 && d[10] == 0xFC && d[11] == d[12] == d[13] == 0xFF
    ensures d[18] == 1 && d[19] == d[20] == d[21] == 0 && d[22] == d[23] == d[24] == d[25] == 0xFF
    ensures d[28] == 32 && d[29] == 0 && d[30] == d[31] == d[32] == d[33] == 0
  {
    var f := SampleFront();
    assert d[..26] == f;
    SampleFrontBytes();
    assert d[18..26] == f[18..26] && d[10..14] == f[10..14];
    assert d[26..34] == [1, 0, 32, 0, 0, 0, 0, 0];
  }

  lemma SampleFrontBytes()
    ensures var f := SampleFront();
            && f[0] == 66 && f[1] == 77 && f[10] == 0xFC && f[11] == f[12] == f[13] == 0xFF
            && f[18] == 1 && f[19] == f[20] == f[21] == 0 && f[22] == f[23] == f[24] == f[25] == 0xFF
  {
  }

  // ---------- the loops over buffers ----------

  /** Write an integer of `n` bytes in little-endian order behind what is written already. */
  method Store(buf: array<Byte>, off: nat, v: nat, n: nat)
    requires off + n <= buf.Length
    modifies buf
    ensures buf[..off + n] == old(buf[..off]) + Encode(v, n)
  {
    hide Encode;
    var rest, i := v, 0;
    ghost var was := buf[..off];
    assert was + Encode(rest, n) == was + Encode(v, n);
    while i < n
      invariant i <= n && buf[..off + i] + Encode(rest, n - i) == was + Encode(v, n)
    {
      NextByte(buf[..off + i], rest, n - i);
      ghost var before := buf[..off + i];
      buf[off + i] := rest % 256;
      assert buf[..off + i + 1] == before + [rest % 256];
      rest, i := rest / 256, i + 1;
    }
    NoByte(buf[..off + n], rest);
  }

  lemma NextByte(front: seq<Byte>, v: nat, n: nat)
    requires n > 0
    ensures front + [v % 256] + Encode(v / 256, n - 1) == front + Encode(v, n)
  {
  }

  lemma NoByte(front: seq<Byte>, v: nat)
    ensures front + Encode(v, 0) == front
  {
  }

  method StorePreamble(buf: array<Byte>, w: Int32, h: Int32)
    requires w > 0 && h > 0 && HEADER <= buf.Length
    modifies buf
    ensures buf[..26] == Preamble(w, h)
  {
    hide Encode;
    var size: nat := ByteCount(w, h);
    buf[0] := 66;
    buf[1] := 77;
    assert buf[..2] == [66, 77];
    Store(buf, 2, (HEADER + size) % U32, 4);
    Store(buf, 6, 0, 2);
    Store(buf, 8, 0, 2);
    Store(buf, 10, HEADER, 4);
    Store(buf, 14, 40, 4);
    Store(buf, 18, w, 4);
    Store(buf, 22, U32 - h, 4);
  }

  method StoreHeader(buf: array<Byte>, w: Int32, h: Int32)
    requires w > 0 && h > 0 && HEADER <= buf.Length
    modifies buf
    ensures buf[..HEADER] == Header(w, h)
  {
    hide Encode, Preamble;
    StorePreamble(buf, w, h);
    Store(buf, 26, 1, 2);
    Store(buf, 28, 32, 2);
    Store(buf, 30, 0, 4);
    Store(buf, 34, ByteCount(w, h) % U32, 4);
    Store(buf, 38, 2835, 4);
    Store(buf, 42, 2835, 4);
    Store(buf, 46, 0, 4);
    Store(buf, 50, 0, 4);
  }

  function ByteCount(w: nat, h: nat): (n: nat)
    ensures n == w * h * 4
  {
    MulMono(0, w, h);
    w * h * 4
  }

  method StorePixels(out: array<Byte>, pixels: array<Pixel>)
    requires out.Length == HEADER + 4 * pixels.Length && out as object != pixels
    modifies out
    ensures out[..] == old(out[..HEADER]) + PixelBytes(pixels[..])
  {
    hide Encode, PixelBytes, A, R, G, B, Pack;
    ghost var header := out[..HEADER];
    var i := 0;
    NoPixel(header, pixels[..]);
    while i < pixels.Length
      invariant i <= pixels.Length && out[..HEADER + 4 * i] == header + PixelBytes(pixels[..i])
    {
      var p := pixels[i];
      Repack(p);
      NextPixel(header, pixels[..], i);
      Store(out, HEADER + 4 * i, Pack(A(p), R(p), G(p), B(p)), 4);
      i := i + 1;
    }
    assert pixels[..i] == pixels[..] && out[..HEADER + 4 * i] == out[..];
  }

  lemma NoPixel(front: seq<Byte>, ps: seq<Pixel>)
    ensures front == front + PixelBytes(ps[..0])
  {
  }

  lemma NextPixel(front: seq<Byte>, ps: seq<Pixel>, i: nat)
    requires i < |ps|
    ensures front + PixelBytes(ps[..i]) + Encode(ps[i], 4) == front + PixelBytes(ps[..i + 1])
  {
    hide Encode;
    assert ps[..i + 1][..i] == ps[..i];
    assert PixelBytes(ps[..i + 1]) == PixelBytes(ps[..i]) + Encode(ps[i], 4);
  }

  /** `image_encode_bmp`; `memory` says whether the allocation succeeds. */
  method EncodeBmp(pixels: array<Pixel>, w: Int32, h: Int32, memory: bool) returns (out: array?<Byte>)
    requires w > 0 && h > 0 ==> pixels.Length == w * h && HEADER + 4 * pixels.Length < U32
    ensures out == null <==> w <= 0 || h <= 0 || !memory
    ensures out != null ==> fresh(out) && out[..] == Encoded(Image(w, h, pixels[..]))
  {
    hide PixelBytes, Header;
    if w <= 0 || h <= 0 || !memory { return null; }
    out := new Byte[HEADER + 4 * pixels.Length];
    StoreHeader(out, w, h);
    StorePixels(out, pixels);
  }

  /** The pixel buffer when the rows above `y` have been read. */
  ghost predicate ReadUpTo(f: Format, data: seq<Byte>, outside: nat -> Byte, junk: seq<Pixel>, ps: seq<Pixel>, y: nat)
    requires f.Valid() && |junk| == f.width * f.height && y <= f.height
  {
    && |ps| == |junk|
    && (forall k: nat | k < y :: f.RowPresent(k, |data|))
    && forall i: nat | i < |junk| ::
         ps[i] == if RowOf(i, f.width, f.height) < y
                  then PixelAt(f, data, outside, ColumnOf(i, f.width), RowOf(i, f.width, f.height)) else junk[i]
  }

  lemma ReadRow(f: Format, data: seq<Byte>, outside: nat -> Byte, junk: seq<Pixel>, ps: seq<Pixel>, ps': seq<Pixel>,
                y: nat)
    requires f.Valid() && |junk| == f.width * f.height && y < f.height && ReadUpTo(f, data, outside, junk, ps, y)
    requires f.RowPresent(y, |data|) && |ps'| == |ps| && 0 <= y * f.width <= y * f.width + f.width <= |ps|
    requires forall x: nat | x < f.width :: ps'[y * f.width + x] == PixelAt(f, data, outside, x, y)
    requires forall i: nat | i < |ps| && !(y * f.width <= i < y * f.width + f.width) :: ps'[i] == ps[i]
    ensures ReadUpTo(f, data, outside, junk, ps', y + 1)
  {
    hide PixelAt, ColumnOf, RowOf;
    forall i: nat | i < |junk|
      ensures ps'[i] == if RowOf(i, f.width, f.height) < y + 1
                        then PixelAt(f, data, outside, ColumnOf(i, f.width), RowOf(i, f.width, f.height)) else junk[i]
    {
      LineOfIndex(i, f.width, f.height, y);
    }
  }

  lemma LineOfIndex(i: nat, w: nat, h: nat, y: nat)
    requires w > 0 && i < w * h
    ensures RowOf(i, w, h) == y <==> y * w <= i < y * w + w
    ensures RowOf(i, w, h) == y ==> i == y * w + ColumnOf(i, w)
  {
    PartsOf(i, w, h);
    var k := RowOf(i, w, h);
    if k < y {
      MulMono(k + 1, y, w);
    } else if k > y {
      MulMono(y + 1, k, w);
    }
  }

  lemma ReadAll(f: Format, data: seq<Byte>, outside: nat -> Byte, junk: seq<Pixel>, ps: seq<Pixel>, y: nat)
    requires f.Valid() && |junk| == f.width * f.height && y <= f.height && ReadUpTo(f, data, outside, junk, ps, y)
    requires y == f.height || !f.RowPresent(y, |data|)
    ensures ps == Pixels(f, data, outside, junk)
  {
    hide PixelAt;
    RowsReadIs(f, 0, y, |data|);
  }

  lemma RowsReadIs(f: Format, k: nat, y: nat, len: nat)
    requires k <= y <= f.height && (forall j: nat | j < y :: f.RowPresent(j, len))
    requires y == f.height || !f.RowPresent(y, len)
    ensures f.RowsRead(k, len) == y
    decreases y - k
  {
    if k < y { RowsReadIs(f, k + 1, y, len); }
  }

  lemma NothingRead(f: Format, data: seq<Byte>, outside: nat -> Byte, junk: seq<Pixel>)
    requires f.Valid() && |junk| == f.width * f.height
    ensures ReadUpTo(f, data, outside, junk, junk, 0)
  {
  }

  lemma LineInBuffer(f: Format, y: nat)
    requires f.Valid() && y < f.height
    ensures 0 <= y * f.width <= y * f.width + f.width <= f.width * f.height
  {
    MulMono(0, y, f.width);
    MulMono(y + 1, f.height, f.width);
  }

  /** One row of the file into its line of the buffer. */
  method DecodeRow(data: array<Byte>, outside: nat -> Byte, f: Format, pixels: array<Pixel>, y: nat)
    requires f.Valid() && y < f.height && pixels.Length == f.width * f.height && data as object != pixels
    modifies pixels
    ensures 0 <= y * f.width <= y * f.width + f.width <= f.width * f.height
    ensures forall x: nat | x < f.width :: pixels[y * f.width + x] == PixelAt(f, data[..], outside, x, y)
    ensures forall i: nat | i < pixels.Length && !(y * f.width <= i < y * f.width + f.width) ::
              pixels[i] == old(pixels[i])
  {
    hide A, R, G, B, Pack;
    LineInBuffer(f, y);
    var line, row := y * f.width, f.RowStart(y);
    var x: nat := 0;
    while x < f.width
      invariant x <= f.width
      invariant forall k: nat | k < x :: pixels[line + k] == PixelAt(f, data[..], outside, k, y)
      invariant forall i: nat | i < pixels.Length && !(line <= i < line + x) :: pixels[i] == old(pixels[i])
    {
      MulMono(0, x, f.depth);
      var o := row + x * f.depth;
      assert o == Position(f, x, y);
      var b, g, r := PeekIn(data, outside, o), PeekIn(data, outside, o + 1), PeekIn(data, outside, o + 2);
      if f.depth == 4 {
        var a := PeekIn(data, outside, o + 3);
        pixels[line + x] := Pack(a, r, g, b);
      } else {
        pixels[line + x] := Pack(255, r, g, b);
      }
      x := x + 1;
    }
  }

  function PeekIn(data: array<Byte>, outside: nat -> Byte, o: nat): (b: Byte)
    reads data
    ensures b == Peek(data[..], outside, o)
  {
    if o % U32 < data.Length then data[o % U32] else outside(o % U32)
  }

  /** The last step for 32-bit pictures. */
  method FixAlpha(pixels: array<Pixel>)
    modifies pixels
    ensures pixels[..] == Opaque(old(pixels[..]))
  {
    hide A, WithAlpha;
    ghost var was := pixels[..];
    for i := 0 to pixels.Length
      invariant pixels[..] == was && forall k | 0 <= k < i :: A(pixels[k]) == 0
    {
      if A(pixels[i]) != 0 {
        assert was[i] in was;
        return;
      }
    }
    for i := 0 to pixels.Length
      invariant forall k | 0 <= k < i :: pixels[k] == WithAlpha(was[k])
      invariant forall k | i <= k < pixels.Length :: pixels[k] == was[k]
    {
      pixels[i] := WithAlpha(pixels[i]);
    }
  }

  /**
    * `image_decode_bmp`; `pixelMemory` and `imageMemory` say whether the two allocations succeed, and `junk` is what
    * the memory of the pixels happens to hold. The result is a function of the file when the rows fit behind the
    * offset, which the code does not check; with `Guard` it is a function of the file and of `junk`.
    */
  method ReadBmp(data: array<Byte>, outside: nat -> Byte, pixelMemory: bool, imageMemory: bool, junk: seq<Pixel>)
    returns (img: Option<Bitmap>)
    requires data.Length < U32 && Sized(data[..], junk)
    ensures img == if pixelMemory && imageMemory then DecodeBmp(data[..], outside, junk) else None
    ensures ParseHeader(data[..]).None? || Covers(ParseHeader(data[..]).value, data.Length) ==>
              forall other: nat -> Byte, junk': seq<Pixel> | Sized(data[..], junk') ::
                img == if pixelMemory && imageMemory then DecodeBmp(data[..], other, junk') else None
    ensures ParseHeader(data[..]).None? || Guard(ParseHeader(data[..]).value, data.Length) ==>
              forall other: nat -> Byte ::
                img == if pixelMemory && imageMemory then DecodeBmp(data[..], other, junk) else None
  {
    hide ParseHeader, Opaque, Pixels, PixelAt, ReadUpTo, Guard, Covers;
    ghost var bytes := data[..];
    OutsideIgnoredByAll(bytes, outside, junk);
    CoveredForAll(bytes, outside, junk);
    var header := ParseHeader(data[..]);
    if header.None? || !pixelMemory { return None; }
    var f := header.value;
    var pixels := new Pixel[|junk|](i requires 0 <= i < |junk| => junk[i]);
    assert pixels[..] == junk;
    NothingRead(f, bytes, outside, junk);
    var y: nat := 0;
    while y < f.height && f.RowPresent(y, data.Length)
      invariant y <= f.height && fresh(pixels) && ReadUpTo(f, bytes, outside, junk, pixels[..], y)
    {
      ghost var before := pixels[..];
      DecodeRow(data, outside, f, pixels, y);
      assert data[..] == bytes;
      ReadRow(f, bytes, outside, junk, before, pixels[..], y);
      y := y + 1;
    }
    ReadAll(f, bytes, outside, junk, pixels[..], y);
    if f.depth == 4 {
      FixAlpha(pixels);
    }
    if !imageMemory { return None; }
    img := Some(Bitmap(Image(f.width, f.height, pixels[..]), f.depth));
  }

  lemma OutsideIgnoredByAll(data: seq<Byte>, outside: nat -> Byte, junk: seq<Pixel>)
    requires Sized(data, junk) && |data| < U32
    ensures ParseHeader(data).None? || Guard(ParseHeader(data).value, |data|) ==>
              forall other: nat -> Byte :: DecodeBmp(data, other, junk) == DecodeBmp(data, outside, junk)
  {
    hide ParseHeader, Guard, DecodeBmp, Sized;
    if ParseHeader(data).None? || Guard(ParseHeader(data).value, |data|) {
      forall other: nat -> Byte
        ensures DecodeBmp(data, other, junk) == DecodeBmp(data, outside, junk)
      {
        OutsideIgnored(data, other, outside, junk);
      }
    }
  }

  lemma CoveredForAll(data: seq<Byte>, outside: nat -> Byte, junk: seq<Pixel>)
    requires Sized(data, junk) && |data| < U32
    ensures ParseHeader(data).None? || Covers(ParseHeader(data).value, |data|) ==>
              forall other: nat -> Byte, junk': seq<Pixel> | Sized(data, junk') ::
                DecodeBmp(data, other, junk') == DecodeBmp(data, outside, junk)
  {
    hide ParseHeader, Covers, DecodeBmp, Sized;
    if ParseHeader(data).None? || Covers(ParseHeader(data).value, |data|) {
      forall other: nat -> Byte, junk': seq<Pixel> | Sized(data, junk')
        ensures DecodeBmp(data, other, junk') == DecodeBmp(data, outside, junk)
      {
        CoveredFile(data, other, outside, junk', junk);
      }
    }
  }
}
