/** The in-place decoder of the chunked transfer coding (net.c, lib.c; section 7.1 of RFC 9112). */
module Unchunk {
  import opened Words
  import opened Bytes

  const CR: Byte := 13
  const LF: Byte := 10

  // ---------- the lexical pieces ----------

  predicate IsBlank(b: Byte) { b == CR || b == LF || b == 32 || b == 9 }

  predicate IsHex(b: Byte) { 48 <= b <= 57 || 97 <= b <= 102 || 65 <= b <= 70 }

  function HexDigit(b: Byte): (v: nat)
    requires IsHex(b)
    ensures v < 16
  {
    if b <= 57 then b - 48 else if b >= 97 then b - 97 + 10 else b - 65 + 10
  }

  /** How many blanks the sequence starts with. */
  function Blanks(s: seq<Byte>): (n: nat)
    ensures n <= |s|
  {
    if |s| == 0 || !IsBlank(s[0]) then 0 else 1 + Blanks(s[1..])
  }

  /** How many hex digits the sequence starts with. */
  function Digits(s: seq<Byte>): (n: nat)
    ensures n <= |s| && forall i | 0 <= i < n :: IsHex(s[i])
  {
    if |s| == 0 || !IsHex(s[0]) then 0 else 1 + Digits(s[1..])
  }

  /** The length of the first line with its line feed, or of everything if there is none. */
  function LineLength(s: seq<Byte>): (n: nat)
    ensures n <= |s|
  {
    if |s| == 0 then 0 else if s[0] == LF then 1 else 1 + LineLength(s[1..])
  }

  /** An optional carriage return, then an optional line feed. */
  function LineEnd(s: seq<Byte>): (n: nat)
    ensures n <= |s|
  {
    var a := if |s| > 0 && s[0] == CR then 1 else 0;
    if |s| > a && s[a] == LF then a + 1 else a
  }

  /** The number that the digits write, most significant first. */
  function HexValue(ds: seq<Byte>): nat
    requires forall d | d in ds :: IsHex(d)
  {
    if |ds| == 0 then 0 else HexValue(ds[..|ds| - 1]) * 16 + HexDigit(ds[|ds| - 1])
  }

  /** The same number in a 32-bit accumulator, `(acc << 4) | digit`. */
  function HexValue32(ds: seq<Byte>): nat
    requires forall d | d in ds :: IsHex(d)
  {
    if |ds| == 0 then 0 else HexValue32(ds[..|ds| - 1]) * 16 % U32 + HexDigit(ds[|ds| - 1])
  }

  lemma {:induction false} Accumulator(ds: seq<Byte>)
    requires forall d | d in ds :: IsHex(d)
    ensures HexValue32(ds) == HexValue(ds) % U32
    decreases |ds|
  {
    if |ds| != 0 {
      var v, w, d := HexValue32(ds[..|ds| - 1]), HexValue(ds[..|ds| - 1]), HexDigit(ds[|ds| - 1]);
      Accumulator(ds[..|ds| - 1]);
      ShiftIn(w, d);
    }
  }

  lemma ShiftIn(w: nat, d: nat)
    requires d < 16
    ensures w % U32 * 16 % U32 + d == (w * 16 + d) % U32
  {
    var top, mid := w / 0x1000_0000, w % 0x1000_0000;
    var hi, lo := top / 16, top % 16;
    assert w == top * 0x1000_0000 + mid && top == hi * 16 + lo;
    ModUnique(w, U32, hi, lo * 0x1000_0000 + mid);
    ModUnique(w % U32 * 16, U32, lo, mid * 16);
    ModUnique(w * 16 + d, U32, top, mid * 16 + d);
  }

  // ---------- the decoder as a function ----------

  /** What the decoder makes of its input. It stops at a size of zero and where no size can be read. */
  function Decode(s: seq<Byte>): seq<Byte>
    decreases |s|, 0
  {
    var t := s[Blanks(s)..];
    var k := Digits(t);
    if k == 0 then [] else DecodeBody(HexValue32(t[..k]), t[k..][LineLength(t[k..])..])
  }

  /** The same from behind a size line: at most `size` bytes of data, the end of their line, and the next chunk. */
  function DecodeBody(size: nat, v: seq<Byte>): seq<Byte>
    decreases |v|, 1
  {
    if size == 0 then []
    else
      var n := if |v| < size then |v| else size;
      v[..n] + Decode(v[n..][LineEnd(v[n..])..])
  }

  // ---------- chunked messages ----------

  /** One chunk: the size in any hex notation, an extension, the data. */
  datatype Chunk = Chunk(size: seq<Byte>, ext: seq<Byte>, data: seq<Byte>)

  /** The end of a message: a size of zero, an extension, and whatever follows the line. */
  datatype Last = Last(size: seq<Byte>, ext: seq<Byte>, trailer: seq<Byte>)

  ghost predicate SizeLine(size: seq<Byte>, ext: seq<Byte>) {
    && |size| > 0 && (forall d | d in size :: IsHex(d))
    && LF !in ext && (|ext| > 0 ==> !IsHex(ext[0]))
  }

  ghost predicate ValidChunk(c: Chunk) {
    SizeLine(c.size, c.ext) && HexValue(c.size) == |c.data| && 0 < |c.data| < U32
  }

  ghost predicate ValidLast(l: Last) {
    SizeLine(l.size, l.ext) && HexValue(l.size) == 0
  }

  function Line(size: seq<Byte>, ext: seq<Byte>): seq<Byte> {
    size + ext + [CR, LF]
  }

  function EncodeChunk(c: Chunk): seq<Byte> {
    Line(c.size, c.ext) + (c.data + [CR, LF])
  }

  function EncodeLast(l: Last): seq<Byte> {
    Line(l.size, l.ext) + l.trailer
  }

  function EncodeMessage(cs: seq<Chunk>, l: Last): seq<Byte> {
    if |cs| == 0 then EncodeLast(l) else EncodeChunk(cs[0]) + EncodeMessage(cs[1..], l)
  }

  function Data(cs: seq<Chunk>): seq<Byte> {
    if |cs| == 0 then [] else cs[0].data + Data(cs[1..])
  }

  // ---------- reading the pieces back ----------

  lemma {:induction false} DigitsOf(size: seq<Byte>, rest: seq<Byte>)
    requires (forall d | d in size :: IsHex(d)) && (|rest| > 0 ==> !IsHex(rest[0]))
    ensures Digits(size + rest) == |size|
    decreases |size|
  {
    if |size| == 0 {
      assert size + rest == rest;
    } else {
      assert (size + rest)[1..] == size[1..] + rest;
      DigitsOf(size[1..], rest);
    }
  }

  lemma {:induction false} LineLengthOf(a: seq<Byte>, rest: seq<Byte>)
    requires LF !in a
    ensures LineLength(a + [LF] + rest) == |a| + 1
    ensures LineLength(a) == |a|
    decreases |a|
  {
    if |a| == 0 {
      assert (a + [LF] + rest)[0] == LF;
    } else {
      assert (a + [LF] + rest)[1..] == a[1..] + [LF] + rest;
      LineLengthOf(a[1..], rest);
    }
  }

  /** A whole size line is read and skipped. */
  lemma LineRead(size: seq<Byte>, ext: seq<Byte>, rest: seq<Byte>)
    requires SizeLine(size, ext)
    ensures var s := Line(size, ext) + rest;
            && Blanks(s) == 0 && Digits(s) == |size| && s[..|size|] == size
            && s[|size|..][LineLength(s[|size|..])..] == rest
  {
    var s := Line(size, ext) + rest;
    var after := ext + [CR, LF] + rest;
    assert s == size + after;
    assert size[0] in size && s[0] == size[0];
    DigitsOf(size, after);
    assert s[|size|..] == after;
    assert after == ext + [CR] + [LF] + rest;
    LineLengthOf(ext + [CR], rest);
  }

  lemma DecodeLine(size: seq<Byte>, ext: seq<Byte>, v: seq<Byte>)
    requires SizeLine(size, ext)
    ensures Decode(Line(size, ext) + v) == DecodeBody(HexValue(size) % U32, v)
  {
    hide HexValue32, HexValue, DecodeBody, LineLength, Line;
    var s := Line(size, ext) + v;
    LineRead(size, ext, v);
    Accumulator(size);
    assert s[0..] == s;
  }

  /** Decoding a chunk and what follows it. */
  lemma DecodeChunk(c: Chunk, rest: seq<Byte>)
    requires ValidChunk(c)
    ensures Decode(EncodeChunk(c) + rest) == c.data + Decode(rest)
  {
    hide Decode, DecodeBody, Line, HexValue;
    var v := c.data + [CR, LF] + rest;
    assert EncodeChunk(c) + rest == Line(c.size, c.ext) + v;
    DecodeLine(c.size, c.ext, v);
    WholeBody(c.data, rest);
  }

  lemma WholeBody(data: seq<Byte>, rest: seq<Byte>)
    requires |data| > 0
    ensures DecodeBody(|data|, data + [CR, LF] + rest) == data + Decode(rest)
  {
    hide Decode;
    var v, n := data + [CR, LF] + rest, |data|;
    assert v[..n] == data;
    assert v[n..] == [CR, LF] + rest;
    assert v[n..][2..] == rest;
  }

  lemma DecodeLast(l: Last)
    requires ValidLast(l)
    ensures Decode(EncodeLast(l)) == []
  {
    hide Decode, Line, HexValue;
    DecodeLine(l.size, l.ext, l.trailer);
  }

  /** The decoder inverts the coding, for every list of chunks. */
  lemma {:induction false} DecodeEncode(cs: seq<Chunk>, l: Last)
    requires (forall c | c in cs :: ValidChunk(c)) && ValidLast(l)
    ensures Decode(EncodeMessage(cs, l)) == Data(cs)
    decreases |cs|
  {
    if |cs| == 0 {
      DecodeLast(l);
    } else {
      DecodeChunk(cs[0], EncodeMessage(cs[1..], l));
      DecodeEncode(cs[1..], l);
    }
  }

  // ---------- any input ----------

  const LOWER: string := "0123456789abcdef"
  const UPPER: string := "0123456789ABCDEF"

  /** The digits are those of hexadecimal notation, and each has the value of its place in it. */
  lemma HexDigits(b: Byte)
    ensures IsHex(b) <==> exists v :: 0 <= v < 16 && (LOWER[v] as int == b || UPPER[v] as int == b)
    ensures forall v | 0 <= v < 16 && (LOWER[v] as int == b || UPPER[v] as int == b) :: HexDigit(b) == v
  {
    if IsHex(b) {
      DigitAt(HexDigit(b));
    }
    forall v | 0 <= v < 16
      ensures LOWER[v] as int == (if v < 10 then 48 + v else 87 + v)
      ensures UPPER[v] as int == (if v < 10 then 48 + v else 55 + v)
    {
      DigitAt(v);
    }
  }

  lemma DigitAt(v: nat)
    requires v < 16
    ensures LOWER[v] as int == (if v < 10 then 48 + v else 87 + v)
    ensures UPPER[v] as int == (if v < 10 then 48 + v else 55 + v)
  {
  }

  /** Carriage returns, line feeds, spaces and tabs before a size are skipped. */
  lemma {:induction false} BlanksSkipped(pre: seq<Byte>, s: seq<Byte>)
    requires forall b | b in pre :: b in {13, 10, 32, 9}
    ensures Decode(pre + s) == Decode(s)
    decreases |pre|
  {
    hide DecodeBody, HexValue32, LineLength, Digits;
    if |pre| == 0 {
      assert pre + s == s;
    } else {
      var rest := pre[1..] + s;
      assert pre[0] in pre && forall b | b in pre[1..] :: b in pre;
      assert (pre + s)[1..] == rest;
      assert (pre + s)[Blanks(pre + s)..] == rest[Blanks(rest)..];
      BlanksSkipped(pre[1..], s);
    }
  }

  /** Where no size can be read the decoder stops. */
  lemma NoSize(pre: seq<Byte>, s: seq<Byte>)
    requires (forall b | b in pre :: b in {13, 10, 32, 9}) && (|s| > 0 ==> !IsBlank(s[0]) && !IsHex(s[0]))
    ensures Decode(pre + s) == []
  {
    hide DecodeBody, HexValue32, LineLength;
    BlanksSkipped(pre, s);
    assert s[0..] == s;
  }

  /** After any size line come as many bytes of data as the size says, modulo 2^32, and then the next chunk; a size that
      is zero then ends the message, and a message that is too short gives what there is. */
  lemma AfterSize(size: seq<Byte>, ext: seq<Byte>, v: seq<Byte>)
    requires SizeLine(size, ext)
    ensures var n := HexValue(size) % U32;
            Decode(Line(size, ext) + v) ==
            if n == 0 then [] else if n >= |v| then v else v[..n] + Decode(v[n..])
  {
    hide Decode, Line, HexValue, LineEnd;
    var n := HexValue(size) % U32;
    DecodeLine(size, ext, v);
    if n >= |v| {
      if n > 0 {
        ShortBody(n, v);
      }
    } else if n > 0 {
      EndSkipped(v[n..]);
    }
  }

  lemma EndSkipped(w: seq<Byte>)
    ensures Decode(w[LineEnd(w)..]) == Decode(w)
  {
    hide Decode;
    var n := LineEnd(w);
    assert forall b | b in w[..n] :: b in {13, 10};
    assert w == w[..n] + w[n..];
    BlanksSkipped(w[..n], w[n..]);
  }

  // ---------- truncated messages ----------

  /** A size line cut before its line feed gives nothing. */
  lemma CutLine(size: seq<Byte>, ext: seq<Byte>, k: nat)
    requires SizeLine(size, ext) && k < |Line(size, ext)|
    ensures Decode(Line(size, ext)[..k]) == []
  {
    assert forall d | d in size :: d != LF;
    assert LF !in size + ext + [CR];
    assert Line(size, ext)[..k] == (size + ext + [CR])[..k];
    NoLineFeed(Line(size, ext)[..k]);
  }

  /** Without a line feed there is no size line and no data. */
  lemma NoLineFeed(p: seq<Byte>)
    requires LF !in p
    ensures Decode(p) == []
  {
    hide HexValue32, DecodeBody, Blanks, LineLength;
    var t := p[Blanks(p)..];
    var k := Digits(t);
    if k != 0 {
      var u := t[k..];
      LineLengthOf(u, []);
      assert u[|u|..] == [];
      EmptyBody(HexValue32(t[..k]));
    }
  }

  lemma EmptyBody(size: nat)
    ensures DecodeBody(size, []) == []
  {
    DecodeNothing();
  }

  /** A chunk cut anywhere decodes to a prefix of its data. */
  lemma CutChunk(c: Chunk, k: nat)
    requires ValidChunk(c) && k < |EncodeChunk(c)|
    ensures Decode(EncodeChunk(c)[..k]) <= c.data
  {
    hide Decode, DecodeBody, Line, HexValue;
    var line := Line(c.size, c.ext);
    var p := EncodeChunk(c)[..k];
    if k < |line| {
      assert p == line[..k];
      CutLine(c.size, c.ext, k);
    } else {
      var v := (c.data + [CR, LF])[..k - |line|];
      assert p == line + v;
      DecodeLine(c.size, c.ext, v);
      CutBody(c.data, k - |line|);
    }
  }

  lemma CutBody(data: seq<Byte>, k: nat)
    requires k < |data| + 2 && |data| > 0
    ensures DecodeBody(|data|, (data + [CR, LF])[..k]) <= data
  {
    hide DecodeBody;
    if k <= |data| {
      assert (data + [CR, LF])[..k] == data[..k];
      ShortBody(|data|, data[..k]);
    } else {
      assert (data + [CR, LF])[..k] == data + [CR];
      BodyThenReturn(data);
    }
  }

  /** Less data than announced: all of it. */
  lemma ShortBody(size: nat, v: seq<Byte>)
    requires |v| <= size && size > 0
    ensures DecodeBody(size, v) == v
  {
    hide Decode;
    DecodeNothing();
    assert v[|v|..] == [] && v[..|v|] == v;
  }

  lemma BodyThenReturn(data: seq<Byte>)
    requires |data| > 0
    ensures DecodeBody(|data|, data + [CR]) == data
  {
    hide Decode;
    DecodeNothing();
    var v := data + [CR];
    assert v[|data|..] == [CR] && v[..|data|] == data;
    assert [CR][1..] == [];
  }

  lemma DecodeNothing()
    ensures Decode([]) == []
  {
  }

  /** Any truncation of a well-formed message decodes to a prefix of its data. */
  lemma {:induction false} Truncated(cs: seq<Chunk>, l: Last, k: nat)
    requires (forall c | c in cs :: ValidChunk(c)) && ValidLast(l) && k <= |EncodeMessage(cs, l)|
    ensures Decode(EncodeMessage(cs, l)[..k]) <= Data(cs)
    decreases |cs|
  {
    hide Decode, EncodeChunk, EncodeLast, ValidChunk, ValidLast;
    if |cs| == 0 {
      CutLast(l, k);
    } else {
      var e, rest := EncodeChunk(cs[0]), EncodeMessage(cs[1..], l);
      if k < |e| {
        assert (e + rest)[..k] == e[..k];
        CutChunk(cs[0], k);
      } else {
        assert (e + rest)[..k] == e + rest[..k - |e|];
        DecodeChunk(cs[0], rest[..k - |e|]);
        Truncated(cs[1..], l, k - |e|);
      }
    }
  }

  lemma CutLast(l: Last, k: nat)
    requires ValidLast(l) && k <= |EncodeLast(l)|
    ensures Decode(EncodeLast(l)[..k]) == []
  {
    var line := Line(l.size, l.ext);
    if k < |line| {
      assert EncodeLast(l)[..k] == line[..k];
      CutLine(l.size, l.ext, k);
    } else {
      assert EncodeLast(l)[..k] == line + l.trailer[..k - |line|];
      DecodeLast(l.(trailer := l.trailer[..k - |line|]));
    }
  }

  // ---------- the decoder in place ----------

  /** `memmove` within one buffer, forwards or backwards by the direction of the move. */
  method MemMove(a: array<Byte>, dst: nat, src: nat, n: nat)
    requires dst + n <= a.Length && src + n <= a.Length
    modifies a
    ensures a[..] == Put(old(a[..]), dst, old(a[src..src + n]))
  {
    if dst < src {
      CopyForward(a, dst, src, n);
    } else if dst > src {
      CopyBackward(a, dst, src, n);
    }
  }

  method CopyForward(a: array<Byte>, dst: nat, src: nat, n: nat)
    requires dst < src && src + n <= a.Length
    modifies a
    ensures a[..] == Put(old(a[..]), dst, old(a[src..src + n]))
  {
    ghost var before := a[..];
    for i := 0 to n
      invariant forall j | dst <= j < dst + i :: a[j] == before[j + (src - dst)]
      invariant forall j | 0 <= j < a.Length && !(dst <= j < dst + i) :: a[j] == before[j]
    {
      a[dst + i] := a[src + i];
    }
    CopiedIs(before, a[..], dst, src, n);
  }

  lemma CopiedIs(m: seq<Byte>, m': seq<Byte>, dst: nat, src: nat, n: nat)
    requires |m'| == |m| && dst + n <= |m| && src + n <= |m|
    requires forall j | dst <= j < dst + n :: m'[j] == m[j + (src - dst)]
    requires forall j | 0 <= j < |m| && !(dst <= j < dst + n) :: m'[j] == m[j]
    ensures m' == Put(m, dst, m[src..src + n])
  {
    var p := Put(m, dst, m[src..src + n]);
    forall j | 0 <= j < |m|
      ensures m'[j] == p[j]
    {
      if dst <= j < dst + n {
        assert p[j] == m[src..src + n][j - dst] == m[src + (j - dst)];
      }
    }
  }

  method CopyBackward(a: array<Byte>, dst: nat, src: nat, n: nat)
    requires src < dst && dst + n <= a.Length
    modifies a
    ensures a[..] == Put(old(a[..]), dst, old(a[src..src + n]))
  {
    ghost var before := a[..];
    for i := n downto 0
      invariant forall j | dst + i <= j < dst + n :: a[j] == before[j + (src - dst)]
      invariant forall j | 0 <= j < a.Length && !(dst + i <= j < dst + n) :: a[j] == before[j]
    {
      a[dst + i] := a[src + i];
    }
    CopiedIs(before, a[..], dst, src, n);
  }

  lemma Suffix(s: seq<Byte>, i: nat, j: nat)
    requires i <= j <= |s|
    ensures s[i..][j - i..] == s[j..]
  {
  }

  /** One round of the decoder, by positions in the input. */
  lemma DecodeAt(s: seq<Byte>, src: nat, start: nat, digitsEnd: nat, data: nat)
    requires src <= |s| && start == src + Blanks(s[src..]) && digitsEnd == start + Digits(s[start..])
    requires data == digitsEnd + LineLength(s[digitsEnd..])
    ensures start <= digitsEnd <= data <= |s| && forall d | d in s[start..digitsEnd] :: IsHex(d)
    ensures digitsEnd == start ==> Decode(s[src..]) == []
    ensures digitsEnd != start ==> Decode(s[src..]) == DecodeBody(HexValue32(s[start..digitsEnd]), s[data..])
  {
    hide DecodeBody, Blanks, Digits, LineLength, HexValue32;
    Suffix(s, src, start);
    Suffix(s, start, digitsEnd);
    Suffix(s, digitsEnd, data);
    assert s[start..][..digitsEnd - start] == s[start..digitsEnd];
  }

  lemma BodyAt(s: seq<Byte>, size: nat, data: nat, n: nat, next: nat)
    requires data <= |s| && size > 0 && n == (if |s| - data < size then |s| - data else size)
    requires next == data + n + LineEnd(s[data + n..])
    ensures data + n <= next <= |s| && DecodeBody(size, s[data..]) == s[data..data + n] + Decode(s[next..])
  {
    hide Decode;
    Suffix(s, data, data + n);
    Suffix(s, data + n, next);
    assert s[data..][..n] == s[data..data + n];
  }

  method SkipBlanks(body: array<Byte>, from: nat, len: nat) returns (i: nat)
    requires from <= len <= body.Length
    ensures i == from + Blanks(body[from..len]) && i <= len
  {
    i := from;
    while i < len && IsBlank(body[i])
      invariant from <= i <= len && Blanks(body[from..len]) == i - from + Blanks(body[i..len])
    {
      assert body[i..len][1..] == body[i + 1..len];
      i := i + 1;
    }
  }

  method ReadSize(body: array<Byte>, from: nat, len: nat) returns (i: nat, size: nat)
    requires from <= len <= body.Length
    ensures i == from + Digits(body[from..len]) && i <= len
    ensures (forall d | d in body[from..i] :: IsHex(d)) && size == HexValue32(body[from..i])
  {
    i, size := from, 0;
    while i < len && IsHex(body[i])
      invariant from <= i <= len && Digits(body[from..len]) == i - from + Digits(body[i..len])
      invariant (forall d | d in body[from..i] :: IsHex(d)) && size == HexValue32(body[from..i])
    {
      assert body[i..len][1..] == body[i + 1..len];
      assert body[from..i + 1] == body[from..i] + [body[i]];
      size := size * 16 % U32 + HexDigit(body[i]);
      i := i + 1;
    }
  }

  method SkipLine(body: array<Byte>, from: nat, len: nat) returns (i: nat)
    requires from <= len <= body.Length
    ensures i == from + LineLength(body[from..len]) && i <= len
  {
    i := from;
    while i < len && body[i] != LF
      invariant from <= i <= len && LineLength(body[from..len]) == i - from + LineLength(body[i..len])
    {
      assert body[i..len][1..] == body[i + 1..len];
      i := i + 1;
    }
    if i < len && body[i] == LF {
      i := i + 1;
    }
  }

  method SkipLineEnd(body: array<Byte>, from: nat, len: nat) returns (i: nat)
    requires from <= len <= body.Length
    ensures i == from + LineEnd(body[from..len]) && i <= len
  {
    i := from;
    if i < len && body[i] == CR {
      i := i + 1;
    }
    if i < len && body[i] == LF {
      i := i + 1;
    }
  }

  /** The part of a round that only reads: blanks, size, rest of the line. */
  method ReadHeader(body: array<Byte>, src: nat, len: nat) returns (ok: bool, size: nat, data: nat)
    requires src < len <= body.Length
    ensures !ok ==> Decode(body[src..len]) == []
    ensures ok ==> size > 0 && src < data <= len && Decode(body[src..len]) == DecodeBody(size, body[data..len])
  {
    hide Decode, DecodeBody, Blanks, Digits, LineLength, HexValue32;
    ghost var s := body[..len];
    var start := SkipBlanks(body, src, len);
    var digitsEnd := 0;
    digitsEnd, size := ReadSize(body, start, len);
    data := SkipLine(body, digitsEnd, len);
    assert body[src..len] == s[src..] && body[start..len] == s[start..] && body[digitsEnd..len] == s[digitsEnd..]
        && body[data..len] == s[data..];
    DecodeAt(s, src, start, digitsEnd, data);
    assert body[start..digitsEnd] == s[start..digitsEnd];
    if start >= len {
      return false, 0, src;
    }
    if digitsEnd == start {
      return false, 0, src;
    }
    if size == 0 {
      NoBody(s[data..]);
      return false, 0, src;
    }
    return true, size, data;
  }

  lemma NoBody(v: seq<Byte>)
    ensures DecodeBody(0, v) == []
  {
  }

  /** The part of a round that moves data: what is written is behind what remains to be read. */
  method MoveChunk(body: array<Byte>, dst: nat, data: nat, size: nat, len: nat) returns (dst': nat, src: nat)
    requires dst < data <= len <= body.Length && size > 0
    modifies body
    ensures dst <= dst' < src <= len && data <= src
    ensures body[src..] == old(body[src..])
    ensures body[..dst'] + Decode(body[src..len]) == old(body[..dst]) + DecodeBody(size, old(body[data..len]))
  {
    hide Decode, DecodeBody, LineEnd, Put;
    ghost var m := body[..];
    var toCopy := size;
    if len - data < toCopy {
      toCopy := len - data;
    }
    if dst != data {
      MemMove(body, dst, data, toCopy);
    }
    dst' := dst + toCopy;
    src := SkipLineEnd(body, data + toCopy, len);
    assert body[data..] == body[..][data..] && body[src..len] == body[..][src..len];
    MovedChunk(m, body[..], dst, data, size, toCopy, len, src);
  }

  /** The effect of moving one chunk, on buffers as values. */
  lemma MovedChunk(m: seq<Byte>, m': seq<Byte>, dst: nat, data: nat, size: nat, n: nat, len: nat, src: nat)
    requires dst < data <= len <= |m| && size > 0 && n == (if len - data < size then len - data else size)
    requires m' == Put(m, dst, m[data..data + n]) && src == data + n + LineEnd(m'[data + n..len])
    ensures src <= len && m'[src..] == m[src..]
    ensures m'[..dst + n] + Decode(m'[src..len]) == m[..dst] + DecodeBody(size, m[data..len])
  {
    hide Decode, DecodeBody, LineEnd;
    var s, rest := m[..len], data + n;
    PutFront(m, dst, m[data..rest]);
    PutTail(m, dst, m[data..rest], rest, rest, len);
    assert m'[rest..len] == s[rest..];
    BodyAt(s, size, data, n, src);
    PutTail(m, dst, m[data..rest], rest, src, len);
    PutTail(m, dst, m[data..rest], rest, src, |m|);
    assert m'[src..len] == s[src..] && m[data..len] == s[data..] && m[data..rest] == s[data..rest];
    assert m[..dst] + s[data..rest] + Decode(s[src..]) == m[..dst] + (s[data..rest] + Decode(s[src..]));
  }

  lemma PutFront(m: seq<Byte>, dst: nat, piece: seq<Byte>)
    requires dst + |piece| <= |m|
    ensures Put(m, dst, piece)[..dst + |piece|] == m[..dst] + piece
  {
  }

  lemma PutTail(m: seq<Byte>, dst: nat, piece: seq<Byte>, from: nat, lo: nat, hi: nat)
    requires dst + |piece| <= from <= lo <= hi <= |m|
    ensures Put(m, dst, piece)[lo..hi] == m[lo..hi]
    ensures hi == |m| ==> Put(m, dst, piece)[lo..] == m[lo..]
  {
    PutSlices(m, dst, piece, lo, hi);
    if hi == |m| {
      assert m[lo..] == m[lo..hi];
    }
  }

  /** `http_unchunk` on the first `len` bytes. The result stands at the front of the buffer, ends with a zero byte
      inside the input, and nothing behind the input is touched. */
  method HttpUnchunk(body: array<Byte>, len: nat) returns (r: nat)
    requires len <= body.Length && len < U32
    modifies body
    ensures len == 0 ==> r == 0 && body[..] == old(body[..])
    ensures len > 0 ==> r < len && body[..r] == Decode(old(body[..len])) && body[r] == 0
    ensures body[len..] == old(body[len..])
  {
    hide Decode, DecodeBody;
    if len == 0 {
      return 0;
    }
    ghost var result := Decode(body[..len]);
    var src, dst := 0, 0;
    assert body[0..len] == body[..len];
    DecodeNothing();
    while src < len
      invariant dst <= src <= len && (dst == src ==> src == 0)
      invariant body[len..] == old(body[len..])
      invariant result == body[..dst] + Decode(body[src..len])
      invariant src == len ==> result == body[..dst]
      decreases len - src
    {
      var ok, size, data := ReadHeader(body, src, len);
      if !ok {
        assert result == body[..dst];
        break;
      }
      ghost var before := body[..];
      dst, src := MoveChunk(body, dst, data, size, len);
      assert body[len..] == body[src..][len - src..] == before[src..][len - src..] == before[len..];
      assert src == len ==> body[src..len] == [];
    }
    ghost var done := body[..dst];
    body[dst] := 0;
    return dst;
  }
}
