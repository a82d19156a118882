/** The text editor (apps/notepad.c) as a value: rows with a cursor, and the flat text with an offset that they
    stand for. */
module EditorText {
  import opened Bytes

  const MAX_ROWS: nat := 1000
  const MAX_COLS: nat := 256
  const NEWLINE: Byte := 10

  type Row = seq<Byte>

  /** How many rows the editor holds and how many bytes a row takes. */
  datatype Caps = Caps(rows: nat, cols: nat)

  /** One row and two columns stay unused. */
  const CAPS := Caps(MAX_ROWS - 1, MAX_COLS - 2)

  datatype Doc = Doc(rows: seq<Row>, cy: nat, cx: nat)

  datatype Key = Save | Enter | Delete | Backspace | Up | Down | Left | Right | Home | End
               | PageUp | PageDown | Char(b: Byte) | Wide(b1: Byte, b2: Byte) | Ignored

  /** The order in which `handle_key` looks at the character and the scan code. */
  function KeyOf(ascii: int, scancode: int): Key {
    if ascii == 19 || (ascii == 's' as int && scancode == 0x1F) then Save
    else if ascii == 10 || ascii == 13 || scancode == 0x1C then Enter
    else if scancode == 0x53 then Delete
    else if ascii == 8 || scancode == 0x0E then Backspace
    else if scancode == 0x48 then Up
    else if scancode == 0x50 then Down
    else if scancode == 0x4B then Left
    else if scancode == 0x4D then Right
    else if scancode == 0x47 then Home
    else if scancode == 0x4F then End
    else if scancode == 0x49 then PageUp
    else if scancode == 0x51 then PageDown
    else if 32 <= ascii <= 126 then Char(ascii)
    else if 0x0400 <= ascii <= 0x04FF then Wide(0xC0 + ascii / 64 % 32, 0x80 + ascii % 64)
    else Ignored
  }

  /** A printable character is typed as itself exactly off the control scan codes, and an `s` also off its own. */
  lemma PrintableKeys(ascii: int, scancode: int)
    requires 32 <= ascii <= 126
    ensures KeyOf(ascii, scancode) == Char(ascii) <==>
            scancode !in {0x1C, 0x53, 0x0E, 0x48, 0x50, 0x4B, 0x4D, 0x47, 0x4F, 0x49, 0x51}
            && !(ascii == 's' as int && scancode == 0x1F)
  {
  }

  /** Cyrillic letters are typed as the two bytes of their code point in UTF-8 (section 3 of RFC 3629): five bits behind
      110, six bits behind 10. */
  lemma WideKeys(ascii: int, scancode: int)
    requires 0x0400 <= ascii <= 0x04FF
    ensures KeyOf(ascii, scancode).Wide? <==>
            scancode !in {0x1C, 0x53, 0x0E, 0x48, 0x50, 0x4B, 0x4D, 0x47, 0x4F, 0x49, 0x51}
    ensures KeyOf(ascii, scancode).Wide? ==>
              var key := KeyOf(ascii, scancode);
              && 0xC0 <= key.b1 < 0xE0 && 0x80 <= key.b2 < 0xC0
              && (key.b1 - 0xC0) * 64 + (key.b2 - 0x80) == ascii
  {
  }

  /** What the scan codes of the cursor keys do to the cursor, whatever character comes with them. */
  lemma CursorKeys(d: Doc, ascii: int, visible: nat, caps: Caps)
    requires InRow(d) && ascii !in {8, 10, 13, 19}
    ensures var last := |d.rows| - 1;
            && Moves(d, ascii, 0x48, visible, caps, if d.cy > 0 then d.cy - 1 else 0, d.cx)
            && Moves(d, ascii, 0x50, visible, caps, if d.cy < last then d.cy + 1 else last, d.cx)
            && Moves(d, ascii, 0x49, visible, caps, if d.cy > visible then d.cy - visible else 0, d.cx)
            && Moves(d, ascii, 0x51, visible, caps, if d.cy + visible < last then d.cy + visible else last, d.cx)
            && Moves(d, ascii, 0x47, visible, caps, d.cy, 0)
            && Moves(d, ascii, 0x4F, visible, caps, d.cy, |d.rows[d.cy]|)
            && (d.cx > 0 ==> Moves(d, ascii, 0x4B, visible, caps, d.cy, d.cx - 1))
            && (d.cx < |d.rows[d.cy]| ==> Moves(d, ascii, 0x4D, visible, caps, d.cy, d.cx + 1))
  {
  }

  /** The key moves the cursor to row `y` and there to column `x` or to the end of the row. */
  predicate Moves(d: Doc, ascii: int, scancode: int, visible: nat, caps: Caps, y: nat, x: nat)
    requires InRow(d) && y < |d.rows|
  {
    var d' := Step(d, KeyOf(ascii, scancode), visible, caps);
    d'.rows == d.rows && d'.cy == y && d'.cx == if x <= |d.rows[y]| then x else |d.rows[y]|
  }

  /** The keys that edit, by character or by scan code. */
  lemma EditKeys(ascii: int, scancode: int)
    ensures KeyOf(ascii, scancode).Save? <==> ascii == 19 || (ascii == 's' as int && scancode == 0x1F)
    ensures KeyOf(ascii, scancode).Enter? <==> ascii != 19 && (ascii == 10 || ascii == 13 || scancode == 0x1C)
                                               && !(ascii == 's' as int && scancode == 0x1F)
    ensures KeyOf(ascii, scancode).Delete? <==> ascii !in {10, 13, 19} && scancode == 0x53
    ensures KeyOf(ascii, scancode).Backspace? <==>
            ascii !in {10, 13, 19} && scancode !in {0x1C, 0x53} && (ascii == 8 || scancode == 0x0E)
  {
  }

  predicate IsText(b: Byte) { b != NEWLINE }

  /** The cursor is inside its row. */
  predicate InRow(d: Doc) { d.cy < |d.rows| && d.cx <= |d.rows[d.cy]| }

  predicate RowsFit(rows: seq<Row>, caps: Caps) {
    |rows| <= caps.rows && forall r | r in rows :: |r| <= caps.cols
  }

  predicate Lines(rows: seq<Row>) { forall r | r in rows :: NEWLINE !in r }

  /** The cursor is inside its row, the caps hold, and rows contain no line feed. */
  predicate Inv(d: Doc, caps: Caps) { InRow(d) && RowsFit(d.rows, caps) && Lines(d.rows) }

  // ---------- the keys on rows ----------

  function Splice(r: Row, at: nat, remove: nat, insert: Row): (s: Row)
    requires at + remove <= |r|
    ensures |s| == |r| - remove + |insert|
  {
    r[..at] + insert + r[at + remove..]
  }

  function IsContinuation(b: Byte): bool { 0x80 <= b < 0xC0 }

  function Min(a: nat, b: nat): nat { if a < b then a else b }

  /** Insert one byte at a column, unless the row is full. */
  function InsertByte(rows: seq<Row>, y: nat, x: nat, b: Byte, caps: Caps): seq<Row>
    requires y < |rows|
  {
    var at := Min(x, |rows[y]|);
    if |rows[y]| >= caps.cols then rows else rows[y := Splice(rows[y], at, 0, [b])]
  }

  function InsertRow(rows: seq<Row>, at: nat, r: Row, caps: Caps): seq<Row>
    requires at <= |rows|
  {
    if |rows| >= caps.rows then rows else rows[..at] + [r] + rows[at..]
  }

  function RemoveRow(rows: seq<Row>, at: nat): seq<Row>
    requires at < |rows|
  {
    rows[..at] + rows[at + 1..]
  }

  /** Append row `y + 1` to row `y`. */
  function JoinRows(rows: seq<Row>, y: nat): seq<Row>
    requires y + 1 < |rows|
  {
    rows[..y] + [rows[y] + rows[y + 1]] + rows[y + 2..]
  }

  function EnterRows(d: Doc, caps: Caps): seq<Row>
    requires InRow(d)
  {
    var row := d.rows[d.cy];
    InsertRow(d.rows, d.cy + 1, row[d.cx..], caps)[d.cy := row[..d.cx]]
  }

  function Step(d: Doc, key: Key, visible: nat, caps: Caps): Doc
    requires InRow(d)
  {
    var row := d.rows[d.cy];
    match key
    case Enter => Doc(EnterRows(d, caps), d.cy + 1, 0)
    case Delete =>
      if d.cx < |row| then d.(rows := d.rows[d.cy := Splice(row, d.cx, 1, [])])
      else if d.cy + 1 < |d.rows| && |row| + |d.rows[d.cy + 1]| <= caps.cols then d.(rows := JoinRows(d.rows, d.cy))
      else d
    case Backspace =>
      if d.cx > 0 then
        var n := if d.cx >= 2 && IsContinuation(row[d.cx - 1]) then 2 else 1;
        Doc(d.rows[d.cy := Splice(row, d.cx - n, n, [])], d.cy, d.cx - n)
      else if d.cy > 0 && |d.rows[d.cy - 1]| + |row| <= caps.cols then
        Doc(JoinRows(d.rows, d.cy - 1), d.cy - 1, |d.rows[d.cy - 1]|)
      else d
    case Up => if d.cy > 0 then d.(cy := d.cy - 1, cx := Min(d.cx, |d.rows[d.cy - 1]|)) else d
    case Down => if d.cy + 1 < |d.rows| then d.(cy := d.cy + 1, cx := Min(d.cx, |d.rows[d.cy + 1]|)) else d
    case Left =>
      if d.cx > 0 then d.(cx := d.cx - 1) else if d.cy > 0 then d.(cy := d.cy - 1, cx := |d.rows[d.cy - 1]|) else d
    case Right =>
      if d.cx < |row| then d.(cx := d.cx + 1) else if d.cy + 1 < |d.rows| then d.(cy := d.cy + 1, cx := 0) else d
    case Home => d.(cx := 0)
    case End => d.(cx := |row|)
    case PageUp => var y := if d.cy < visible then 0 else d.cy - visible; d.(cy := y, cx := Min(d.cx, |d.rows[y]|))
    case PageDown => var y := Min(d.cy + visible, |d.rows| - 1); d.(cy := y, cx := Min(d.cx, |d.rows[y]|))
    case Char(b) => Doc(InsertByte(d.rows, d.cy, d.cx, b, caps), d.cy, d.cx + 1)
    case Wide(b1, b2) => Doc(InsertByte(InsertByte(d.rows, d.cy, d.cx, b1, caps), d.cy, d.cx + 1, b2, caps), d.cy,
                             d.cx + 2)
    case _ => d
  }

  /** The caps leave room for what the key asks for. */
  predicate Room(d: Doc, key: Key, caps: Caps)
    requires InRow(d)
  {
    var len := |d.rows[d.cy]|;
    match key
    case Enter => |d.rows| < caps.rows
    case Char(_) => len < caps.cols
    case Wide(_, _) => len + 1 < caps.cols
    case Delete => d.cx == len && d.cy + 1 < |d.rows| ==> len + |d.rows[d.cy + 1]| <= caps.cols
    case Backspace => d.cx == 0 && d.cy > 0 ==> |d.rows[d.cy - 1]| + len <= caps.cols
    case _ => true
  }

  // ---------- the flat text ----------

  datatype Flat = Flat(text: seq<Byte>, pos: nat)

  /** Rows with a line feed after each. */
  function Before(rows: seq<Row>): seq<Byte> {
    if |rows| == 0 then [] else rows[0] + [NEWLINE] + Before(rows[1..])
  }

  /** Rows with a line feed before each. */
  function After(rows: seq<Row>): seq<Byte> {
    if |rows| == 0 then [] else [NEWLINE] + rows[0] + After(rows[1..])
  }

  /** The rows joined by line feeds. */
  function Text(rows: seq<Row>): seq<Byte>
    requires |rows| > 0
  {
    rows[0] + After(rows[1..])
  }

  function Abs(d: Doc): (f: Flat)
    requires InRow(d)
    ensures f.pos <= |f.text|
  {
    TextAt(d.rows, d.cy);
    Flat(Text(d.rows), |Before(d.rows[..d.cy])| + d.cx)
  }

  function LineStart(t: seq<Byte>, p: nat): (s: nat)
    requires p <= |t|
    ensures s <= p
  {
    if p == 0 || t[p - 1] == NEWLINE then p else LineStart(t, p - 1)
  }

  function LineEnd(t: seq<Byte>, p: nat): (e: nat)
    requires p <= |t|
    ensures p <= e <= |t|
    decreases |t| - p
  {
    if p == |t| || t[p] == NEWLINE then p else LineEnd(t, p + 1)
  }

  /** The start of the line `n` lines above the one that starts at `s`, or of the first line. */
  function LinesUp(t: seq<Byte>, s: nat, n: nat): (r: nat)
    requires s <= |t|
    ensures r <= s
  {
    if n == 0 || s == 0 then s else LinesUp(t, LineStart(t, s - 1), n - 1)
  }

  /** The start of the line `n` lines below the one that starts at `s`, or of the last line. */
  function LinesDown(t: seq<Byte>, s: nat, n: nat): (r: nat)
    requires s <= |t|
    ensures s <= r <= |t|
    decreases n
  {
    var e := LineEnd(t, s);
    if n == 0 || e == |t| then s else LinesDown(t, e + 1, n - 1)
  }

  /** The same column in the line that starts at `start`, or its end. */
  function MoveTo(f: Flat, start: nat): (g: Flat)
    requires f.pos <= |f.text| && start <= |f.text|
    ensures g.pos <= |g.text|
  {
    f.(pos := start + Min(f.pos - LineStart(f.text, f.pos), LineEnd(f.text, start) - start))
  }

  /** What the keys mean on a flat text, without rows and without caps. */
  function FlatStep(f: Flat, key: Key, visible: nat): (g: Flat)
    requires f.pos <= |f.text|
    ensures g.pos <= |g.text|
  {
    var t, p := f.text, f.pos;
    var s := LineStart(t, p);
    match key
    case Enter => Flat(Splice(t, p, 0, [NEWLINE]), p + 1)
    case Char(b) => Flat(Splice(t, p, 0, [b]), p + 1)
    case Wide(b1, b2) => Flat(Splice(t, p, 0, [b1, b2]), p + 2)
    case Delete => if p < |t| then Flat(Splice(t, p, 1, []), p) else f
    case Backspace =>
      if p == 0 then f
      else
        var n := if p >= s + 2 && IsContinuation(t[p - 1]) then 2 else 1;
        Flat(Splice(t, p - n, n, []), p - n)
    case Left => if p > 0 then f.(pos := p - 1) else f
    case Right => if p < |t| then f.(pos := p + 1) else f
    case Home => f.(pos := s)
    case End => f.(pos := LineEnd(t, p))
    case Up => MoveTo(f, LinesUp(t, s, 1))
    case Down => MoveTo(f, LinesDown(t, s, 1))
    case PageUp => MoveTo(f, LinesUp(t, s, visible))
    case PageDown => MoveTo(f, LinesDown(t, s, visible))
    case _ => f
  }

  // ---------- rows and text ----------

  lemma {:induction false} BeforeConcat(a: seq<Row>, b: seq<Row>)
    ensures Before(a + b) == Before(a) + Before(b)
    decreases |a|
  {
    if |a| == 0 {
      assert a + b == b;
    } else {
      assert (a + b)[1..] == a[1..] + b;
      BeforeConcat(a[1..], b);
    }
  }

  lemma {:induction false} AfterConcat(a: seq<Row>, b: seq<Row>)
    ensures After(a + b) == After(a) + After(b)
    decreases |a|
  {
    if |a| == 0 {
      assert a + b == b;
    } else {
      assert (a + b)[1..] == a[1..] + b;
      AfterConcat(a[1..], b);
    }
  }

  /** The text around a row. */
  lemma {:induction false} TextAround(a: seq<Row>, r: Row, b: seq<Row>)
    ensures Text(a + [r] + b) == Before(a) + r + After(b)
    decreases |a|
  {
    var rows := a + [r] + b;
    if |a| == 0 {
      assert rows == [r] + b;
      assert rows[1..] == b;
      assert Before(a) + r + After(b) == r + After(b);
    } else {
      var rest := a[1..] + [r] + b;
      assert rows[1..] == rest;
      TextAround(a[1..], r, b);
      assert After(rest) == [NEWLINE] + Text(rest);
      assert Before(a) == a[0] + [NEWLINE] + Before(a[1..]);
      assert a[0] + ([NEWLINE] + (Before(a[1..]) + r + After(b))) == a[0] + [NEWLINE] + Before(a[1..]) + r + After(b);
    }
  }

  lemma TextAt(rows: seq<Row>, y: nat)
    requires y < |rows|
    ensures Text(rows) == Before(rows[..y]) + rows[y] + After(rows[y + 1..])
  {
    assert rows == rows[..y] + [rows[y]] + rows[y + 1..];
    TextAround(rows[..y], rows[y], rows[y + 1..]);
  }

  lemma {:induction false} LineStartIs(a: seq<Byte>, r: Row, c: seq<Byte>, x: nat)
    requires NEWLINE !in r && x <= |r| && (|a| == 0 || a[|a| - 1] == NEWLINE)
    ensures LineStart(a + r + c, |a| + x) == |a|
    decreases x
  {
    var t := a + r + c;
    if x == 0 {
      assert |a| != 0 ==> t[|a| - 1] == a[|a| - 1];
    } else {
      assert t[|a| + x - 1] == r[x - 1] && r[x - 1] in r;
      LineStartIs(a, r, c, x - 1);
    }
  }

  lemma {:induction false} LineEndIs(a: seq<Byte>, r: Row, c: seq<Byte>, x: nat)
    requires NEWLINE !in r && x <= |r| && (|c| == 0 || c[0] == NEWLINE)
    ensures LineEnd(a + r + c, |a| + x) == |a| + |r|
    decreases |r| - x
  {
    var t := a + r + c;
    if x == |r| {
      assert |c| != 0 ==> t[|a| + x] == c[0];
    } else {
      assert t[|a| + x] == r[x] && r[x] in r;
      LineEndIs(a, r, c, x + 1);
    }
  }

  lemma BeforeLast(a: seq<Row>)
    ensures |a| == 0 <==> |Before(a)| == 0
    ensures |a| > 0 ==> Before(a) == Before(a[..|a| - 1]) + a[|a| - 1] + [NEWLINE]
  {
    if |a| > 0 {
      var l := a[|a| - 1];
      assert a == a[..|a| - 1] + [l];
      BeforeConcat(a[..|a| - 1], [l]);
      var one: seq<Row> := [l];
      assert one[1..] == [];
      assert Before(one) == l + [NEWLINE] + [];
      assert Before(a) == Before(a[..|a| - 1]) + (l + [NEWLINE]);
    }
  }

  lemma AfterFirst(b: seq<Row>)
    ensures |b| == 0 <==> |After(b)| == 0
    ensures |b| > 0 ==> After(b) == [NEWLINE] + b[0] + After(b[1..]) && After(b)[0] == NEWLINE
  {
  }

  /** The text of a document around its cursor row, and the ends of that line. */
  lemma Geometry(rows: seq<Row>, y: nat, x: nat)
    requires y < |rows| && x <= |rows[y]| && Lines(rows)
    ensures var a, r, c := Before(rows[..y]), rows[y], After(rows[y + 1..]);
            && Text(rows) == a + r + c && LineStart(a + r + c, |a| + x) == |a|
            && LineEnd(a + r + c, |a| + x) == |a| + |r|
            && (y == 0 <==> |a| == 0) && (y + 1 == |rows| <==> |c| == 0)
            && (y > 0 ==> a == Before(rows[..y - 1]) + rows[y - 1] + [NEWLINE])
            && (y + 1 < |rows| ==> c == [NEWLINE] + rows[y + 1] + After(rows[y + 2..]))
  {
    hide Text, LineStart, LineEnd, Before, After;
    var a, r, c := Before(rows[..y]), rows[y], After(rows[y + 1..]);
    TextAt(rows, y);
    assert r in rows;
    BeforeLast(rows[..y]);
    AfterFirst(rows[y + 1..]);
    if y > 0 {
      assert rows[..y][..y - 1] == rows[..y - 1];
    }
    if y + 1 < |rows| {
      assert rows[y + 1..][1..] == rows[y + 2..];
    }
    LineStartIs(a, r, c, x);
    LineEndIs(a, r, c, x);
  }

  lemma SpliceMiddle(a: seq<Byte>, r: Row, c: seq<Byte>, at: nat, n: nat, insert: Row)
    requires at + n <= |r|
    ensures Splice(a + r + c, |a| + at, n, insert) == a + Splice(r, at, n, insert) + c
  {
    var t := a + r + c;
    assert t[..|a| + at] == a + r[..at];
    assert t[|a| + at + n..] == r[at + n..] + c;
  }

  /** Changing one row. */
  lemma EditRow(rows: seq<Row>, y: nat, at: nat, n: nat, insert: Row)
    requires y < |rows| && at + n <= |rows[y]|
    ensures |Before(rows[..y])| + at + n <= |Text(rows)|
    ensures var rows' := rows[y := Splice(rows[y], at, n, insert)];
            && Text(rows') == Splice(Text(rows), |Before(rows[..y])| + at, n, insert)
            && rows'[..y] == rows[..y]
  {
    hide Text, Before, After, Splice;
    var r' := Splice(rows[y], at, n, insert);
    var rows' := rows[y := r'];
    TextAt(rows, y);
    TextAt(rows', y);
    assert rows'[..y] == rows[..y] && rows'[y + 1..] == rows[y + 1..];
    SpliceMiddle(Before(rows[..y]), rows[y], After(rows[y + 1..]), at, n, insert);
  }

  /** Joining two rows takes out the line feed between them. */
  lemma JoinText(rows: seq<Row>, y: nat)
    requires y + 1 < |rows|
    ensures var p := |Before(rows[..y])| + |rows[y]|;
            && p + 1 <= |Text(rows)| && Text(JoinRows(rows, y)) == Splice(Text(rows), p, 1, [])
            && JoinRows(rows, y)[..y] == rows[..y]
  {
    hide Text, Before, After;
    var rows' := JoinRows(rows, y);
    TextAt(rows, y);
    TextAt(rows', y);
    assert rows'[..y] == rows[..y] && rows'[y + 1..] == rows[y + 2..];
    AfterFirst(rows[y + 1..]);
    assert rows[y + 1..][1..] == rows[y + 2..];
    var a, r := Before(rows[..y]), rows[y];
    var rest := rows[y + 1] + After(rows[y + 2..]);
    var t := Text(rows);
    assert t == (a + r) + [NEWLINE] + rest;
    assert t[..|a| + |r|] == a + r;
    assert t[|a| + |r| + 1..] == rest;
    assert Text(rows') == (a + r) + rest;
  }

  /** Splitting a row puts a line feed at the cursor. */
  lemma EnterText(d: Doc, caps: Caps)
    requires InRow(d) && |d.rows| < caps.rows
    ensures var p := |Before(d.rows[..d.cy])| + d.cx;
            && p <= |Text(d.rows)| && Text(EnterRows(d, caps)) == Splice(Text(d.rows), p, 0, [NEWLINE])
            && |Before(EnterRows(d, caps)[..d.cy + 1])| == p + 1
            && EnterRows(d, caps) == d.rows[..d.cy] + [d.rows[d.cy][..d.cx], d.rows[d.cy][d.cx..]] + d.rows[d.cy + 1..]
  {
    hide Text, Before, After;
    var y, row := d.cy, d.rows[d.cy];
    var left, right := row[..d.cx], row[d.cx..];
    var rows' := EnterRows(d, caps);
    assert rows' == d.rows[..y] + [left, right] + d.rows[y + 1..];
    TextAt(d.rows, y);
    TextAt(rows', y);
    assert rows'[..y] == d.rows[..y] && rows'[y] == left && rows'[y + 1..] == [right] + d.rows[y + 1..];
    AfterFirst(rows'[y + 1..]);
    assert rows'[y + 1..][1..] == d.rows[y + 1..];
    var a, c := Before(d.rows[..y]), After(d.rows[y + 1..]);
    assert row == left + right;
    var t := Text(d.rows);
    assert t == (a + left) + (right + c);
    assert t[..|a| + d.cx] == a + left && t[|a| + d.cx..] == right + c;
    assert Text(rows') == (a + left) + [NEWLINE] + (right + c);
    BeforeLast(rows'[..y + 1]);
    assert rows'[..y + 1][..y] == d.rows[..y];
  }

  // ---------- each key ----------

  /** A key has the effect of the matching edit on the flat text, and leaves the cursor inside its row. */
  predicate Refines(d: Doc, key: Key, visible: nat, caps: Caps)
    requires Inv(d, caps)
  {
    var d' := Step(d, key, visible, caps);
    InRow(d') && Abs(d') == FlatStep(Abs(d), key, visible)
  }

  lemma CharRefines(d: Doc, b: Byte, visible: nat, caps: Caps)
    requires Inv(d, caps) && Room(d, Char(b), caps)
    ensures Refines(d, Char(b), visible, caps)
  {
    hide Text, Before, LineStart, LineEnd;
    EditRow(d.rows, d.cy, d.cx, 0, [b]);
  }

  lemma WideRefines(d: Doc, b1: Byte, b2: Byte, visible: nat, caps: Caps)
    requires Inv(d, caps) && Room(d, Wide(b1, b2), caps)
    ensures Refines(d, Wide(b1, b2), visible, caps)
  {
    hide Text, Before, LineStart, LineEnd, After, Splice, RowsFit, Lines, LinesUp, LinesDown, MoveTo;
    TwoBytes(d.rows, d.cy, d.cx, b1, b2);
    EditRow(d.rows, d.cy, d.cx, 0, [b1, b2]);
  }

  lemma TwoBytes(rows: seq<Row>, y: nat, x: nat, b1: Byte, b2: Byte)
    requires y < |rows| && x <= |rows[y]|
    ensures var one := Splice(rows[y], x, 0, [b1]);
            rows[y := one][y := Splice(one, x + 1, 0, [b2])] == rows[y := Splice(rows[y], x, 0, [b1, b2])]
  {
    var one := Splice(rows[y], x, 0, [b1]);
    assert Splice(one, x + 1, 0, [b2]) == Splice(rows[y], x, 0, [b1, b2]);
  }

  lemma DeleteRefines(d: Doc, visible: nat, caps: Caps)
    requires Inv(d, caps) && Room(d, Delete, caps)
    ensures Refines(d, Delete, visible, caps)
  {
    hide Text, Before, LineStart, LineEnd, After, Splice, RowsFit, Min, LinesUp, LinesDown, MoveTo;
    Geometry(d.rows, d.cy, d.cx);
    if d.cx < |d.rows[d.cy]| {
      EditRow(d.rows, d.cy, d.cx, 1, []);
    } else if d.cy + 1 < |d.rows| {
      JoinText(d.rows, d.cy);
    }
  }

  lemma BackspaceRefines(d: Doc, visible: nat, caps: Caps)
    requires Inv(d, caps) && Room(d, Backspace, caps)
    ensures Refines(d, Backspace, visible, caps)
  {
    hide Text, Before, LineStart, LineEnd, After, Splice, RowsFit, Min, LinesUp, LinesDown, MoveTo;
    Geometry(d.rows, d.cy, d.cx);
    var row := d.rows[d.cy];
    if d.cx > 0 {
      var n := if d.cx >= 2 && IsContinuation(row[d.cx - 1]) then 2 else 1;
      EditRow(d.rows, d.cy, d.cx - n, n, []);
      assert Text(d.rows)[|Before(d.rows[..d.cy])| + d.cx - 1] == row[d.cx - 1];
    } else if d.cy > 0 {
      JoinText(d.rows, d.cy - 1);
      assert JoinRows(d.rows, d.cy - 1)[..d.cy - 1] == d.rows[..d.cy - 1];
    }
  }

  lemma EnterRefines(d: Doc, visible: nat, caps: Caps)
    requires Inv(d, caps) && Room(d, Enter, caps)
    ensures Refines(d, Enter, visible, caps)
  {
    hide Text, Before, LineStart, LineEnd, Splice;
    EnterText(d, caps);
  }

  lemma MoveRefines(d: Doc, key: Key, visible: nat, caps: Caps)
    requires Inv(d, caps) && (key.Left? || key.Right? || key.Home? || key.End?)
    ensures Refines(d, key, visible, caps)
  {
    hide Text, Before, LineStart, LineEnd, After, Splice, RowsFit, EnterRows, JoinRows, InsertByte, LinesUp, LinesDown,
         MoveTo;
    Geometry(d.rows, d.cy, d.cx);
    if d.cy + 1 < |d.rows| {
      BeforeLast(d.rows[..d.cy + 1]);
      assert d.rows[..d.cy + 1][..d.cy] == d.rows[..d.cy];
    }
  }

  lemma {:induction false} LinesUpIs(rows: seq<Row>, y: nat, n: nat)
    requires y < |rows| && Lines(rows)
    ensures |Before(rows[..y])| <= |Text(rows)|
    ensures LinesUp(Text(rows), |Before(rows[..y])|, n) == |Before(rows[..if y < n then 0 else y - n])|
    decreases n
  {
    hide Text, Before, LineStart, LineEnd, After;
    Geometry(rows, y, 0);
    if n > 0 && y > 0 {
      Geometry(rows, y - 1, |rows[y - 1]|);
      LinesUpIs(rows, y - 1, n - 1);
    }
  }

  lemma {:induction false} LinesDownIs(rows: seq<Row>, y: nat, n: nat)
    requires y < |rows| && Lines(rows)
    ensures |Before(rows[..y])| <= |Text(rows)|
    ensures LinesDown(Text(rows), |Before(rows[..y])|, n) == |Before(rows[..Min(y + n, |rows| - 1)])|
    decreases n
  {
    hide Text, Before, LineStart, LineEnd, After;
    Geometry(rows, y, 0);
    if n > 0 && y + 1 < |rows| {
      Geometry(rows, y + 1, 0);
      LinesDownIs(rows, y + 1, n - 1);
    }
  }

  lemma MoveToRow(d: Doc, y: nat)
    requires InRow(d) && y < |d.rows| && Lines(d.rows)
    ensures |Before(d.rows[..y])| <= |Text(d.rows)|
    ensures MoveTo(Abs(d), |Before(d.rows[..y])|) == Abs(Doc(d.rows, y, Min(d.cx, |d.rows[y]|)))
  {
    hide Text, Before, LineStart, LineEnd, After;
    Geometry(d.rows, d.cy, d.cx);
    Geometry(d.rows, y, 0);
  }

  /** The rows above and below the cursor, as the flat text sees them. */
  lemma VerticalTargets(d: Doc, n: nat)
    requires InRow(d) && Lines(d.rows)
    ensures var f := Abs(d); var s := LineStart(f.text, f.pos);
            && LinesUp(f.text, s, n) == |Before(d.rows[..if d.cy < n then 0 else d.cy - n])|
            && LinesDown(f.text, s, n) == |Before(d.rows[..Min(d.cy + n, |d.rows| - 1)])|
  {
    hide Text, Before, LineStart, LineEnd, After, LinesUp, LinesDown;
    Geometry(d.rows, d.cy, d.cx);
    LinesUpIs(d.rows, d.cy, n);
    LinesDownIs(d.rows, d.cy, n);
  }

  lemma VerticalRefines(d: Doc, key: Key, visible: nat, caps: Caps)
    requires Inv(d, caps) && (key.Up? || key.Down? || key.PageUp? || key.PageDown?)
    ensures Refines(d, key, visible, caps)
  {
    hide Abs, Text, Before, LineStart, LineEnd, LinesUp, LinesDown, MoveTo, Lines, RowsFit;
    var n := if key.Up? || key.Down? then 1 else visible;
    VerticalTargets(d, n);
    if key.Up? || key.PageUp? {
      MoveToRow(d, if d.cy < n then 0 else d.cy - n);
    } else {
      MoveToRow(d, Min(d.cy + n, |d.rows| - 1));
    }
  }

  /** Where the caps leave room, every key has the effect of the matching edit on the flat text. */
  lemma KeyRefines(d: Doc, key: Key, visible: nat, caps: Caps)
    requires Inv(d, caps) && Room(d, key, caps)
    ensures Refines(d, key, visible, caps)
  {
    hide Abs, FlatStep, Room;
    match key {
      case Enter => EnterRefines(d, visible, caps);
      case Char(b) => CharRefines(d, b, visible, caps);
      case Wide(b1, b2) => WideRefines(d, b1, b2, visible, caps);
      case Delete => DeleteRefines(d, visible, caps);
      case Backspace => BackspaceRefines(d, visible, caps);
      case Left => MoveRefines(d, key, visible, caps);
      case Right => MoveRefines(d, key, visible, caps);
      case Home => MoveRefines(d, key, visible, caps);
      case End => MoveRefines(d, key, visible, caps);
      case Save => StayRefines(d, key, visible, caps);
      case Ignored => StayRefines(d, key, visible, caps);
      case _ => VerticalRefines(d, key, visible, caps);
    }
  }

  lemma StayRefines(d: Doc, key: Key, visible: nat, caps: Caps)
    requires Inv(d, caps) && (key.Save? || key.Ignored?)
    ensures Refines(d, key, visible, caps)
  {
  }

  // ---------- exactly when, and over whole runs ----------

  /** A key that types no line feed. */
  predicate TextKey(key: Key) {
    match key
    case Char(b) => IsText(b)
    case Wide(b1, b2) => IsText(b1) && IsText(b2)
    case _ => true
  }

  /** No keystroke types a line feed as a character. */
  lemma KeysAreText(ascii: int, scancode: int)
    ensures TextKey(KeyOf(ascii, scancode))
  {
  }

  lemma SpliceLine(r: Row, at: nat, n: nat, insert: Row)
    requires at + n <= |r| && NEWLINE !in r && NEWLINE !in insert
    ensures NEWLINE !in Splice(r, at, n, insert)
  {
  }

  lemma SetRow(rows: seq<Row>, y: nat, r: Row, caps: Caps)
    requires y < |rows| && RowsFit(rows, caps) && Lines(rows) && |r| <= caps.cols && NEWLINE !in r
    ensures RowsFit(rows[y := r], caps) && Lines(rows[y := r])
  {
  }

  lemma JoinFits(rows: seq<Row>, y: nat, caps: Caps)
    requires y + 1 < |rows| && RowsFit(rows, caps) && Lines(rows) && |rows[y]| + |rows[y + 1]| <= caps.cols
    ensures RowsFit(JoinRows(rows, y), caps) && Lines(JoinRows(rows, y))
  {
    assert rows[y] in rows && rows[y + 1] in rows;
    forall r | r in JoinRows(rows, y) ensures |r| <= caps.cols && NEWLINE !in r {
      if r !in rows {
        assert r == rows[y] + rows[y + 1];
      }
    }
  }

  lemma EnterFits(d: Doc, caps: Caps)
    requires Inv(d, caps)
    ensures RowsFit(EnterRows(d, caps), caps) && Lines(EnterRows(d, caps))
  {
    var row := d.rows[d.cy];
    assert row in d.rows;
    assert row == row[..d.cx] + row[d.cx..];
    var more := InsertRow(d.rows, d.cy + 1, row[d.cx..], caps);
    assert forall r | r in more :: r in d.rows || r == row[d.cx..];
    SetRow(more, d.cy, row[..d.cx], caps);
  }

  /** Rows stay within the caps and free of line feeds whatever is typed; with room the cursor stays inside its row. */
  lemma StepInv(d: Doc, key: Key, visible: nat, caps: Caps)
    requires Inv(d, caps) && TextKey(key)
    ensures var d' := Step(d, key, visible, caps);
            RowsFit(d'.rows, caps) && Lines(d'.rows) && (Room(d, key, caps) ==> Inv(d', caps))
  {
    hide RowsFit, Lines, Splice, EnterRows, JoinRows, InsertByte;
    var y := d.cy;
    match key {
      case Enter =>
        EnterFits(d, caps);
        EnterShape(d, caps);
      case Char(b) => TypedFits(d.rows, y, d.cx, b, caps);
      case Wide(b1, b2) =>
        TypedFits(d.rows, y, d.cx, b1, caps);
        TypedFits(InsertByte(d.rows, y, d.cx, b1, caps), y, d.cx + 1, b2, caps);
      case Delete => DeleteInv(d, visible, caps);
      case Backspace => BackspaceInv(d, visible, caps);
      case _ =>
    }
  }

  lemma DeleteInv(d: Doc, visible: nat, caps: Caps)
    requires Inv(d, caps)
    ensures Inv(Step(d, Delete, visible, caps), caps)
  {
    hide RowsFit, Lines, Splice, JoinRows;
    var y, row := d.cy, d.rows[d.cy];
    RowOf(d.rows, y, caps);
    if d.cx < |row| {
      SpliceLine(row, d.cx, 1, []);
      SetRow(d.rows, y, Splice(row, d.cx, 1, []), caps);
    } else if y + 1 < |d.rows| && |row| + |d.rows[y + 1]| <= caps.cols {
      JoinFits(d.rows, y, caps);
      JoinShape(d.rows, y);
    }
  }

  lemma BackspaceInv(d: Doc, visible: nat, caps: Caps)
    requires Inv(d, caps)
    ensures Inv(Step(d, Backspace, visible, caps), caps)
  {
    hide RowsFit, Lines, Splice, JoinRows;
    var y, row := d.cy, d.rows[d.cy];
    RowOf(d.rows, y, caps);
    if d.cx > 0 {
      var n := if d.cx >= 2 && IsContinuation(row[d.cx - 1]) then 2 else 1;
      SpliceLine(row, d.cx - n, n, []);
      SetRow(d.rows, y, Splice(row, d.cx - n, n, []), caps);
    } else if y > 0 && |d.rows[y - 1]| + |row| <= caps.cols {
      JoinFits(d.rows, y - 1, caps);
      JoinShape(d.rows, y - 1);
    }
  }

  lemma RowOf(rows: seq<Row>, y: nat, caps: Caps)
    requires y < |rows| && RowsFit(rows, caps) && Lines(rows)
    ensures |rows[y]| <= caps.cols && NEWLINE !in rows[y]
  {
    assert rows[y] in rows;
  }

  lemma TypedFits(rows: seq<Row>, y: nat, x: nat, b: Byte, caps: Caps)
    requires y < |rows| && RowsFit(rows, caps) && Lines(rows) && IsText(b)
    ensures var rows' := InsertByte(rows, y, x, b, caps);
            && RowsFit(rows', caps) && Lines(rows') && |rows'| == |rows|
            && |rows'[y]| == if |rows[y]| >= caps.cols then |rows[y]| else |rows[y]| + 1
  {
    hide RowsFit, Lines;
    RowOf(rows, y, caps);
    if |rows[y]| < caps.cols {
      var at := Min(x, |rows[y]|);
      SpliceLine(rows[y], at, 0, [b]);
      SetRow(rows, y, Splice(rows[y], at, 0, [b]), caps);
    }
  }

  lemma EnterShape(d: Doc, caps: Caps)
    requires InRow(d)
    ensures |EnterRows(d, caps)| == |d.rows| + if |d.rows| < caps.rows then 1 else 0
  {
  }

  lemma JoinShape(rows: seq<Row>, y: nat)
    requires y + 1 < |rows|
    ensures |JoinRows(rows, y)| == |rows| - 1 && JoinRows(rows, y)[y] == rows[y] + rows[y + 1]
  {
  }

  /** The lines of a flat text. */
  function Split(t: seq<Byte>): (rows: seq<Row>)
    decreases |t|
  {
    var e := LineEnd(t, 0);
    if e == |t| then [t] else [t[..e]] + Split(t[e + 1..])
  }

  predicate Fits(t: seq<Byte>, caps: Caps) { RowsFit(Split(t), caps) }

  lemma SplitLine(r: Row, rest: seq<Byte>)
    requires NEWLINE !in r
    ensures Split(r) == [r] && Split(r + ([NEWLINE] + rest)) == [r] + Split(rest)
  {
    hide LineEnd;
    assert [] + r + [] == r && [] + r + ([NEWLINE] + rest) == r + ([NEWLINE] + rest);
    LineEndIs([], r, [], 0);
    LineEndIs([], r, [NEWLINE] + rest, 0);
    var t := r + ([NEWLINE] + rest);
    assert t[..|r|] == r && t[|r| + 1..] == rest;
  }

  lemma {:induction false} SplitText(rows: seq<Row>)
    requires |rows| > 0 && Lines(rows)
    ensures Split(Text(rows)) == rows
    decreases |rows|
  {
    hide Split;
    assert rows[0] in rows;
    if |rows| == 1 {
      SplitLine(rows[0], []);
      assert Text(rows) == rows[0] && rows == [rows[0]];
    } else {
      var rest := rows[1..];
      SplitLine(rows[0], Text(rest));
      SplitText(rest);
      assert After(rest) == [NEWLINE] + Text(rest);
      assert rows == [rows[0]] + rest;
    }
  }

  /** Without the caps the same key would have left rows that exceed them. */
  lemma Overflows(d: Doc, key: Key, visible: nat, caps: Caps, wide: Caps)
    requires Inv(d, caps) && !Room(d, key, caps) && Room(d, key, wide) && wide.cols > caps.cols && wide.rows > caps.rows
    ensures !RowsFit(Step(d, key, visible, wide).rows, caps)
  {
    hide Splice, JoinRows, EnterRows;
    var y, rows' := d.cy, Step(d, key, visible, wide).rows;
    RowOf(d.rows, y, caps);
    match key {
      case Enter => EnterShape(d, wide);
      case Char(b) => assert rows'[y] in rows';
      case Wide(b1, b2) => assert rows'[y] in rows';
      case Delete =>
        JoinShape(d.rows, y);
        assert rows'[y] in rows';
      case Backspace =>
        JoinShape(d.rows, y - 1);
        assert rows'[y - 1] in rows';
    }
  }

  function Wider(caps: Caps): Caps { Caps(caps.rows + 1, 2 * caps.cols + 2) }

  lemma WiderRoom(d: Doc, key: Key, caps: Caps)
    requires Inv(d, caps)
    ensures Inv(d, Wider(caps)) && Room(d, key, Wider(caps))
  {
    RowOf(d.rows, d.cy, caps);
    if d.cy + 1 < |d.rows| { RowOf(d.rows, d.cy + 1, caps); }
    if d.cy > 0 { RowOf(d.rows, d.cy - 1, caps); }
  }

  /**
    * The editor does what the flat edit says exactly where its caps leave room,
    * which is exactly where the edited text itself fits the caps.
    */
  lemma ExactlyWithRoom(d: Doc, key: Key, visible: nat, caps: Caps)
    requires Inv(d, caps) && TextKey(key)
    ensures Refines(d, key, visible, caps) <==> Room(d, key, caps)
    ensures Room(d, key, caps) <==> Fits(FlatStep(Abs(d), key, visible).text, caps)
  {
    hide FlatStep, Text, Step, RowsFit, Lines, Split, Room;
    var d' := Step(d, key, visible, caps);
    StepInv(d, key, visible, caps);
    var wide := Wider(caps);
    var w := Step(d, key, visible, wide);
    WiderRoom(d, key, caps);
    StepInv(d, key, visible, wide);
    KeyRefines(d, key, visible, wide);
    SplitText(w.rows);
    if Room(d, key, caps) {
      KeyRefines(d, key, visible, caps);
      SplitText(d'.rows);
    } else {
      Overflows(d, key, visible, caps, wide);
      if Refines(d, key, visible, caps) {
        SplitText(d'.rows);
      }
    }
  }

  /** A run of keys; it stops once the caps were overrun. */
  function Run(d: Doc, keys: seq<Key>, visible: nat, caps: Caps): Doc
    decreases |keys|
  {
    if |keys| == 0 || !Inv(d, caps) then d else Run(Step(d, keys[0], visible, caps), keys[1..], visible, caps)
  }

  function FlatRun(f: Flat, keys: seq<Key>, visible: nat): (g: Flat)
    requires f.pos <= |f.text|
    ensures g.pos <= |g.text|
    decreases |keys|
  {
    if |keys| == 0 then f else FlatRun(FlatStep(f, keys[0], visible), keys[1..], visible)
  }

  /** Every text along a flat run fits the caps. */
  predicate FitsAlong(f: Flat, keys: seq<Key>, visible: nat, caps: Caps)
    requires f.pos <= |f.text|
    decreases |keys|
  {
    |keys| == 0 ||
    (var g := FlatStep(f, keys[0], visible); Fits(g.text, caps) && FitsAlong(g, keys[1..], visible, caps))
  }

  /** As long as the text fits the caps, any sequence of keys leaves the rows that the flat edits leave. */
  lemma {:induction false} RunRefines(d: Doc, keys: seq<Key>, visible: nat, caps: Caps)
    requires Inv(d, caps) && (forall k | k in keys :: TextKey(k)) && FitsAlong(Abs(d), keys, visible, caps)
    ensures var d' := Run(d, keys, visible, caps);
            && Inv(d', caps) && Abs(d') == FlatRun(Abs(d), keys, visible)
            && d'.rows == Split(FlatRun(Abs(d), keys, visible).text)
    decreases |keys|
  {
    hide Abs, FlatStep, Step, Fits, Room, RowsFit, Lines;
    if |keys| == 0 {
      RowsOfText(d, caps);
    } else {
      assert keys[0] in keys;
      ExactlyWithRoom(d, keys[0], visible, caps);
      StepInv(d, keys[0], visible, caps);
      RunRefines(Step(d, keys[0], visible, caps), keys[1..], visible, caps);
    }
  }

  /** A full row: the byte is refused, and the cursor moves on. */
  lemma RowOverrun(b: Byte, visible: nat)
    requires IsText(b)
    ensures var d := Doc([seq(CAPS.cols, _ => 65)], 0, CAPS.cols);
            && Inv(d, CAPS) && !Room(d, Char(b), CAPS) && !Refines(d, Char(b), visible, CAPS)
            && !InRow(Step(d, Char(b), visible, CAPS))
  {
    hide Refines;
    var row: Row := seq(CAPS.cols, _ => 65);
    var d := Doc([row], 0, CAPS.cols);
    assert Inv(d, CAPS) by { OneRow(row); }
    ExactlyWithRoom(d, Char(b), visible, CAPS);
  }

  /** A row takes up to 254 bytes and the document up to 999 rows. */
  lemma CapsExact(n: nat, b: Byte)
    ensures var row: Row := seq(n, _ => 65);
            InsertByte([row], 0, n, b, CAPS) == (if n < 254 then [row + [b]] else [row])
    ensures var rows: seq<Row> := seq(n, _ => []);
            InsertRow(rows, n, [b], CAPS) == (if n < 999 then rows + [[b]] else rows)
  {
    var row: Row := seq(n, _ => 65);
    assert Splice(row, n, 0, [b]) == row + [b];
  }

  lemma OneRow(row: Row)
    requires |row| <= CAPS.cols && NEWLINE !in row
    ensures Inv(Doc([row], 0, |row|), CAPS)
  {
  }

  /** A full document: what stands behind the cursor is lost. */
  lemma DocumentOverrun(visible: nat)
    ensures var d := Doc([[65]] + seq(CAPS.rows - 1, _ => []), 0, 0);
            && Inv(d, CAPS) && !Room(d, Enter, CAPS) && !Refines(d, Enter, visible, CAPS)
            && Step(d, Enter, visible, CAPS).rows == seq(CAPS.rows, _ => [])
  {
    hide Refines;
    var rows: seq<Row> := [[65]] + seq(CAPS.rows - 1, _ => []);
    var d := Doc(rows, 0, 0);
    assert rows[0][..0] == [];
    ExactlyWithRoom(d, Enter, visible, CAPS);
  }

  lemma RowsOfText(d: Doc, caps: Caps)
    requires Inv(d, caps)
    ensures d.rows == Split(Abs(d).text)
  {
    SplitText(d.rows);
  }

  // ---------- files ----------

  const RETURN: Byte := 13

  /** Lines without a line feed are broken here. */
  const WRAP: nat := 72

  /** Control bytes become dots and bytes outside ASCII question marks. */
  function Clean(b: Byte): Byte {
    if b == 0 then 46 else if b < 32 && b != 9 then 46 else if b > 126 then 63 else b
  }

  /** What loading makes of the bytes still to come, with the rows and the partial line so far. */
  function LoadFrom(rows: seq<Row>, line: Row, data: seq<Byte>): seq<Row>
    requires |rows| < CAPS.rows && |line| < WRAP
    decreases |data|
  {
    if |data| == 0 then
      if |line| > 0 || |rows| == 0 then InsertRow(rows, |rows|, line, CAPS) else rows
    else if data[0] == RETURN then LoadFrom(rows, line, data[1..])
    else
      var typed := if data[0] == NEWLINE then line else line + [Clean(data[0])];
      if data[0] != NEWLINE && |typed| < WRAP then LoadFrom(rows, typed, data[1..])
      else
        var more := InsertRow(rows, |rows|, typed, CAPS);
        if |more| >= CAPS.rows then more else LoadFrom(more, [], data[1..])
  }

  /** Whatever the file holds, loading it leaves a document with the invariant. */
  lemma {:induction false} LoadInv(rows: seq<Row>, line: Row, data: seq<Byte>)
    requires |rows| < CAPS.rows && |line| < WRAP && RowsFit(rows, CAPS) && Lines(rows) && NEWLINE !in line
    ensures Inv(Doc(LoadFrom(rows, line, data), 0, 0), CAPS)
    decreases |data|
  {
    hide RowsFit, Lines;
    AddRow(rows, line);
    if |data| > 0 {
      var typed := if data[0] == NEWLINE then line else line + [Clean(data[0])];
      AddRow(rows, typed);
      if data[0] == RETURN {
        LoadInv(rows, line, data[1..]);
      } else if data[0] != NEWLINE && |typed| < WRAP {
        LoadInv(rows, typed, data[1..]);
      } else if |rows| + 1 < CAPS.rows {
        LoadInv(InsertRow(rows, |rows|, typed, CAPS), [], data[1..]);
      }
    }
  }

  lemma AddRow(rows: seq<Row>, line: Row)
    requires |rows| < CAPS.rows && |line| <= WRAP && RowsFit(rows, CAPS) && Lines(rows) && NEWLINE !in line
    ensures InsertRow(rows, |rows|, line, CAPS) == rows + [line] && RowsFit(rows + [line], CAPS) && Lines(rows + [line])
  {
  }

  // ---------- what loading shows of a file ----------

  /** Printable bytes and tabs are shown as they are, other bytes below 32 as dots, all above 126 as question marks. */
  function Displayed(b: Byte): Byte {
    if b == 9 || 32 <= b <= 126 then b else if b < 32 then 46 else 63
  }

  /** The text of a file: line feeds stay, carriage returns go, and every other byte is displayed. */
  function Shown(data: seq<Byte>): seq<Byte> {
    if |data| == 0 then []
    else if data[0] == 13 then Shown(data[1..])
    else [if data[0] == NEWLINE then NEWLINE else Displayed(data[0])] + Shown(data[1..])
  }

  /** A line in pieces of 72 bytes and a shorter rest. */
  function Broken(line: Row): (rows: seq<Row>)
    ensures |rows| > 0
  {
    if |line| < 72 then [line] else [line[..72]] + Broken(line[72..])
  }

  function Lay(lines: seq<Row>): seq<Row> {
    if |lines| == 0 then [] else Broken(lines[0]) + Lay(lines[1..])
  }

  /** An empty last row does not count, unless it is the only one. */
  function Finish(rows: seq<Row>): seq<Row> {
    if |rows| > 1 && rows[|rows| - 1] == [] then rows[..|rows| - 1] else rows
  }

  /** The editor has room for 999 rows. */
  function FirstRows(rows: seq<Row>): seq<Row> {
    if |rows| > 999 then rows[..999] else rows
  }

  /** Whatever the file holds, loading it gives the first 999 rows of its lines as they are displayed and broken. */
  lemma LoadExact(data: seq<Byte>)
    ensures LoadFrom([], [], data) == FirstRows(Finish(Lay(Split(Shown(data)))))
  {
    LoadRest([], [], data);
    assert [] + Shown(data) == Shown(data);
    assert [] + Lay(Split(Shown(data))) == Lay(Split(Shown(data)));
  }

  lemma {:induction false} LoadRest(rows: seq<Row>, line: Row, data: seq<Byte>)
    requires |rows| < CAPS.rows && |line| < WRAP && NEWLINE !in line
    ensures LoadFrom(rows, line, data) == FirstRows(Finish(rows + Lay(Split(line + Shown(data)))))
    decreases |data|, 0
  {
    hide Split, Lay, Broken, Finish, FirstRows;
    if |data| == 0 {
      LoadLast(rows, line);
    } else if data[0] == RETURN {
      LoadRest(rows, line, data[1..]);
    } else {
      var rest := Shown(data[1..]);
      if data[0] == NEWLINE {
        assert line + Shown(data) == line + ([NEWLINE] + rest);
        SplitLine(line, rest);
        OneShort(line, Split(rest));
        LoadMore(rows, line, data[1..]);
      } else {
        var typed := line + [Displayed(data[0])];
        assert line + Shown(data) == typed + rest;
        if |typed| < WRAP {
          LoadRest(rows, typed, data[1..]);
        } else {
          SplitPrefix(typed, rest);
          OneLong(typed, Split(rest)[0], Split(rest)[1..]);
          assert [Split(rest)[0]] + Split(rest)[1..] == Split(rest);
          LoadMore(rows, typed, data[1..]);
        }
      }
    }
  }

  lemma LoadLast(rows: seq<Row>, line: Row)
    requires |rows| < CAPS.rows && |line| < WRAP && NEWLINE !in line
    ensures LoadFrom(rows, line, []) == FirstRows(Finish(rows + Lay(Split(line + Shown([])))))
  {
    hide Split, Lay;
    assert line + Shown([]) == line;
    SplitLine(line, []);
    OneShort(line, []);
    NothingLaid();
    assert [line] + [] == [line];
    var all := rows + [line];
    assert all[..|all| - 1] == rows;
  }

  /** After a full or finished row. */
  lemma LoadMore(rows: seq<Row>, r: Row, data: seq<Byte>)
    requires |rows| < CAPS.rows
    ensures var more := InsertRow(rows, |rows|, r, CAPS);
            && more == rows + [r]
            && (if |more| >= CAPS.rows then more else LoadFrom(more, [], data)) ==
               FirstRows(Finish(rows + ([r] + Lay(Split(Shown(data))))))
    decreases |data|, 1
  {
    hide Split, Lay, Broken, Finish, FirstRows;
    var more := rows + [r];
    var laid := Lay(Split(Shown(data)));
    assert rows + ([r] + laid) == more + laid;
    assert [] + Shown(data) == Shown(data);
    if |more| >= CAPS.rows {
      LaidSomething(Shown(data));
      FullAlready(more, laid);
    } else {
      LoadRest(more, [], data);
    }
  }

  lemma FullAlready(rows: seq<Row>, laid: seq<Row>)
    requires |rows| == 999 && |laid| > 0
    ensures FirstRows(Finish(rows + laid)) == rows
  {
    var all := rows + laid;
    assert all[..999] == rows;
    assert all[..|all| - 1][..999] == rows;
  }

  lemma NothingLaid()
    ensures Lay([]) == []
  {
  }

  lemma LaidSomething(t: seq<Byte>)
    ensures |Lay(Split(t))| > 0
  {
    hide LineEnd;
  }

  lemma OneShort(line: Row, lines: seq<Row>)
    requires |line| < 72
    ensures Lay([line] + lines) == [line] + Lay(lines)
  {
    assert ([line] + lines)[1..] == lines;
  }

  lemma OneLong(line: Row, first: Row, lines: seq<Row>)
    requires |line| == 72
    ensures Lay([line + first] + lines) == [line] + Lay([first] + lines)
  {
    hide Lay, Broken;
    BrokenLong(line, first);
    LayCons(line + first, lines);
    LayCons(first, lines);
    RowsAssoc([line], Broken(first), Lay(lines));
  }

  lemma RowsAssoc(a: seq<Row>, b: seq<Row>, c: seq<Row>)
    ensures a + b + c == a + (b + c)
  {
  }

  lemma BrokenLong(line: Row, more: Row)
    requires |line| == 72
    ensures Broken(line + more) == [line] + Broken(more)
  {
    assert (line + more)[..72] == line && (line + more)[72..] == more;
  }

  lemma LayCons(line: Row, lines: seq<Row>)
    ensures Lay([line] + lines) == Broken(line) + Lay(lines)
  {
    assert ([line] + lines)[1..] == lines;
  }

  /** Bytes in front of a text belong to its first line. */
  lemma SplitPrefix(r: Row, t: seq<Byte>)
    requires NEWLINE !in r
    ensures |Split(t)| > 0 && Split(r + t) == [r + Split(t)[0]] + Split(t)[1..]
  {
    hide LineEnd;
    var e := LineEnd(t, 0);
    LineEndAfter(t, 0);
    var first, rest := t[..e], t[e..];
    assert r + t == (r + first) + rest && t == first + rest;
    assert NEWLINE !in r + first;
    if e == |t| {
      assert rest == [] && first == t;
      SplitLine(first, []);
      SplitLine(r + first, []);
      assert r + t == r + first;
    } else {
      assert rest == [NEWLINE] + t[e + 1..];
      SplitLine(first, t[e + 1..]);
      SplitLine(r + first, t[e + 1..]);
      assert r + t == (r + first) + ([NEWLINE] + t[e + 1..]);
    }
  }

  lemma {:induction false} LineEndAfter(t: seq<Byte>, p: nat)
    requires p <= |t|
    ensures NEWLINE !in t[p..LineEnd(t, p)] && (LineEnd(t, p) < |t| ==> t[LineEnd(t, p)] == NEWLINE)
    decreases |t| - p
  {
    if p < |t| && t[p] != NEWLINE {
      LineEndAfter(t, p + 1);
      var e := LineEnd(t, p);
      assert t[p..e] == [t[p]] + t[p + 1..e];
    }
  }

  /** A row that loading neither wraps nor rewrites. */
  predicate Plain(r: Row) { |r| < WRAP && forall b | b in r :: b == 9 || 32 <= b <= 126 }

  lemma {:induction false} LoadRow(done: seq<Row>, line: Row, r: Row, rest: seq<Byte>)
    requires |done| < CAPS.rows && Plain(line + r)
    ensures Plain(line) && LoadFrom(done, line, r + [NEWLINE] + rest) == LoadFrom(done, line + r, [NEWLINE] + rest)
    decreases |r|
  {
    assert line == (line + r)[..|line|];
    assert forall b | b in line :: b in line + r;
    var data := r + [NEWLINE] + rest;
    if |r| == 0 {
      assert line + r == line && data == [NEWLINE] + rest;
    } else {
      assert r[0] in line + r;
      assert (line + [r[0]]) + r[1..] == line + r;
      assert data[1..] == r[1..] + [NEWLINE] + rest;
      LoadRow(done, line + [r[0]], r[1..], rest);
    }
  }

  /** Saving and loading again gives back every document of plain rows. */
  lemma {:induction false} LoadSaved(done: seq<Row>, rows: seq<Row>)
    requires 0 < |done| + |rows| <= CAPS.rows && (forall r | r in rows :: Plain(r))
    requires |rows| == 0 ==> |done| < CAPS.rows
    ensures |done| < CAPS.rows && LoadFrom(done, [], Before(rows)) == done + rows
    decreases |rows|
  {
    if |rows| == 0 {
      assert done + rows == done;
    } else {
      var r, rest := rows[0], Before(rows[1..]);
      assert r in rows && [] + r == r;
      LoadRow(done, [], r, rest);
      var more := done + [r];
      assert InsertRow(done, |done|, r, CAPS) == more;
      assert ([NEWLINE] + rest)[1..] == rest;
      assert more + rows[1..] == done + rows;
      if |more| < CAPS.rows {
        LoadSaved(more, rows[1..]);
      }
    }
  }

  /** After a failed open the cursor is inside its row exactly if it was at the start of the text before. */
  lemma FailedOpen(cy: nat, cx: nat)
    ensures InRow(Doc([[]], cy, cx)) <==> cy == 0 && cx == 0
  {
  }
}
