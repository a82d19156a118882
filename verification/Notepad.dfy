/** The text editor's buffers (apps/notepad.c): a fixed grid of bytes and the row lengths, edited in place. */
module Notepad {
  import opened Options
  import opened Bytes
  import opened EditorText

  /** One slot of the grid: `MAX_COLS` bytes, of which the first `len` are the row and the next one is NUL. */
  datatype Line = Line(bytes: seq<Byte>, len: nat)

  predicate LineOk(l: Line) { |l.bytes| == MAX_COLS && l.len < MAX_COLS && l.bytes[l.len] == 0 }

  predicate GridOk(g: seq<Line>) { |g| == MAX_ROWS && forall l | l in g :: LineOk(l) }

  function Content(l: Line): Row
    requires LineOk(l)
  {
    l.bytes[..l.len]
  }

  function GridOf(c: seq<Byte>, lens: seq<nat>): (g: seq<Line>)
    requires |c| == MAX_ROWS * MAX_COLS && |lens| == MAX_ROWS
    ensures |g| == MAX_ROWS
  {
    seq(MAX_ROWS, i requires 0 <= i < MAX_ROWS => Line(c[i * MAX_COLS..(i + 1) * MAX_COLS], lens[i]))
  }

  function RowsOf(g: seq<Line>, n: nat): (rows: seq<Row>)
    requires GridOk(g) && n <= MAX_ROWS
    ensures |rows| == n
  {
    seq(n, i requires 0 <= i < n => Content(g[i]))
  }

  // ---------- the grid as a value ----------

  lemma SliceOfPut(c: seq<Byte>, from: nat, to: nat, at: nat, x: seq<Byte>)
    requires from <= to <= |c| && at + |x| <= to - from
    ensures Put(c, from + at, x)[from..to] == Put(c[from..to], at, x)
  {
    var a, b := Put(c, from + at, x)[from..to], Put(c[from..to], at, x);
    forall i | 0 <= i < to - from
      ensures a[i] == b[i]
    {
      assert a[i] == Put(c, from + at, x)[from + i];
    }
  }

  /** A write inside one slot changes that slot only. */
  lemma PutInSlot(c: seq<Byte>, lens: seq<nat>, row: nat, col: nat, x: seq<Byte>)
    requires |c| == MAX_ROWS * MAX_COLS && |lens| == MAX_ROWS && row < MAX_ROWS && col + |x| <= MAX_COLS
    ensures GridOf(Put(c, row * MAX_COLS + col, x), lens) ==
            GridOf(c, lens)[row := Line(Put(GridOf(c, lens)[row].bytes, col, x), lens[row])]
  {
    var o := row * MAX_COLS + col;
    var c' := Put(c, o, x);
    forall i | 0 <= i < MAX_ROWS
      ensures c'[i * MAX_COLS..(i + 1) * MAX_COLS] ==
              if i == row then Put(c[i * MAX_COLS..(i + 1) * MAX_COLS], col, x) else c[i * MAX_COLS..(i + 1) * MAX_COLS]
    {
      if i != row {
        assert i < row || row + 1 <= i;
        PutSlices(c, o, x, i * MAX_COLS, (i + 1) * MAX_COLS);
      } else {
        SliceOfPut(c, i * MAX_COLS, (i + 1) * MAX_COLS, col, x);
      }
    }
  }

  lemma SetLength(c: seq<Byte>, lens: seq<nat>, row: nat, n: nat)
    requires |c| == MAX_ROWS * MAX_COLS && |lens| == MAX_ROWS && row < MAX_ROWS
    ensures GridOf(c, lens[row := n]) == GridOf(c, lens)[row := GridOf(c, lens)[row].(len := n)]
  {
  }

  /** A write inside one slot together with its new length. */
  lemma EditSlot(c: seq<Byte>, lens: seq<nat>, row: nat, col: nat, x: seq<Byte>, n: nat)
    requires |c| == MAX_ROWS * MAX_COLS && |lens| == MAX_ROWS && row < MAX_ROWS && col + |x| <= MAX_COLS
    ensures GridOf(Put(c, row * MAX_COLS + col, x), lens[row := n]) ==
            GridOf(c, lens)[row := Line(Put(GridOf(c, lens)[row].bytes, col, x), n)]
  {
    PutInSlot(c, lens, row, col, x);
    SetLength(Put(c, row * MAX_COLS + col, x), lens, row, n);
  }

  lemma SetLine(g: seq<Line>, n: nat, y: nat, l: Line)
    requires GridOk(g) && n <= MAX_ROWS && y < MAX_ROWS && LineOk(l)
    ensures GridOk(g[y := l])
    ensures RowsOf(g[y := l], n) == if y < n then RowsOf(g, n)[y := Content(l)] else RowsOf(g, n)
  {
    assert forall m | m in g[y := l] :: m in g || m == l;
  }

  lemma RowAt(g: seq<Line>, n: nat, y: nat)
    requires GridOk(g) && n <= MAX_ROWS && y < MAX_ROWS
    ensures LineOk(g[y]) && (y < n ==> RowsOf(g, n)[y] == Content(g[y]))
  {
    assert g[y] in g;
  }

  /** Shifting the tail of a slot right by one and writing a byte in the gap. */
  lemma InsertInLine(l: Line, at: nat, b: Byte)
    requires LineOk(l) && at <= l.len < MAX_COLS - 1
    ensures var l' := Line(Put(l.bytes, at, [b] + l.bytes[at..l.len] + [0]), l.len + 1);
            LineOk(l') && Content(l') == Splice(Content(l), at, 0, [b])
  {
  }

  /** Shifting the tail of a slot left by one. */
  lemma DeleteInLine(l: Line, at: nat)
    requires LineOk(l) && at < l.len
    ensures var l' := Line(Put(l.bytes, at, l.bytes[at + 1..l.len] + [0]), l.len - 1);
            LineOk(l') && Content(l') == Splice(Content(l), at, 1, [])
  {
  }

  /** Overwriting a slot from a column on. */
  lemma WriteInLine(l: Line, at: nat, x: Row)
    requires LineOk(l) && at <= l.len && at + |x| < MAX_COLS
    ensures var l' := Line(Put(l.bytes, at, x + [0]), at + |x|);
            LineOk(l') && Content(l') == Content(l)[..at] + x
  {
  }

  /** Slots from `at` on moved up by one place. */
  ghost predicate Opened(g: seq<Line>, g': seq<Line>, n: nat, at: nat)
    requires |g| == |g'| == MAX_ROWS && at <= n < MAX_ROWS - 1
  {
    g'[..at] == g[..at] && g'[at + 1..n + 1] == g[at..n]
  }

  /** Slots from `at` on moved up by one place, then slot `at` filled. */
  lemma InsertLine(g: seq<Line>, g1: seq<Line>, g': seq<Line>, n: nat, at: nat)
    requires GridOk(g) && |g1| == MAX_ROWS && GridOk(g') && at <= n < MAX_ROWS - 1
    requires Opened(g, g1, n, at)
    requires forall k | 0 <= k < MAX_ROWS && k != at :: g'[k] == g1[k]
    ensures LineOk(g'[at]) && RowsOf(g', n + 1) == RowsOf(g, n)[..at] + [Content(g'[at])] + RowsOf(g, n)[at..]
  {
    assert g'[at] in g';
    forall k | 0 <= k <= n && k != at
      ensures g'[k] == g[if k < at then k else k - 1]
    {
      if k < at {
        assert g1[k] == g1[..at][k];
      } else {
        assert g1[k] == g1[at + 1..n + 1][k - at - 1];
      }
    }
  }

  /** Slots after `at` moved down by one place. */
  lemma DeleteLine(g: seq<Line>, g': seq<Line>, n: nat, at: nat)
    requires GridOk(g) && GridOk(g') && at < n <= MAX_ROWS
    requires forall k | 0 <= k < at :: g'[k] == g[k]
    requires forall k | at <= k < n - 1 :: g'[k] == g[k + 1]
    ensures RowsOf(g', n - 1) == RemoveRow(RowsOf(g, n), at)
  {
  }

  /** `memcpy` between disjoint stretches. */
  method MemCopy(a: array<Byte>, dst: nat, b: array<Byte>, src: nat, n: nat)
    requires dst + n <= a.Length && src + n <= b.Length
    requires a != b || dst + n <= src || src + n <= dst
    modifies a
    ensures a[..] == Put(old(a[..]), dst, old(b[src..src + n]))
  {
    ghost var was, data := a[..], b[src..src + n];
    for i := 0 to n
      invariant forall j | 0 <= j < i :: a[dst + j] == data[j]
      invariant forall j | 0 <= j < a.Length && !(dst <= j < dst + i) :: a[j] == was[j]
    {
      assert b[src + i] == data[i];
      a[dst + i] := b[src + i];
    }
    assert a[..] == Put(was, dst, data);
  }

  /** The bytes from `from` to `to` move right by one. */
  method ShiftRight(a: array<Byte>, from: nat, to: nat)
    requires from <= to < a.Length
    modifies a
    ensures a[..] == Put(old(a[..]), from + 1, old(a[from..to]))
  {
    ghost var was, tail := a[..], a[from..to];
    var i := to;
    while i > from
      invariant from <= i <= to
      invariant forall j | 0 <= j < a.Length && !(i < j <= to) :: a[j] == was[j]
      invariant forall j | i < j <= to :: a[j] == was[j - 1]
    {
      a[i] := a[i - 1];
      i := i - 1;
    }
    assert forall j | 0 <= j < a.Length :: a[j] == Put(was, from + 1, tail)[j];
  }

  /** The bytes behind `from` up to `to` move left by one. */
  method ShiftLeft(a: array<Byte>, from: nat, to: nat)
    requires from <= to < a.Length
    modifies a
    ensures a[..] == Put(old(a[..]), from, old(a[from + 1..to + 1]))
  {
    ghost var was, tail := a[..], a[from + 1..to + 1];
    for i := from to to
      invariant forall j | 0 <= j < a.Length && !(from <= j < i) :: a[j] == was[j]
      invariant forall j | from <= j < i :: a[j] == was[j + 1]
    {
      a[i] := a[i + 1];
    }
    assert forall j | 0 <= j < a.Length :: a[j] == Put(was, from, tail)[j];
  }

  lemma SlotAt(c: seq<Byte>, lens: seq<nat>, row: nat)
    requires |c| == MAX_ROWS * MAX_COLS && |lens| == MAX_ROWS && row < MAX_ROWS
    ensures GridOf(c, lens)[row] == Line(c[row * MAX_COLS..(row + 1) * MAX_COLS], lens[row])
  {
  }

  lemma SliceOfSlice(c: seq<Byte>, from: nat, to: nat, lo: nat, hi: nat)
    requires from <= to <= |c| && lo <= hi <= to - from
    ensures c[from..to][lo..hi] == c[from + lo..from + hi]
  {
    var a, b := c[from..to][lo..hi], c[from + lo..from + hi];
    forall i | 0 <= i < hi - lo
      ensures a[i] == b[i]
    {
      assert a[i] == c[from..to][lo + i];
    }
  }

  /** The three writes of an insertion. */
  function Inserted(c: seq<Byte>, at: nat, end: nat, b: Byte): (r: seq<Byte>)
    requires at <= end && end + 1 < |c|
    ensures |r| == |c|
  {
    Put(c, at + 1, c[at..end])[at := b][end + 1 := 0]
  }

  lemma InsertWrites(c: seq<Byte>, at: nat, end: nat, b: Byte)
    requires at <= end && end + 1 < |c|
    ensures Inserted(c, at, end, b) == Put(c, at, [b] + c[at..end] + [0])
  {
  }

  /** The two writes of a deletion are one. */
  lemma DeleteWrites(c: seq<Byte>, at: nat, end: nat)
    requires at < end <= |c|
    ensures Put(c, at, c[at + 1..end])[end - 1 := 0] == Put(c, at, c[at + 1..end] + [0])
  {
  }

  /** Bytes and a NUL behind them. */
  function Terminated(c: seq<Byte>, at: nat, x: Row): (r: seq<Byte>)
    requires at + |x| < |c|
    ensures |r| == |c|
  {
    Put(c, at, x)[at + |x| := 0]
  }

  lemma AppendWrites(c: seq<Byte>, at: nat, x: Row)
    requires at + |x| < |c|
    ensures Terminated(c, at, x) == Put(c, at, x + [0])
  {
  }

  ghost predicate StateOk(c: seq<Byte>, lens: seq<nat>) {
    |c| == MAX_ROWS * MAX_COLS && |lens| == MAX_ROWS && GridOk(GridOf(c, lens))
  }

  /** A write that leaves a slot with the row `r`. */
  lemma EditedRow(c: seq<Byte>, lens: seq<nat>, n: nat, row: nat, col: nat, x: seq<Byte>, len: nat)
    requires StateOk(c, lens) && n <= MAX_ROWS && row < MAX_ROWS && col + |x| <= MAX_COLS
    requires LineOk(Line(Put(GridOf(c, lens)[row].bytes, col, x), len))
    ensures var c', lens' := Put(c, row * MAX_COLS + col, x), lens[row := len];
            && StateOk(c', lens')
            && RowsOf(GridOf(c', lens'), n) ==
               (if row < n
                then RowsOf(GridOf(c, lens), n)[row := Content(Line(Put(GridOf(c, lens)[row].bytes, col, x), len))]
                else RowsOf(GridOf(c, lens), n))
  {
    hide GridOf, RowsOf, GridOk;
    EditSlot(c, lens, row, col, x, len);
    SetLine(GridOf(c, lens), n, row, Line(Put(GridOf(c, lens)[row].bytes, col, x), len));
  }

  lemma RowLength(c: seq<Byte>, lens: seq<nat>, n: nat, row: nat)
    requires StateOk(c, lens) && n <= MAX_ROWS && row < MAX_ROWS
    ensures lens[row] < MAX_COLS && (row < n ==> |RowsOf(GridOf(c, lens), n)[row]| == lens[row])
  {
    hide GridOf, RowsOf, GridOk;
    SlotAt(c, lens, row);
    RowAt(GridOf(c, lens), n, row);
  }

  lemma FullRow(rows: seq<Row>, y: nat, x: nat, b: Byte)
    requires y < |rows| && |rows[y]| >= CAPS.cols
    ensures InsertByte(rows, y, x, b, CAPS) == rows
  {
  }

  lemma InsertedByte(c: seq<Byte>, lens: seq<nat>, n: nat, row: nat, col: nat, b: Byte)
    requires StateOk(c, lens) && n <= MAX_ROWS && row < MAX_ROWS && lens[row] < MAX_COLS - 2
    ensures var base, len, at := row * MAX_COLS, lens[row], Min(col, lens[row]);
            var c', lens' := Inserted(c, base + at, base + len, b), lens[row := len + 1];
            && StateOk(c', lens')
            && RowsOf(GridOf(c', lens'), n) ==
               (if row < n then InsertByte(RowsOf(GridOf(c, lens), n), row, col, b, CAPS)
                else RowsOf(GridOf(c, lens), n))
  {
    hide GridOf, RowsOf, GridOk, Put, Inserted;
    var g, base, len, at := GridOf(c, lens), row * MAX_COLS, lens[row], Min(col, lens[row]);
    SlotAt(c, lens, row);
    RowAt(g, n, row);
    SliceOfSlice(c, base, base + MAX_COLS, at, len);
    InsertWrites(c, base + at, base + len, b);
    InsertInLine(g[row], at, b);
    EditedRow(c, lens, n, row, at, [b] + g[row].bytes[at..len] + [0], len + 1);
  }

  lemma DeletedByte(c: seq<Byte>, lens: seq<nat>, n: nat, row: nat, at: nat)
    requires StateOk(c, lens) && row < n <= MAX_ROWS && at < lens[row]
    ensures lens[row] < MAX_COLS && |RowsOf(GridOf(c, lens), n)[row]| == lens[row]
    ensures var base, len := row * MAX_COLS, lens[row];
            var c', lens' := Put(c, base + at, c[base + at + 1..base + len])[base + len - 1 := 0], lens[row := len - 1];
            && StateOk(c', lens')
            && RowsOf(GridOf(c', lens'), n) ==
               RowsOf(GridOf(c, lens), n)[row := Splice(RowsOf(GridOf(c, lens), n)[row], at, 1, [])]
  {
    hide GridOf, RowsOf, GridOk, Put;
    var g, base, len := GridOf(c, lens), row * MAX_COLS, lens[row];
    SlotAt(c, lens, row);
    RowAt(g, n, row);
    SliceOfSlice(c, base, base + MAX_COLS, at + 1, len);
    DeleteWrites(c, base + at, base + len);
    DeleteInLine(g[row], at);
    EditedRow(c, lens, n, row, at, g[row].bytes[at + 1..len] + [0], len - 1);
  }

  lemma WrittenRow(c: seq<Byte>, lens: seq<nat>, n: nat, row: nat, at: nat, x: Row)
    requires StateOk(c, lens) && n <= MAX_ROWS && row < MAX_ROWS && at <= lens[row] && at + |x| < MAX_COLS
    ensures var base := row * MAX_COLS;
            var c', lens' := Terminated(c, base + at, x), lens[row := at + |x|];
            && StateOk(c', lens')
            && (row < n ==> at <= |RowsOf(GridOf(c, lens), n)[row]|)
            && (row < n ==> RowsOf(GridOf(c', lens'), n) ==
                            RowsOf(GridOf(c, lens), n)[row := RowsOf(GridOf(c, lens), n)[row][..at] + x])
            && (forall k | 0 <= k < MAX_ROWS && k != row :: GridOf(c', lens')[k] == GridOf(c, lens)[k])
            && LineOk(GridOf(c', lens')[row])
            && Content(GridOf(c', lens')[row]) == Content(GridOf(c, lens)[row])[..at] + x
  {
    hide GridOf, RowsOf, GridOk, Put, Terminated;
    var g, base := GridOf(c, lens), row * MAX_COLS;
    SlotAt(c, lens, row);
    RowAt(g, n, row);
    AppendWrites(c, base + at, x);
    WriteInLine(g[row], at, x);
    EditedRow(c, lens, n, row, at, x + [0], at + |x|);
    EditSlot(c, lens, row, at, x + [0], at + |x|);
  }

  /** The slots of `c0` moved up, then slot `at` filled. */
  lemma FilledRow(c0: seq<Byte>, lens0: seq<nat>, c: seq<Byte>, lens: seq<nat>, n: nat, at: nat, x: Row)
    requires StateOk(c0, lens0) && StateOk(c, lens) && at <= n < MAX_ROWS - 1 && |x| < MAX_COLS
    requires Opened(GridOf(c0, lens0), GridOf(c, lens), n, at)
    ensures var base, rows := at * MAX_COLS, RowsOf(GridOf(c0, lens0), n);
            var c', lens' := Terminated(c, base, x), lens[at := |x|];
            StateOk(c', lens') && RowsOf(GridOf(c', lens'), n + 1) == rows[..at] + [x] + rows[at..]
  {
    hide GridOf, RowsOf, GridOk, Terminated, Opened;
    var g, base := GridOf(c0, lens0), at * MAX_COLS;
    WrittenRow(c, lens, 0, at, 0, x);
    assert [] + x == x;
    InsertLine(g, GridOf(c, lens), GridOf(Terminated(c, base, x), lens[at := |x|]), n, at);
  }

  class Editor {
    const cells: array<Byte>
    const rowLen: array<nat>
    var numRows: nat
    var cx: nat
    var cy: nat

    ghost predicate Shape()
    {
      cells.Length == MAX_ROWS * MAX_COLS && rowLen.Length == MAX_ROWS && cells as object != rowLen
    }

    ghost function Grid(): seq<Line>
      requires Shape()
      reads cells, rowLen
    {
      GridOf(cells[..], rowLen[..])
    }

    ghost predicate Valid()
      reads this, cells, rowLen
    {
      Shape() && StateOk(cells[..], rowLen[..]) && numRows < MAX_ROWS
    }

    ghost function Rows(): seq<Row>
      requires Valid()
      reads this, cells, rowLen
    {
      RowsOf(Grid(), numRows)
    }

    ghost function Contents(): Doc
      requires Valid()
      reads this, cells, rowLen
    {
      Doc(Rows(), cy, cx)
    }

    /** `row_insert_char` */
    method RowInsertChar(atRow: nat, atCol: nat, b: Byte)
      requires Valid()
      modifies cells, rowLen
      ensures Valid()
      ensures Rows() == if atRow < numRows then InsertByte(old(Rows()), atRow, atCol, b, CAPS) else old(Rows())
    {
      hide GridOf, RowsOf, GridOk, Put, StateOk, InsertByte;
      if atRow >= MAX_ROWS { return; }
      ghost var c, lens := cells[..], rowLen[..];
      var len := rowLen[atRow];
      RowLength(c, lens, numRows, atRow);
      if len >= MAX_COLS - 2 {
        if atRow < numRows { FullRow(Rows(), atRow, atCol, b); }
        return;
      }
      var at := if atCol > len then len else atCol;
      var base := atRow * MAX_COLS;
      InsertedByte(c, lens, numRows, atRow, atCol, b);
      ShiftRight(cells, base + at, base + len);
      cells[base + at] := b;
      rowLen[atRow] := len + 1;
      cells[base + rowLen[atRow]] := 0;
    }

    /** `row_delete_char` */
    method RowDeleteChar(atRow: nat, atCol: nat)
      requires Valid()
      modifies cells, rowLen
      ensures Valid()
      ensures Rows() == if atRow < numRows && atCol < |old(Rows())[atRow]|
                        then old(Rows())[atRow := Splice(old(Rows())[atRow], atCol, 1, [])] else old(Rows())
    {
      hide GridOf, RowsOf, GridOk, Put;
      if atRow >= numRows { return; }
      ghost var c, lens := cells[..], rowLen[..];
      var len := rowLen[atRow];
      SlotAt(c, lens, atRow);
      RowAt(Grid(), numRows, atRow);
      if atCol >= len { return; }
      var base := atRow * MAX_COLS;
      DeletedByte(c, lens, numRows, atRow, atCol);
      ShiftLeft(cells, base + atCol, base + len - 1);
      rowLen[atRow] := rowLen[atRow] - 1;
      cells[base + rowLen[atRow]] := 0;
    }

    /** One slot overwritten by another. */
    method CopySlot(to: nat, from: nat)
      requires Valid() && to < MAX_ROWS && from < MAX_ROWS && to != from
      modifies cells, rowLen
      ensures Valid() && Grid() == old(Grid())[to := old(Grid())[from]]
      ensures cells[..] == Put(old(cells[..]), to * MAX_COLS, old(cells[from * MAX_COLS..(from + 1) * MAX_COLS]))
    {
      hide GridOf, RowsOf, Put;
      ghost var c, lens := cells[..], rowLen[..];
      SlotAt(c, lens, to);
      SlotAt(c, lens, from);
      MemCopy(cells, to * MAX_COLS, cells, from * MAX_COLS, MAX_COLS);
      rowLen[to] := rowLen[from];
      EditSlot(c, lens, to, 0, c[from * MAX_COLS..(from + 1) * MAX_COLS], lens[from]);
      WholeSlot(GridOf(c, lens)[to].bytes, GridOf(c, lens)[from].bytes);
    }

    /** The slots from `atRow` up to the last row move up by one place. */
    method OpenSlot(atRow: nat)
      requires Valid() && atRow <= numRows < MAX_ROWS - 1
      modifies cells, rowLen
      ensures Valid() && Opened(old(Grid()), Grid(), numRows, atRow)
      ensures cells[..atRow * MAX_COLS] == old(cells[..atRow * MAX_COLS])
    {
      hide GridOf, RowsOf, GridOk, Put, StateOk;
      ghost var g := Grid();
      var i := numRows;
      while i > atRow
        invariant atRow <= i <= numRows && Valid()
        invariant Grid()[..i + 1] == g[..i + 1] && Grid()[i + 1..numRows + 1] == g[i..numRows]
        invariant cells[..atRow * MAX_COLS] == old(cells[..atRow * MAX_COLS])
      {
        KeptStretch(cells[..], i * MAX_COLS, cells[(i - 1) * MAX_COLS..i * MAX_COLS], 0, atRow * MAX_COLS);
        OpenedSlot(Grid(), g, i, numRows);
        CopySlot(i, i - 1);
        i := i - 1;
      }
      assert Grid()[..atRow] == Grid()[..atRow + 1][..atRow];
      assert g[..atRow] == g[..atRow + 1][..atRow];
    }

    /** Slot `atRow` ends with `n` bytes of `src` from column `col` on. */
    method FillSlot(atRow: nat, col: nat, src: array<Byte>, off: nat, n: nat)
      requires Shape() && atRow < MAX_ROWS && col + n < MAX_COLS
      requires off + n <= src.Length && src as object != rowLen
      requires src == cells ==> off + n <= atRow * MAX_COLS + col || atRow * MAX_COLS + col + n <= off
      modifies cells, rowLen
      ensures cells[..] == Terminated(old(cells[..]), atRow * MAX_COLS + col, old(src[off..off + n]))
      ensures rowLen[..] == old(rowLen[..])[atRow := col + n]
    {
      hide Put;
      PutNothing(cells[..], atRow * MAX_COLS + col);
      if n > 0 {
        MemCopy(cells, atRow * MAX_COLS + col, src, off, n);
      }
      cells[atRow * MAX_COLS + col + n] := 0;
      rowLen[atRow] := col + n;
    }

    /** `insert_row` */
    method InsertRowAt(atRow: nat, src: array<Byte>, off: nat, len: nat)
      requires Valid()
      requires off + len <= src.Length && (src == cells ==> off + len <= atRow * MAX_COLS) && src as object != rowLen
      modifies this`numRows, cells, rowLen
      ensures Valid()
      ensures Rows() == if atRow > old(numRows) then old(Rows())
                        else EditorText.InsertRow(old(Rows()), atRow, old(src[off..off + Min(len, MAX_COLS - 1)]), CAPS)
    {
      hide GridOf, RowsOf, GridOk, StateOk, Opened, Terminated;
      if numRows >= MAX_ROWS - 1 || atRow > numRows { return; }
      ghost var c, lens, x := cells[..], rowLen[..], src[off..off + Min(len, MAX_COLS - 1)];
      OpenSlot(atRow);
      var n := if len >= MAX_COLS then MAX_COLS - 1 else len;
      if src == cells {
        KeptPrefix(c, cells[..], atRow * MAX_COLS, off, off + n);
      }
      FilledRow(c, lens, cells[..], rowLen[..], numRows, atRow, x);
      FillSlot(atRow, 0, src, off, n);
      numRows := numRows + 1;
    }

    /** The slots behind `atRow` move down by one place. */
    method CloseSlot(atRow: nat)
      requires Valid() && atRow < numRows
      modifies cells, rowLen
      ensures Valid() && RowsOf(Grid(), numRows - 1) == RemoveRow(old(Rows()), atRow)
    {
      hide GridOf, RowsOf, GridOk, Put;
      ghost var g := Grid();
      for i := atRow to numRows - 1
        invariant Valid()
        invariant forall k | 0 <= k < atRow :: Grid()[k] == g[k]
        invariant forall k | atRow <= k < i :: Grid()[k] == g[k + 1]
        invariant forall k | i <= k < numRows :: Grid()[k] == g[k]
      {
        CopySlot(i, i + 1);
      }
      DeleteLine(g, Grid(), numRows, atRow);
    }

    /** `delete_row` */
    method DeleteRowAt(atRow: nat)
      requires Valid()
      modifies this`numRows, cells, rowLen
      ensures Valid()
      ensures Rows() == if atRow >= old(numRows) then old(Rows())
                        else if old(numRows) == 1 then [[]] else RemoveRow(old(Rows()), atRow)
    {
      hide GridOf, RowsOf, GridOk, Put;
      if atRow >= numRows { return; }
      CloseSlot(atRow);
      numRows := numRows - 1;
      if numRows == 0 {
        InsertRowAt(0, cells, 0, 0);
      }
    }

    /** Row `y + 1` is appended to row `y`, as Delete and Backspace do at a line boundary. */
    method JoinNext(y: nat)
      requires Valid() && y + 1 < numRows && |Rows()[y]| + |Rows()[y + 1]| <= CAPS.cols
      modifies this`numRows, cells, rowLen
      ensures Valid() && Rows() == JoinRows(old(Rows()), y)
    {
      hide GridOf, RowsOf, GridOk, StateOk, Terminated;
      AppendedRow(cells[..], rowLen[..], numRows, y);
      FillSlot(y, rowLen[y], cells, (y + 1) * MAX_COLS, rowLen[y + 1]);
      DeleteRowAt(y + 1);
    }

    /** Row `y` ends at column `x`. */
    method CutRow(y: nat, x: nat)
      requires Valid() && y < numRows && x <= |Rows()[y]|
      modifies cells, rowLen
      ensures Valid() && Rows() == old(Rows())[y := old(Rows())[y][..x]]
    {
      hide GridOf, RowsOf, GridOk, StateOk, Terminated;
      RowLength(cells[..], rowLen[..], numRows, y);
      WrittenRow(cells[..], rowLen[..], numRows, y, x, []);
      assert old(Rows())[y][..x] + [] == old(Rows())[y][..x];
      FillSlot(y, x, cells, 0, 0);
    }

    /** What is right of column `x` becomes a row of its own. */
    method BreakRow(y: nat, x: nat)
      requires Valid() && y < numRows && x <= |Rows()[y]|
      modifies this`numRows, cells, rowLen
      ensures Valid() && |EditorText.InsertRow(old(Rows()), y + 1, old(Rows())[y][x..], CAPS)| > y
      ensures Rows() == EditorText.InsertRow(old(Rows()), y + 1, old(Rows())[y][x..], CAPS)[y := old(Rows())[y][..x]]
    {
      hide GridOf, RowsOf, GridOk, Put, StateOk, EditorText.InsertRow;
      RowAbove(Rows(), y, Rows()[y][x..]);
      RowStretch(cells[..], rowLen[..], numRows, y);
      var len := rowLen[y];
      SliceOfSlice(cells[..], y * MAX_COLS, y * MAX_COLS + len, x, len);
      InsertRowAt(y + 1, cells, y * MAX_COLS + x, len - x);
      CutRow(y, x);
    }

    method EnterKey()
      requires Valid() && InRow(Contents())
      modifies this, cells, rowLen
      ensures Valid() && Contents() == Step(old(Contents()), Enter, 0, CAPS)
    {
      hide GridOf, RowsOf, GridOk, Put, StateOk, EditorText.InsertRow, EnterRows, Step;
      RowStretch(cells[..], rowLen[..], numRows, cy);
      EnterParts(Contents());
      var len := rowLen[cy];
      if cx >= len {
        InsertRowAt(cy + 1, cells, 0, 0);
      } else {
        BreakRow(cy, cx);
      }
      cy := cy + 1;
      cx := 0;
    }

    method DeleteKey()
      requires Valid() && InRow(Contents())
      modifies this`numRows, cells, rowLen
      ensures Valid() && Contents() == Step(old(Contents()), Delete, 0, CAPS)
    {
      hide GridOf, RowsOf, GridOk, Put, StateOk, Splice, JoinRows;
      RowStretch(cells[..], rowLen[..], numRows, cy);
      var len := rowLen[cy];
      if cx < len {
        RowDeleteChar(cy, cx);
      } else if cy < numRows - 1 {
        RowStretch(cells[..], rowLen[..], numRows, cy + 1);
        var nextLen := rowLen[cy + 1];
        if len + nextLen < MAX_COLS - 1 {
          JoinNext(cy);
        }
      }
    }

    /** One byte or two in front of the cursor are deleted, one after the other. */
    method EraseBack(del: nat)
      requires Valid() && InRow(Contents()) && 1 <= del <= 2 && del <= cx
      modifies this`cx, cells, rowLen
      ensures Valid() && cx == old(cx) - del
      ensures Rows() == old(Rows())[cy := Splice(old(Rows())[cy], cx, del, [])]
    {
      hide GridOf, RowsOf, GridOk, Put, StateOk, Splice;
      ghost var rows, x := Rows(), cx;
      TwoDeletions(rows, cy, x);
      for k := 0 to del
        invariant Valid() && cx == x - k
        invariant Rows() == if k == 0 then rows else rows[cy := Splice(rows[cy], x - k, k, [])]
      {
        RowDeleteChar(cy, cx - 1);
        cx := cx - 1;
      }
    }

    method BackspaceKey()
      requires Valid() && InRow(Contents())
      modifies this, cells, rowLen
      ensures Valid() && Contents() == Step(old(Contents()), Backspace, 0, CAPS)
    {
      hide GridOf, RowsOf, GridOk, Put, StateOk, Splice, JoinRows;
      RowStretch(cells[..], rowLen[..], numRows, cy);
      if cx > 0 {
        EraseBack(if cx >= 2 && IsContinuation(cells[cy * MAX_COLS + cx - 1]) then 2 else 1);
      } else if cy > 0 {
        RowStretch(cells[..], rowLen[..], numRows, cy - 1);
        var prevLen, curLen := rowLen[cy - 1], rowLen[cy];
        if prevLen + curLen < MAX_COLS - 1 {
          JoinNext(cy - 1);
          cy := cy - 1;
          cx := prevLen;
        }
      }
    }

    /** The cursor goes to row `y`, and no further right than its end. */
    method GoToRow(y: nat)
      requires Valid() && y < numRows
      modifies this`cx, this`cy
      ensures Contents() == old(Contents()).(cy := y, cx := Min(old(cx), |Rows()[y]|))
    {
      hide GridOf, RowsOf, GridOk, StateOk;
      RowStretch(cells[..], rowLen[..], numRows, y);
      cy := y;
      if cx > rowLen[cy] { cx := rowLen[cy]; }
    }

    method MoveInText(key: Key)
      requires Valid() && InRow(Contents())
      requires key.Left? || key.Right? || key.Home? || key.End?
      modifies this`cx, this`cy
      ensures Contents() == Step(old(Contents()), key, 0, CAPS)
    {
      hide GridOf, RowsOf, GridOk, StateOk, Splice, JoinRows, EnterRows, InsertByte;
      RowStretch(cells[..], rowLen[..], numRows, cy);
      match key {
        case Left =>
          if cx > 0 {
            cx := cx - 1;
          } else if cy > 0 {
            RowStretch(cells[..], rowLen[..], numRows, cy - 1);
            cy := cy - 1;
            cx := rowLen[cy];
          }
        case Right =>
          if cx < rowLen[cy] {
            cx := cx + 1;
          } else if cy < numRows - 1 {
            cy := cy + 1;
            cx := 0;
          }
        case Home => cx := 0;
        case End => cx := rowLen[cy];
      }
    }

    /** The keys that only move the cursor. */
    method MoveKey(key: Key, visible: nat)
      requires Valid() && InRow(Contents())
      requires key.Up? || key.Down? || key.Left? || key.Right? || key.Home? || key.End? || key.PageUp? || key.PageDown?
      modifies this`cx, this`cy
      ensures Contents() == Step(old(Contents()), key, visible, CAPS)
    {
      hide GridOf, RowsOf, GridOk, StateOk, Shape, Splice, JoinRows, EnterRows, InsertByte;
      match key {
        case Up => GoToRow(if cy > 0 then cy - 1 else cy);
        case Down => GoToRow(if cy < numRows - 1 then cy + 1 else cy);
        case PageUp => GoToRow(if cy < visible then 0 else cy - visible);
        case PageDown => GoToRow(if cy + visible >= numRows then numRows - 1 else cy + visible);
        case Left => MoveInText(key);
        case Right => MoveInText(key);
        case Home => MoveInText(key);
        case End => MoveInText(key);
      }
    }

    method CharKey(b: Byte)
      requires Valid() && InRow(Contents())
      modifies this`cx, cells, rowLen
      ensures Valid() && Contents() == Step(old(Contents()), Char(b), 0, CAPS)
    {
      hide GridOf, RowsOf, GridOk, StateOk, InsertByte;
      RowInsertChar(cy, cx, b);
      cx := cx + 1;
    }

    method WideKey(b1: Byte, b2: Byte)
      requires Valid() && InRow(Contents())
      modifies this`cx, cells, rowLen
      ensures Valid() && Contents() == Step(old(Contents()), Wide(b1, b2), 0, CAPS)
    {
      hide GridOf, RowsOf, GridOk, StateOk, InsertByte;
      RowInsertChar(cy, cx, b1);
      RowInsertChar(cy, cx + 1, b2);
      cx := cx + 2;
    }

    /** `handle_key` without an open dialog */
    method HandleKey(ascii: int, scancode: int, visible: nat)
      requires Valid() && InRow(Contents())
      modifies this, cells, rowLen
      ensures Valid() && Contents() == Step(old(Contents()), KeyOf(ascii, scancode), visible, CAPS)
    {
      hide Step, Contents, Shape, Grid, Rows, StateOk, InRow;
      SameAtAnyHeight(Contents(), KeyOf(ascii, scancode), visible);
      if ascii == 19 || (ascii == 's' as int && scancode == 0x1F) { return; }
      if ascii == 10 || ascii == 13 || scancode == 0x1C { EnterKey(); return; }
      if scancode == 0x53 { DeleteKey(); return; }
      if ascii == 8 || scancode == 0x0E { BackspaceKey(); return; }
      if scancode == 0x48 { MoveKey(Up, visible); return; }
      if scancode == 0x50 { MoveKey(Down, visible); return; }
      if scancode == 0x4B { MoveKey(Left, visible); return; }
      if scancode == 0x4D { MoveKey(Right, visible); return; }
      if scancode == 0x47 { MoveKey(Home, visible); return; }
      if scancode == 0x4F { MoveKey(End, visible); return; }
      if scancode == 0x49 { MoveKey(PageUp, visible); return; }
      if scancode == 0x51 { MoveKey(PageDown, visible); return; }
      if 32 <= ascii <= 126 {
        CharKey(ascii);
      } else if 0x0400 <= ascii <= 0x04FF {
        WideKey(0xC0 + ascii / 64 % 32, 0x80 + ascii % 64);
      }
    }

    /** `save_file`: the bytes written */
    method SaveFile() returns (out: seq<Byte>)
      requires Valid()
      ensures out == Before(Rows())
    {
      hide GridOf, RowsOf, GridOk, StateOk;
      out := [];
      for i := 0 to numRows
        invariant out == Before(Rows()[..i])
      {
        RowStretch(cells[..], rowLen[..], numRows, i);
        BeforeLast(Rows()[..i + 1]);
        assert Rows()[..i + 1][..i] == Rows()[..i];
        if rowLen[i] > 0 {
          out := out + cells[i * MAX_COLS..i * MAX_COLS + rowLen[i]];
        }
        out := out + [NEWLINE];
      }
      assert Rows()[..numRows] == Rows();
    }

    /**
      * `load_file`; without a file there is one empty row, and the cursor stays where it was in the text before,
      * see `EditorText.FailedOpen`.
      */
    method LoadFile(file: Option<seq<Byte>>, given: nat -> nat)
      requires Valid()
      modifies this, cells, rowLen
      ensures Valid()
      ensures file.None? ==> Contents() == Doc([[]], old(cy), old(cx))
      ensures file.Some? ==> Contents() == Doc(LoadFrom([], [], file.value[..Got(|file.value|, given, 0)]), 0, 0)
    {
      hide GridOf, RowsOf, GridOk, StateOk, EditorText.InsertRow, LoadFrom;
      numRows := 0;
      if file.None? {
        InsertRowAt(0, cells, 0, 0);
        OneEmptyRow();
        return;
      }
      var size := |file.value|;
      ghost var data := file.value[..Got(size, given, 0)];
      var line := new Byte[MAX_COLS](_ => 0);
      var lineLen: nat := 0;
      var done := 0;
      assert data[0..] == data && Rows() == [] && line[..0] == [];
      while done < size && numRows < MAX_ROWS - 1
        invariant Valid() && done <= size && Got(size, given, done) == |data| && lineLen < WRAP && fresh(line)
        invariant numRows >= MAX_ROWS - 1 ==> lineLen == 0
        invariant LoadFrom([], [], data) ==
                  if numRows < MAX_ROWS - 1 then LoadFrom(Rows(), line[..lineLen], data[done..]) else Rows()
      {
        var n := Min(given(done), Min(READ, size - done));
        if n == 0 { break; }
        assert data[done..] == file.value[done..done + n] + data[done + n..];
        lineLen := LoadPortion(line, lineLen, file.value[done..done + n], data[done + n..]);
        done := done + n;
      }
      LoadEnd(Rows(), line[..lineLen], data[done..]);
      if lineLen > 0 || numRows == 0 {
        assert line[0..0 + lineLen] == line[..lineLen];
        InsertRowAt(numRows, line, 0, lineLen);
      }
      cx, cy := 0, 0;
    }

    /** One portion of the file, as far as the cap on the rows lets it be used. */
    method LoadPortion(line: array<Byte>, len: nat, portion: seq<Byte>, ghost rest: seq<Byte>) returns (lineLen: nat)
      requires Valid() && numRows < MAX_ROWS - 1 && len < WRAP && line.Length == MAX_COLS
      requires line != cells && line as object != rowLen
      modifies this`numRows, cells, rowLen, line
      ensures Valid() && lineLen < WRAP && (numRows >= MAX_ROWS - 1 ==> lineLen == 0)
      ensures old(LoadFrom(Rows(), line[..len], portion + rest)) ==
              if numRows < MAX_ROWS - 1 then LoadFrom(Rows(), line[..lineLen], rest) else Rows()
    {
      hide GridOf, RowsOf, GridOk, StateOk, EditorText.InsertRow;
      lineLen := len;
      var i := 0;
      ghost var data := portion + rest;
      assert data[0..] == data;
      while i < |portion| && numRows < MAX_ROWS - 1
        invariant Valid() && i <= |portion| && lineLen < WRAP
        invariant numRows >= MAX_ROWS - 1 ==> lineLen == 0
        invariant old(LoadFrom(Rows(), line[..len], data)) ==
                  if numRows < MAX_ROWS - 1 then LoadFrom(Rows(), line[..lineLen], data[i..]) else Rows()
      {
        var b := portion[i];
        assert data[i..][0] == b && data[i..][1..] == data[i + 1..];
        i := i + 1;
        if b == RETURN { continue; }
        ghost var typed := if b == NEWLINE then line[..lineLen] else line[..lineLen] + [Clean(b)];
        if b != NEWLINE {
          line[lineLen] := Clean(b);
          lineLen := lineLen + 1;
        }
        assert line[..lineLen] == line[0..0 + lineLen] == typed;
        if b == NEWLINE || lineLen >= WRAP {
          InsertRowAt(numRows, line, 0, lineLen);
          lineLen := 0;
        }
      }
      assert i == |portion| ==> data[i..] == rest;
    }

    /** `new_file` */
    method NewFile()
      requires Valid()
      modifies this, cells, rowLen
      ensures Valid() && Contents() == Doc([[]], 0, 0)
    {
      numRows := 0;
      InsertRowAt(0, cells, 0, 0);
      cx, cy := 0, 0;
    }

    /** The buffers as the program starts with them: all zero. */
    constructor ()
      ensures Valid() && fresh(cells) && fresh(rowLen) && Rows() == []
    {
      cells := new Byte[MAX_ROWS * MAX_COLS](_ => 0);
      rowLen := new nat[MAX_ROWS](_ => 0);
      numRows, cx, cy := 0, 0, 0;
    }
  }

  /** Deleting the byte left of the cursor twice removes two bytes. */
  lemma TwoDeletions(rows: seq<Row>, y: nat, x: nat)
    requires y < |rows| && 0 < x <= |rows[y]|
    ensures x >= 2 ==> var one := rows[y := Splice(rows[y], x - 1, 1, [])];
                       one[y := Splice(one[y], x - 2, 1, [])] == rows[y := Splice(rows[y], x - 2, 2, [])]
  {
    if x >= 2 {
      var one := Splice(rows[y], x - 1, 1, []);
      assert Splice(one, x - 2, 1, []) == Splice(rows[y], x - 2, 2, []);
    }
  }

  /** The height of the window matters to the keys that move by pages only; saving and the rest change nothing. */
  lemma SameAtAnyHeight(d: Doc, key: Key, visible: nat)
    requires InRow(d)
    ensures !key.PageUp? && !key.PageDown? ==> Step(d, key, visible, CAPS) == Step(d, key, 0, CAPS)
    ensures key.Save? || key.Ignored? ==> Step(d, key, visible, CAPS) == d
  {
    hide Splice, JoinRows, EnterRows, InsertByte;
  }

  lemma RowAbove(rows: seq<Row>, y: nat, r: Row)
    requires y < |rows|
    ensures var rows' := EditorText.InsertRow(rows, y + 1, r, CAPS); |rows'| > y && rows'[y] == rows[y]
  {
  }

  lemma EnterParts(d: Doc)
    requires InRow(d)
    ensures var row := d.rows[d.cy];
            && Step(d, Enter, 0, CAPS) == Doc(EnterRows(d, CAPS), d.cy + 1, 0)
            && (d.cx == |row| ==> EnterRows(d, CAPS) == EditorText.InsertRow(d.rows, d.cy + 1, [], CAPS))
            && |EditorText.InsertRow(d.rows, d.cy + 1, row[d.cx..], CAPS)| > d.cy
            && EnterRows(d, CAPS) == EditorText.InsertRow(d.rows, d.cy + 1, row[d.cx..], CAPS)[d.cy := row[..d.cx]]
  {
    var row := d.rows[d.cy];
    if d.cx == |row| {
      assert row[d.cx..] == [] && row[..d.cx] == row;
    }
  }

  /** Where the bytes of a row are. */
  lemma RowStretch(c: seq<Byte>, lens: seq<nat>, n: nat, y: nat)
    requires StateOk(c, lens) && y < n <= MAX_ROWS
    ensures lens[y] < MAX_COLS && RowsOf(GridOf(c, lens), n)[y] == c[y * MAX_COLS..y * MAX_COLS + lens[y]]
  {
    hide GridOf, RowsOf, GridOk;
    SlotAt(c, lens, y);
    RowAt(GridOf(c, lens), n, y);
    SliceOfSlice(c, y * MAX_COLS, (y + 1) * MAX_COLS, 0, lens[y]);
  }

  lemma AppendedRow(c: seq<Byte>, lens: seq<nat>, n: nat, y: nat)
    requires StateOk(c, lens) && y + 1 < n <= MAX_ROWS
    requires |RowsOf(GridOf(c, lens), n)[y]| + |RowsOf(GridOf(c, lens), n)[y + 1]| <= CAPS.cols
    ensures lens[y] + lens[y + 1] <= CAPS.cols
    ensures var at, rows := y * MAX_COLS + lens[y], RowsOf(GridOf(c, lens), n);
            var x := c[(y + 1) * MAX_COLS..(y + 1) * MAX_COLS + lens[y + 1]];
            var c', lens' := Terminated(c, at, x), lens[y := lens[y] + lens[y + 1]];
            StateOk(c', lens') && RowsOf(GridOf(c', lens'), n) == rows[y := rows[y] + rows[y + 1]]
  {
    hide GridOf, RowsOf, GridOk, Put;
    RowStretch(c, lens, n, y);
    RowStretch(c, lens, n, y + 1);
    var rows := RowsOf(GridOf(c, lens), n);
    WrittenRow(c, lens, n, y, lens[y], rows[y + 1]);
    assert rows[y][..lens[y]] == rows[y];
  }

  const READ: nat := 4096

  /** How far reading on from offset `done` gets, when a read at an offset yields at most `given` of it and a read of no
      bytes ends it. */
  function Got(size: nat, given: nat -> nat, done: nat): (g: nat)
    requires done <= size
    ensures done <= g <= size
    decreases size - done
  {
    var n := Min(given(done), Min(READ, size - done));
    if n == 0 then done else Got(size, given, done + n)
  }

  /** Reads that never come back empty give the whole file, however short they are. */
  lemma {:induction false} WholeFile(size: nat, given: nat -> nat, done: nat)
    requires done <= size && forall k :: given(k) > 0
    ensures Got(size, given, done) == size
    decreases size - done
  {
    if done < size { WholeFile(size, given, done + Min(given(done), Min(READ, size - done))); }
  }

  lemma OneEmptyRow()
    ensures EditorText.InsertRow([], 0, [], CAPS) == [[]]
  {
  }

  lemma LoadEnd(rows: seq<Row>, line: Row, rest: seq<Byte>)
    requires |line| < WRAP
    ensures |rows| < CAPS.rows && rest == [] ==>
              LoadFrom(rows, line, rest) ==
              if |line| > 0 || |rows| == 0 then EditorText.InsertRow(rows, |rows|, line, CAPS) else rows
  {
  }

  lemma OpenedSlot(g: seq<Line>, was: seq<Line>, i: nat, n: nat)
    requires |g| == |was| == MAX_ROWS && 0 < i <= n < MAX_ROWS - 1
    requires g[..i + 1] == was[..i + 1] && g[i + 1..n + 1] == was[i..n]
    ensures var g' := g[i := g[i - 1]]; g'[..i] == was[..i] && g'[i..n + 1] == was[i - 1..n]
  {
    var g' := g[i := g[i - 1]];
    assert g'[..i] == g[..i + 1][..i] && was[..i] == was[..i + 1][..i];
    assert g[i - 1] == g[..i + 1][i - 1] == was[..i + 1][i - 1];
    assert g'[i..n + 1] == [g[i - 1]] + g[i + 1..n + 1];
    assert was[i - 1..n] == [was[i - 1]] + was[i..n];
  }

  lemma KeptPrefix(c: seq<Byte>, c': seq<Byte>, n: nat, lo: nat, hi: nat)
    requires n <= |c| && n <= |c'| && c[..n] == c'[..n] && lo <= hi <= n
    ensures c[lo..hi] == c'[lo..hi]
  {
    SliceOfSlice(c, 0, n, lo, hi);
    SliceOfSlice(c', 0, n, lo, hi);
    assert c[0..n] == c[..n] && c'[0..n] == c'[..n];
  }

  lemma KeptStretch(m: seq<Byte>, o: nat, data: seq<Byte>, lo: nat, hi: nat)
    requires o + |data| <= |m| && lo <= hi <= o
    ensures Put(m, o, data)[lo..hi] == m[lo..hi]
  {
  }

  lemma PutNothing(m: seq<Byte>, o: nat)
    requires o <= |m|
    ensures Put(m, o, []) == m
  {
  }

  lemma WholeSlot(was: seq<Byte>, data: seq<Byte>)
    requires |was| == |data|
    ensures Put(was, 0, data) == data
  {
  }
}
