/** kernel/src/tty.c: the line that is edited, in the rows of the history, and what each key does to its bytes. */
module LineText {
  import opened Common
  import opened Editing
  import opened LineScreen
  import Memory

  // ------------------------------------------------------------------ the rows of the history

  /** Row k holds this string. */
  ghost predicate RowHolds(m: seq<Byte>, k: nat, t: seq<Byte>) {
    && |t| < ROW && ROW * k + ROW <= |m| && m[ROW * k + |t|] == 0 && 0 !in t
    && m[ROW * k..ROW * k + |t|] == t
  }

  /** The first n rows, all but the edited one, hold their strings. */
  ghost predicate RowsHold(m: seq<Byte>, rows: seq<seq<Byte>>, row: nat, n: nat)
    decreases n, rows
  {
    n == 0 || (n <= |rows| && RowsHold(m, rows, row, n - 1) && (n - 1 != row ==> RowHolds(m, n - 1, rows[n - 1])))
  }

  ghost predicate HistoryHolds(m: seq<Byte>, rows: seq<seq<Byte>>, row: nat) {
    |m| == ROWS * ROW && |rows| == ROWS && RowsHold(m, rows, row, ROWS)
  }

  lemma {:induction false} RowOfHistory(m: seq<Byte>, rows: seq<seq<Byte>>, row: nat, n: nat, k: nat)
    requires RowsHold(m, rows, row, n) && k < n && k != row
    ensures k < |rows| && RowHolds(m, k, rows[k])
    decreases n
  {
    if k < n - 1 {
      RowOfHistory(m, rows, row, n - 1, k);
    }
  }

  lemma {:induction false} RowsStart(m: seq<Byte>, rows: seq<seq<Byte>>, row: nat, n: nat)
    requires RowsHold(m, rows, ROWS, n) && n <= ROWS
    ensures RowsHold(m, rows, row, n)
    decreases n
  {
    if n > 0 {
      RowsStart(m, rows, row, n - 1);
    }
  }

  /** Nothing has changed outside row. */
  ghost predicate SameOutside(m: seq<Byte>, was: seq<Byte>, row: nat) {
    |m| == |was| && forall k :: 0 <= k < |m| && !(ROW * row <= k < ROW * row + ROW) ==> m[k] == was[k]
  }

  lemma RowKept(m: seq<Byte>, was: seq<Byte>, row: nat, k: nat, t: seq<Byte>)
    requires RowHolds(was, k, t) && SameOutside(m, was, row) && k != row
    ensures RowHolds(m, k, t)
  {
    var p := ROW * k;
    assert m[p..p + |t|] == was[p..p + |t|];
  }

  lemma {:induction false} RowsKept(m: seq<Byte>, was: seq<Byte>, rows: seq<seq<Byte>>, row: nat, n: nat)
    requires RowsHold(was, rows, row, n) && SameOutside(m, was, row)
    ensures RowsHold(m, rows, row, n)
    decreases n
  {
    if n > 0 {
      RowsKept(m, was, rows, row, n - 1);
      if n - 1 != row {
        RowKept(m, was, row, n - 1, rows[n - 1]);
      }
    }
  }

  lemma HistoryKept(m: seq<Byte>, was: seq<Byte>, rows: seq<seq<Byte>>, row: nat)
    requires HistoryHolds(was, rows, row) && SameOutside(m, was, row)
    ensures HistoryHolds(m, rows, row)
  {
    RowsKept(m, was, rows, row, ROWS);
  }

  /** The edited row joins the others. */
  lemma {:induction false} RowJoins(m: seq<Byte>, rows: seq<seq<Byte>>, row: nat, t: seq<Byte>, n: nat, to: nat)
    requires RowsHold(m, rows, row, n) && n <= |rows| && row < |rows| && RowHolds(m, row, t)
    ensures RowsHold(m, rows[row := t], to, n)
    decreases n
  {
    if n > 0 {
      RowJoins(m, rows, row, t, n - 1, to);
    }
  }

  /** t is what comes before the first NUL of text. */
  ghost predicate Ends(text: seq<Byte>, t: seq<Byte>) {
    |t| <= |text| && t == text[..|t|] && 0 !in t && (|t| < |text| ==> text[|t|] == 0)
  }

  /** The edited row is closed with a NUL. */
  lemma RowEnds(m: seq<Byte>, was: seq<Byte>, p: nat, text: seq<Byte>, t: seq<Byte>)
    requires p + |text| < |was| && was[p..p + |text|] == text && m == was[p + |text| := 0] && Ends(text, t)
    ensures m[p + |t|] == 0 && m[p..p + |t|] == t
  {
    assert m[p..p + |t|] == text[..|t|];
    if |t| < |text| {
      assert was[p + |t|] == was[p..p + |text|][|t|];
    }
  }

  lemma SameButOne(m: seq<Byte>, was: seq<Byte>, row: nat, i: nat)
    requires ROW * row <= i < ROW * row + ROW && i < |was| && m == was[i := 0]
    ensures SameOutside(m, was, row)
  {
  }

  lemma RowClosed(m: seq<Byte>, was: seq<Byte>, row: nat, text: seq<Byte>, t: seq<Byte>)
    requires ROW * row + ROW <= |was| && |text| < ROW && Ends(text, t)
    requires was[ROW * row..ROW * row + |text|] == text && m == was[ROW * row + |text| := 0]
    ensures RowHolds(m, row, t) && SameOutside(m, was, row)
  {
    RowEnds(m, was, ROW * row, text, t);
    SameButOne(m, was, row, ROW * row + |text|);
  }

  lemma HistoryClosed(m: seq<Byte>, was: seq<Byte>, rows: seq<seq<Byte>>, row: nat, t: seq<Byte>, to: nat)
    requires HistoryHolds(was, rows, row) && row < ROWS && RowHolds(m, row, t) && SameOutside(m, was, row)
    requires to < ROWS
    ensures HistoryHolds(m, rows[row := t], to) && RowHolds(m, to, rows[row := t][to])
  {
    HistoryKept(m, was, rows, row);
    RowJoins(m, rows, row, t, ROWS, to);
    if to != row {
      RowOfHistory(m, rows, row, ROWS, to);
    }
  }

  lemma OpenedRows(m: seq<Byte>, rows: seq<seq<Byte>>, row: nat, text: seq<Byte>, t: seq<Byte>, to: nat)
    requires HistoryHolds(m, rows, row) && row < ROWS && to < ROWS && |text| < ROW && Ends(text, t)
    requires text == m[ROW * row..ROW * row + |text|]
    ensures HistoryHolds(m[ROW * row + |text| := NUL], rows[row := t], to)
    ensures RowHolds(m[ROW * row + |text| := NUL], to, rows[row := t][to])
  {
    var r := m[ROW * row + |text| := NUL];
    RowClosed(r, m, row, text, t);
    HistoryClosed(r, m, rows, row, t, to);
  }

  /** Row k as the string that strlen sees. */
  lemma RowIsString(m: seq<Byte>, k: nat, t: seq<Byte>)
    requires RowHolds(m, k, t)
    ensures Memory.StringAt(m, ROW * k, |t|)
  {
    var p := ROW * k;
    forall i | p <= i < p + |t|
      ensures m[i] != 0
    {
      assert m[i] == m[p..p + |t|][i - p] == t[i - p];
      assert t[i - p] in t;
    }
  }

  lemma CloseKeeps(m: seq<Byte>, rows: seq<seq<Byte>>, row: nat, lo: nat, hi: nat)
    requires HistoryHolds(m, rows, row) && ROW * row <= lo <= hi < ROW * row + ROW && row < ROWS
    ensures HistoryHolds(Closed(m, lo, hi), rows, row)
  {
    HistoryKept(Closed(m, lo, hi), m, rows, row);
  }

  lemma OpenKeeps(m: seq<Byte>, rows: seq<seq<Byte>>, row: nat, lo: nat, hi: nat, key: Byte)
    requires HistoryHolds(m, rows, row) && ROW * row <= lo <= hi < ROW * row + ROW && row < ROWS
    ensures HistoryHolds(Opened(m, lo, hi)[lo := key], rows, row)
  {
    HistoryKept(Opened(m, lo, hi)[lo := key], m, rows, row);
  }

  lemma EraseSlices(m: seq<Byte>, b: nat, p: nat, l: nat)
    requires 0 < p <= l && b + l < |m|
    ensures var r := Closed(m, b + p - 1, b + l - 1);
      && r[b..b + (p - 1)] == m[b..b + p][..p - 1] && r[b + (p - 1)..b + (l - 1)] == m[b + p..b + l]
  {
  }

  lemma DeleteSlices(m: seq<Byte>, b: nat, p: nat, l: nat)
    requires p < l && b + l < |m|
    ensures var r := Closed(m, b + p, b + l);
      && r[b..b + p] == m[b..b + p] && r[b + p..b + (l - 1)] == m[b + p..b + l][1..]
  {
  }

  lemma InsertSlices(m: seq<Byte>, b: nat, p: nat, l: nat, key: Byte)
    requires p <= l && b + l < |m|
    ensures var r := Opened(m, b + p, b + l)[b + p := key];
      && r[b..b + (p + 1)] == m[b..b + p] + [key] && r[b + (p + 1)..b + (l + 1)] == m[b + p..b + l]
  {
  }

  /** memmove by one place downwards is closing the gap. */
  lemma MoveIsClose(m: seq<Byte>, d: nat, n: nat)
    requires d + 1 + n <= |m|
    ensures Memory.Moved(m, d, d + 1, n) == Closed(m, d, d + n)
  {
  }

  lemma Resplit(m: seq<Byte>, b: nat, p: nat, l: nat, e: Editor)
    requires p <= l && b + l <= |m| && e.Text() == m[b..b + p] + m[b + p..b + l]
    ensures |e.left| <= l && e.left == m[b..b + |e.left|] && e.right == m[b + |e.left|..b + l]
  {
    var text, q := m[b..b + l], |e.left|;
    assert e.Text() == text;
    assert e.left == text[..q] && e.right == text[q..];
  }

  // ------------------------------------------------------------------ the line in its row

  /** tty_history, tty_input_buf, history_ptr, history_fst, history_lst, tty_input_ptr and tty_input_len. What the
      other rows hold is named as well. */
  datatype Text = Text(hist: seq<Byte>, rows: seq<seq<Byte>>, row: nat, browsed: nat, first: nat, last: nat,
                       ptr: nat, len: nat) {
    predicate Sized() {
      |hist| == ROWS * ROW && |rows| == ROWS && row < ROWS && browsed < ROWS && ptr <= len < ROW
    }

    /** Where the row starts. */
    function Base(): nat { ROW * row }

    ghost predicate Valid() {
      Sized() && HistoryHolds(hist, rows, row)
    }

    function View(): (e: Editor)
      requires Sized()
      ensures e.Valid() && |e.left| == ptr && |e.right| == len - ptr
    {
      Editor(rows, row, browsed, first, last, hist[Base()..Base() + ptr], hist[Base() + ptr..Base() + len])
    }
  }

  /** Lines 343-346 */
  function ByteErased(t: Text): (r: Text)
    requires t.Sized() && 0 < t.ptr
    ensures r.Sized()
  {
    t.(hist := Closed(t.hist, t.Base() + t.ptr - 1, t.Base() + t.len - 1), ptr := t.ptr - 1, len := t.len - 1)
  }

  /** Lines 359-360. The byte behind the text is moved as well. */
  function ByteDeleted(t: Text): (r: Text)
    requires t.Sized() && t.ptr < t.len
    ensures r.Sized()
  {
    t.(hist := Closed(t.hist, t.Base() + t.ptr, t.Base() + t.len), len := t.len - 1)
  }

  /** Lines 364-371 */
  function ByteInserted(t: Text, key: Byte): (r: Text)
    requires t.Sized() && t.len + 1 < ROW
    ensures r.Sized()
  {
    var p := t.Base() + t.ptr;
    t.(hist := Opened(t.hist, p, t.Base() + t.len)[p := key], ptr := t.ptr + 1, len := t.len + 1)
  }

  /** Lines 250-257: the line is closed with a NUL, and row to is opened, with the cursor at its end. */
  function RowOpened(t: Text, to: nat): (r: Text)
    requires t.Sized() && to < ROWS && (to == t.row || |t.rows[to]| < ROW)
    ensures r.Sized()
  {
    var text := UpToNul(t.hist[t.Base()..t.Base() + t.len]);
    var rows := t.rows[t.row := text];
    Text(t.hist[t.Base() + t.len := NUL], rows, to, to, t.first, t.last, |rows[to]|, |rows[to]|)
  }

  // ------------------------------------------------------------------ one key on the bytes

  lemma ErasedText(t: Text)
    requires t.Valid() && 0 < t.ptr
    ensures ByteErased(t).Valid() && ByteErased(t).View() == Pressed(t.View(), BACKSPACE)
  {
    EraseSlices(t.hist, t.Base(), t.ptr, t.len);
    CloseKeeps(t.hist, t.rows, t.row, t.Base() + t.ptr - 1, t.Base() + t.len - 1);
  }

  lemma DeletedText(t: Text)
    requires t.Valid() && t.ptr < t.len
    ensures ByteDeleted(t).Valid() && ByteDeleted(t).View() == Pressed(t.View(), DELETE)
  {
    DeleteSlices(t.hist, t.Base(), t.ptr, t.len);
    CloseKeeps(t.hist, t.rows, t.row, t.Base() + t.ptr, t.Base() + t.len);
  }

  lemma InsertedText(t: Text, key: Byte)
    requires t.Valid() && t.len + 1 < ROW && Inserts(key)
    ensures ByteInserted(t, key).Valid() && ByteInserted(t, key).View() == Pressed(t.View(), key)
  {
    InsertSlices(t.hist, t.Base(), t.ptr, t.len, key);
    OpenKeeps(t.hist, t.rows, t.row, t.Base() + t.ptr, t.Base() + t.len, key);
    assert Pressed(t.View(), key) == t.View().(left := t.View().left + [key]);
  }

  lemma TextIsSplit(t: Text)
    requires t.Sized()
    ensures t.View().Text() == t.hist[t.Base()..t.Base() + t.len]
  {
  }

  lemma MovedText(t: Text, key: Byte)
    requires t.Valid() && Moves(key)
    ensures var p := |Pressed(t.View(), key).left|;
      p <= t.len && t.(ptr := p).Valid() && t.(ptr := p).View() == Pressed(t.View(), key)
  {
    KeepsText(t.View(), key);
    Resplit(t.hist, t.Base(), t.ptr, t.len, Pressed(t.View(), key));
  }

  lemma RowBound(t: Text, to: nat)
    requires t.Valid() && to < ROWS && to != t.row
    ensures |t.rows[to]| < ROW
  {
    RowOfHistory(t.hist, t.rows, t.row, ROWS, to);
  }

  lemma OpenedHistory(t: Text, to: nat)
    requires t.Valid() && to < ROWS && (to == t.row || |t.rows[to]| < ROW)
    ensures var r := RowOpened(t, to);
      HistoryHolds(r.hist, r.rows, to) && RowHolds(r.hist, to, r.rows[to])
  {
    var text := t.hist[t.Base()..t.Base() + t.len];
    OpenedRows(t.hist, t.rows, t.row, text, UpToNul(text), to);
  }

  lemma OpenedView(t: Text, to: nat)
    requires t.Sized() && to < ROWS && (to == t.row || |t.rows[to]| < ROW)
    requires var r := RowOpened(t, to); r.View().left == r.rows[to] && r.View().right == []
    ensures RowOpened(t, to).View() == Moved(t.View(), to)
  {
    TextIsSplit(t);
  }

  lemma OpenedText(t: Text, to: nat)
    requires t.Valid() && to < ROWS && (to == t.row || |t.rows[to]| < ROW)
    ensures RowOpened(t, to).Valid() && RowOpened(t, to).View() == Moved(t.View(), to)
    ensures Memory.StringAt(RowOpened(t, to).hist, ROW * to, RowOpened(t, to).len)
  {
    OpenedHistory(t, to);
    var r := RowOpened(t, to);
    RowIsString(r.hist, to, r.rows[to]);
    RowRead(r);
    OpenedView(t, to);
  }

  lemma ClosedText(t: Text)
    requires t.Valid()
    ensures var r := t.(hist := t.hist[t.Base() + t.len := NUL]); r.Valid() && r.View() == t.View()
  {
    var m := t.hist[t.Base() + t.len := NUL];
    SameButOne(m, t.hist, t.row, t.Base() + t.len);
    HistoryKept(m, t.hist, t.rows, t.row);
  }

  lemma RowRead(r: Text)
    requires r.Sized() && RowHolds(r.hist, r.row, r.rows[r.row]) && r.ptr == r.len == |r.rows[r.row]|
    ensures r.View().left == r.rows[r.row] && r.View().right == []
  {
  }
}
