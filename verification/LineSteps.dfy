/** kernel/src/tty.c: each key changes the text and the screen separately, and they keep agreeing. */
module LineSteps {
  import opened Common
  import opened Editing
  import opened LineScreen
  import opened LineText
  import opened Terminal
  import Memory

  /** The screen shows the line, and there is room. */
  ghost predicate Shown(t: Text, s: Screen, prompt: nat) {
    t.Sized() && s.Valid() && Agrees(s.cells, s.ptr, prompt, t.View())
  }

  // ------------------------------------------------------------------ what happens to the cells

  /** Lines 334-336: "\b \b" */
  function LastErased(s: Screen): Screen
    requires s.Valid() && 0 < s.ptr < SIZE
  {
    Screen(s.cells[s.ptr - 1 := Entry(32, s.color)], s.ptr - 1, s.color)
  }

  predicate InReach(s: Screen, n: nat) {
    s.Valid() && 0 < n && s.ptr + n < SIZE
  }

  /** Lines 338-342, for a line of n characters */
  function CellErased(s: Screen, n: nat): (r: Screen)
    requires InReach(s, n) && 0 < s.ptr
    ensures r.Valid()
  {
    Screen(Closed(s.cells, s.ptr - 1, s.ptr + n - 1)[s.ptr + n := Entry(32, s.color)], s.ptr - 1, s.color)
  }

  /** Lines 353-356, for a line of n characters */
  function CellDeleted(s: Screen, n: nat): (r: Screen)
    requires InReach(s, n)
    ensures r.Valid()
  {
    s.(cells := Closed(s.cells, s.ptr, s.ptr + n - 1)[s.ptr + n - 1 := Entry(0, s.color)])
  }

  /** Lines 364-372, with n characters right of the cursor */
  function CellInserted(s: Screen, n: nat, key: Byte): (r: Screen)
    requires InReach(s, n + 1)
    ensures r.Valid()
  {
    Screen(Opened(s.cells, s.ptr, s.ptr + n)[s.ptr := Entry(key, s.color)], s.ptr + 1, s.color)
  }

  // ------------------------------------------------------------------ key by key

  lemma EraseLastStep(t: Text, s: Screen, prompt: nat)
    requires t.Valid() && 0 < t.ptr == t.len
    ensures ByteErased(t).Valid() && ByteErased(t).View() == Pressed(t.View(), BACKSPACE)
    ensures ByteErased(t) == t.(ptr := t.ptr - 1, len := t.len - 1)
    ensures Shown(t, s, prompt) ==> 0 < s.ptr < SIZE && Shown(ByteErased(t), LastErased(s), prompt)
  {
    ErasedText(t);
    assert ByteErased(t).hist == t.hist;
    if Shown(t, s, prompt) {
      ErasedAtEnd(s.cells, s.ptr, prompt, t.View(), Entry(32, s.color));
    }
  }

  lemma EraseStep(t: Text, s: Screen, prompt: nat)
    requires t.Valid() && 0 < t.ptr < t.len
    ensures ByteErased(t).Valid() && ByteErased(t).View() == Pressed(t.View(), BACKSPACE)
    ensures Shown(t, s, prompt) ==>
      InReach(s, t.len) && 0 < s.ptr && Shown(ByteErased(t), CellErased(s, t.len), prompt)
  {
    ErasedText(t);
    if Shown(t, s, prompt) {
      ErasedInside(s.cells, s.ptr, prompt, t.View(), Entry(32, s.color));
    }
  }

  lemma DeleteStep(t: Text, s: Screen, prompt: nat)
    requires t.Valid() && t.ptr < t.len
    ensures ByteDeleted(t).Valid() && ByteDeleted(t).View() == Pressed(t.View(), DELETE)
    ensures Shown(t, s, prompt) ==> InReach(s, t.len) && Shown(ByteDeleted(t), CellDeleted(s, t.len), prompt)
  {
    DeletedText(t);
    if Shown(t, s, prompt) {
      Deleted(s.cells, s.ptr, prompt, t.View(), Entry(0, s.color));
    }
  }

  lemma InsertShown(t: Text, r: Text, s: Screen, prompt: nat, key: Byte)
    requires r.Sized() && Shown(t, s, prompt) && Inserts(key) && RoomFor(prompt, t.View(), key)
    requires r.View() == Pressed(t.View(), key)
    ensures InReach(s, t.len - t.ptr + 1) && Plain([key])
    ensures Shown(r, CellInserted(s, t.len - t.ptr, key), prompt)
  {
    Inserted(s.cells, s.ptr, prompt, t.View(), key, Entry(key, s.color));
  }

  lemma InsertStep(t: Text, s: Screen, prompt: nat, key: Byte)
    requires t.Valid() && t.len + 1 < ROW && Inserts(key)
    ensures ByteInserted(t, key).Valid() && ByteInserted(t, key).View() == Pressed(t.View(), key)
    ensures Shown(t, s, prompt) && RoomFor(prompt, t.View(), key) ==>
      && InReach(s, t.len - t.ptr + 1) && Plain([key])
      && Shown(ByteInserted(t, key), CellInserted(s, t.len - t.ptr, key), prompt)
  {
    InsertedText(t, key);
    if Shown(t, s, prompt) && RoomFor(prompt, t.View(), key) {
      InsertShown(t, ByteInserted(t, key), s, prompt, key);
    }
  }

  /** Where the cursor goes in the text. */
  function Target(t: Text, key: Byte): nat
    requires t.Sized() && Moves(key)
  {
    if key == LEFT then (if t.ptr > 0 then t.ptr - 1 else 0)
    else if key == RIGHT then (if t.ptr < t.len then t.ptr + 1 else t.len)
    else if key == HOME then 0
    else t.len
  }

  lemma MoveStep(t: Text, key: Byte)
    requires t.Valid() && Moves(key)
    ensures var r := t.(ptr := Target(t, key)); r.Valid() && r.View() == Pressed(t.View(), key)
  {
    MovedText(t, key);
  }

  lemma MoveShown(t: Text, r: Text, s: Screen, prompt: nat, key: Byte)
    requires Moves(key) && r.Sized() && Shown(t, s, prompt)
    requires r.View() == Pressed(t.View(), key)
    ensures s.ptr == prompt + t.ptr && prompt + t.len < SIZE && prompt + r.ptr < SIZE
    ensures Shown(r, s.(ptr := prompt + r.ptr), prompt)
  {
    CursorMoved(s.cells, s.ptr, prompt, t.View(), key);
  }

  lemma BrowseStep(t: Text, to: nat)
    requires t.Valid() && to < ROWS
    ensures to == t.row || |t.rows[to]| < ROW
    ensures RowOpened(t, to).Valid() && RowOpened(t, to).View() == Moved(t.View(), to)
    ensures Memory.StringAt(RowOpened(t, to).hist, ROW * to, RowOpened(t, to).len)
  {
    if to != t.row {
      RowBound(t, to);
    }
    OpenedText(t, to);
    var r := RowOpened(t, to);
  }

  /** The screen after __history_move. */
  function RowWritten(s: Screen, prompt: nat, e: Editor, n: nat): (r: Screen)
    requires s.Valid() && prompt + |e.left| < WORDS
  {
    Rewritten(s.(ptr := prompt), e.left, n).(ptr := prompt + |e.left|)
  }

  lemma BrowseShown(t: Text, r: Text, s: Screen, prompt: nat, to: nat)
    requires t.Valid() && to < ROWS && r.Sized() && r.View() == Moved(t.View(), to) && Shown(t, s, prompt)
    requires Writable(prompt, r.View().left)
    ensures prompt + r.len < SIZE && |r.View().left| == r.len
    ensures Shown(r, RowWritten(s, prompt, r.View(), t.len), prompt)
  {
    RowShown(s, prompt, t.View(), to);
    assert r.View().right == [];
  }
}
