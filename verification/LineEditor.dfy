/** kernel/src/tty.c: the line editor. */
module LineEditor {
  import opened Common
  import opened Editing
  import opened LineScreen
  import opened LineSteps
  import opened LineText
  import Memory
  import Terminal

  class LineEditor {
    const hist: array<Byte>   // tty_history
    const tty: Terminal.Tty
    var row: nat              // the row that tty_input_buf points to
    var browsed: nat          // history_ptr
    var first: nat            // history_fst
    var last: nat             // history_lst
    var ptr: nat              // tty_input_ptr
    var len: nat              // tty_input_len
    var prompt: nat           // tty_prompt_ptr
    var stop: bool            // tty_stop_read
    ghost var rows: seq<seq<Byte>>

    ghost function Text(): Text
      reads this, hist
    {
      LineText.Text.Text(hist[..], rows, row, browsed, first, last, ptr, len)
    }

    /** All that one key can rely on without knowing what the bytes are. */
    ghost predicate Sized()
      reads this, hist, tty
    {
      tty.Valid() && Text().Sized() && prompt < Terminal.SIZE
    }

    ghost predicate Valid()
      reads this, hist, tty
    {
      Sized() && Text().Valid()
    }

    ghost function View(): Editor
      reads this, hist, tty
      requires Sized()
    {
      Text().View()
    }

    /** The screen from the prompt on is the line, with blanks behind it and the cursor at its place. */
    ghost predicate OnScreen()
      reads this, hist, tty, tty.buffer
      requires Sized()
    {
      Shown(Text(), tty.View(), prompt)
    }

    /** Lines 386-390, after __history_new_buf: an empty line in the last row. */
    constructor (hist: array<Byte>, tty: Terminal.Tty, prompt: nat, browsed: nat, first: nat, last: nat,
                 ghost rows: seq<seq<Byte>>)
      requires HistoryHolds(hist[..], rows, ROWS) && tty.Valid() && prompt < Terminal.SIZE
      requires browsed < ROWS && last < ROWS
      modifies hist
      ensures Valid() && !stop && this.hist == hist && this.tty == tty && this.prompt == prompt
      ensures View() == Editor(rows, last, browsed, first, last, [], [])
      ensures tty.ptr == prompt && ClearFrom(tty.buffer[..], prompt) <==> OnScreen()
    {
      this.hist, this.tty, this.prompt, this.rows := hist, tty, prompt, rows;
      this.browsed, this.first, this.last := browsed, first, last;
      row, ptr, len, stop := last, 0, 0, false;
      new;
      ghost var was := hist[..];
      RowsStart(was, rows, last, ROWS);
      hist[ROW * last] := NUL;
      HistoryKept(hist[..], was, rows, last);
      StartsShown(tty.View(), prompt, View());
    }

    /** Lines 611-612, before a line is read */
    static method Prompt(tty: Terminal.Tty) returns (prompt: nat)
      requires tty.Valid()
      modifies tty`ptr, tty.buffer
      ensures tty.Valid() && prompt == tty.ptr && tty.View() == Terminal.Put(old(tty.View()), PROMPT)
      ensures old(tty.ptr < Terminal.SIZE && ClearFrom(tty.buffer[..], tty.ptr)) ==>
                prompt < Terminal.SIZE && ClearFrom(tty.buffer[..], prompt)
    {
      ghost var s := tty.View();
      if s.ptr < Terminal.SIZE && ClearFrom(s.cells, s.ptr) {
        PromptIsClear(s);
      }
      tty.Putc(PROMPT);
      prompt := tty.ptr;
    }

    // ---------------------------------------------------------------- cells

    /** tty_buffer[to] = tty_buffer[from]. What stands past the last cell is not known. */
    method CopyCell(to: nat, from: nat)
      requires tty.Valid()
      modifies tty.buffer
      ensures to < Terminal.SIZE && from < Terminal.SIZE ==>
                tty.buffer[..] == old(tty.buffer[..])[to := old(tty.buffer[from])]
    {
      if to < Terminal.SIZE {
        var cell := if from < Terminal.SIZE then tty.buffer[from] else Terminal.Cell(0, 0);
        tty.buffer[to] := cell;
      }
    }

    /** tty_buffer[i] = cell */
    method SetCell(i: nat, cell: Terminal.Cell)
      requires tty.Valid()
      modifies tty.buffer
      ensures i < Terminal.SIZE ==> tty.buffer[..] == old(tty.buffer[..])[i := cell]
    {
      if i < Terminal.SIZE {
        tty.buffer[i] := cell;
      }
    }

    /** Lines 338-340 and 353-355 */
    method CloseCells(lo: nat, hi: nat)
      requires tty.Valid()
      modifies tty.buffer
      ensures lo <= hi < Terminal.SIZE ==> tty.buffer[..] == Closed(old(tty.buffer[..]), lo, hi)
    {
      ghost var was := tty.buffer[..];
      var i := lo;
      while i < hi
        invariant lo <= hi < Terminal.SIZE ==> i <= hi && tty.buffer[..] == Closed(was, lo, i)
      {
        CopyCell(i, i + 1);
        i := i + 1;
      }
    }

    // ---------------------------------------------------------------- moving the cursor

    method GoTo(p: nat, q: nat)
      requires Sized() && p < WORDS && q <= len
      modifies this`ptr, tty`ptr, tty.buffer
      ensures Sized() && Text() == old(Text()).(ptr := q)
      ensures p < Terminal.SIZE ==> tty.View() == old(tty.View()).(ptr := p)
    {
      tty.ptr := p;
      ptr := q;
      tty.UpdateCursor();
    }

    /** KEY_LEFT, KEY_RIGHT, KEY_HOME and KEY_END, on lines 307-330 */
    method MoveCursor(key: Byte)
      requires Sized() && Moves(key)
      modifies this`ptr, tty`ptr, tty.buffer
      ensures Sized() && Text() == old(Text()).(ptr := Target(old(Text()), key))
      ensures old(tty.ptr == prompt + ptr && prompt + len < Terminal.SIZE) ==>
                tty.View() == old(tty.View()).(ptr := prompt + ptr)
    {
      if key == LEFT {
        if 0 < ptr <= len {
          GoTo(Terminal.Minus(tty.ptr, 1), ptr - 1);
        }
      } else if key == RIGHT {
        if ptr < len {
          GoTo(Terminal.Plus(tty.ptr, 1), ptr + 1);
        }
      } else if key == HOME {
        GoTo(Terminal.Minus(tty.ptr, ptr), 0);
      } else {
        GoTo(Terminal.Plus(tty.ptr, len - ptr), len);
      }
    }

    // ---------------------------------------------------------------- backspace

    /** Lines 334-336 */
    method EraseLast()
      requires Sized() && 0 < ptr == len
      modifies this`ptr, this`len, tty`ptr, tty.buffer
      ensures Sized() && Text() == old(Text()).(ptr := old(ptr) - 1, len := old(len) - 1)
      ensures 0 < old(tty.ptr) < Terminal.SIZE ==> tty.View() == LastErased(old(tty.View()))
    {
      if 0 < tty.ptr < Terminal.SIZE {
        ErasePuts(tty.View());
      }
      Terminal.ObeyedPlain(tty.View(), ERASE);
      var n := tty.PutString([8, 32, 8]);
      len, ptr := len - 1, ptr - 1;
    }

    /** Lines 338-342 */
    method EraseCell()
      requires tty.Valid() && 0 < len < ROW
      modifies tty`ptr, tty.buffer
      ensures tty.Valid()
      ensures old(InReach(tty.View(), len) && 0 < tty.ptr) ==> tty.View() == CellErased(old(tty.View()), len)
    {
      var p := tty.ptr;
      CloseCells(Terminal.Minus(p, 1), Terminal.Minus(Terminal.Plus(p, len), 1));
      SetCell(Terminal.Plus(p, len), Terminal.Entry(32, tty.color));
      tty.ptr := Terminal.Minus(p, 1);
    }

    /** Lines 344-346 */
    method EraseByte()
      requires Sized() && 0 < ptr < len
      modifies this`ptr, this`len, hist
      ensures Sized() && Text() == ByteErased(old(Text()))
    {
      var b := ROW * row;
      MoveIsClose(hist[..], b + ptr - 1, len - ptr);
      Memory.Memmove(hist, b + ptr - 1, b + ptr, len - ptr);
      ptr := ptr - 1;
      len := len - 1;
    }

    method EraseInside()
      requires Sized() && 0 < ptr < len
      modifies this`ptr, this`len, hist, tty`ptr, tty.buffer
      ensures Sized() && Text() == ByteErased(old(Text()))
      ensures old(InReach(tty.View(), len) && 0 < tty.ptr) ==> tty.View() == CellErased(old(tty.View()), old(len))
    {
      EraseCell();
      EraseByte();
      tty.UpdateCursor();
    }

    // ---------------------------------------------------------------- delete

    /** Lines 353-356 */
    method DeleteCell()
      requires tty.Valid() && 0 < len < ROW
      modifies tty.buffer
      ensures old(InReach(tty.View(), len)) ==> tty.View() == CellDeleted(old(tty.View()), len)
    {
      var end := Terminal.Minus(Terminal.Plus(tty.ptr, len), 1);
      CloseCells(tty.ptr, end);
      SetCell(end, Terminal.Entry(0, tty.color));
    }

    /** Lines 359-360 */
    method DeleteByte()
      requires Sized() && ptr < len
      modifies this`len, hist
      ensures Sized() && Text() == ByteDeleted(old(Text()))
    {
      var b := ROW * row;
      MoveIsClose(hist[..], b + ptr, len - ptr);
      Memory.Memmove(hist, b + ptr, b + ptr + 1, len - ptr);
      len := len - 1;
    }

    method DeleteHere()
      requires Sized() && ptr < len
      modifies this`len, hist, tty`ptr, tty.buffer
      ensures Sized() && Text() == ByteDeleted(old(Text()))
      ensures old(InReach(tty.View(), len)) ==> tty.View() == CellDeleted(old(tty.View()), old(len))
    {
      DeleteCell();
      tty.UpdateCursor();
      DeleteByte();
    }

    // ---------------------------------------------------------------- other keys

    /** Lines 364-369: room for one more in the text and on the screen. */
    method MakeRoom()
      requires Sized() && len + 1 < ROW
      modifies hist, tty.buffer
      ensures hist[..] == Opened(old(hist[..]), ROW * row + ptr, ROW * row + len)
      ensures tty.ptr + (len - ptr) < Terminal.SIZE ==>
                tty.buffer[..] == Opened(old(tty.buffer[..]), tty.ptr, tty.ptr + (len - ptr))
    {
      ghost var m, cells := hist[..], tty.buffer[..];
      var b, p := ROW * row, tty.ptr;
      var i := len;
      while i > ptr
        invariant ptr <= i <= len && hist[..] == Opened(m, b + i, b + len)
        invariant p + (len - ptr) < Terminal.SIZE ==>
                    tty.buffer[..] == Opened(cells, p + (i - ptr), p + (len - ptr))
      {
        hist[b + i] := hist[b + i - 1];
        CopyCell(Terminal.Plus(p, i - ptr), Terminal.Plus(p, i - ptr - 1));
        i := i - 1;
      }
    }

    /** Lines 364-371 */
    method InsertByte(key: Byte)
      requires Sized() && len + 1 < ROW
      modifies this`ptr, this`len, hist, tty.buffer
      ensures Sized() && Text() == ByteInserted(old(Text()), key)
      ensures var n := old(len - ptr);
        tty.ptr + n < Terminal.SIZE ==> tty.buffer[..] == Opened(old(tty.buffer[..]), tty.ptr, tty.ptr + n)
    {
      MakeRoom();
      len := len + 1;
      hist[ROW * row + ptr] := key;
      ptr := ptr + 1;
    }

    /** Lines 364-372 */
    method InsertHere(key: Byte)
      requires Sized() && len + 1 < ROW
      modifies this`ptr, this`len, hist, tty`ptr, tty.buffer
      ensures Sized() && Text() == ByteInserted(old(Text()), key)
      ensures old(InReach(tty.View(), len - ptr + 1)) && Plain([key]) ==>
                tty.View() == CellInserted(old(tty.View()), old(len - ptr), key)
    {
      InsertByte(key);
      assert Plain([key]) ==> Terminal.Glyph([key][0]);
      tty.Putc(key);
    }

    // ---------------------------------------------------------------- history

    /** Lines 250-257 */
    method OpenRow(to: nat)
      requires Sized() && to < ROWS && (to == row || |rows[to]| < ROW)
      requires var r := RowOpened(Text(), to); Memory.StringAt(r.hist, ROW * to, r.len)
      modifies hist, this`rows, this`row, this`browsed, this`ptr, this`len
      ensures Sized() && Text() == RowOpened(old(Text()), to)
    {
      ghost var r := RowOpened(Text(), to);
      hist[ROW * row + len] := NUL;
      assert hist[..] == r.hist;
      browsed := to;
      row := to;
      len := Memory.Strlen(hist, ROW * to, r.len);
      ptr := len;
      rows := r.rows;
    }

    method WriteSpaces(n: nat)
      requires tty.Valid()
      modifies tty`ptr, tty.buffer
      ensures tty.Valid() && tty.View() == Terminal.WroteAll(old(tty.View()), Spaces(n))
    {
      for i := 0 to n
        invariant tty.Valid() && tty.View() == Terminal.WroteAll(old(tty.View()), Spaces(i))
      {
        assert Spaces(i + 1)[..i] == Spaces(i);
        tty.WriteChar(32);
      }
    }

    /** Lines 259-268 */
    method WriteRow(n: nat)
      requires Sized() && ptr == len && Terminal.Complete(AsChars(View().left))
      modifies tty`ptr, tty.buffer
      ensures Sized() && Text() == old(Text())
      ensures ESC !in View().left ==> tty.View() == RowWritten(old(tty.View()), prompt, View(), n)
    {
      tty.ptr := prompt;
      var text := hist[ROW * row..ROW * row + len];
      assert text == View().left;
      if ESC !in text {
        SignedNoEscape(text);
      }
      var written := tty.PutString(AsChars(text));
      if n > len {
        WriteSpaces(n);
      }
      tty.ptr := prompt + len;
    }

    method BrowseTo(to: nat)
      requires Valid() && to < ROWS && Terminal.Complete(AsChars(Moved(View(), to).left))
      modifies hist, this`rows, this`row, this`browsed, this`ptr, this`len, tty`ptr, tty.buffer
      ensures Valid() && View() == Moved(old(View()), to)
      ensures old(OnScreen()) && Writable(prompt, View().left) ==> OnScreen()
    {
      ghost var t, s := Text(), tty.View();
      BrowseStep(t, to);
      var tmp := len;
      OpenRow(to);
      ghost var r := Text();
      WriteRow(tmp);
      if Shown(t, s, prompt) && Writable(prompt, View().left) {
        BrowseShown(t, r, s, prompt, to);
      }
    }

    /** __history_move, with an offset of 1 or -1 */
    method HistoryMove(offset: int)
      requires Valid() && (offset == 1 || offset == -1)
      requires Terminal.Complete(AsChars(Moved(View(), if offset == 1 then After(browsed) else Before(browsed)).left))
      modifies hist, this`rows, this`row, this`browsed, this`ptr, this`len, tty`ptr, tty.buffer
      ensures Valid() && View() == Moved(old(View()), if offset == 1 then After(old(browsed)) else Before(old(browsed)))
      ensures old(OnScreen()) && Writable(prompt, View().left) ==> OnScreen()
    {
      var to := RowAt(browsed, offset);
      BrowseTo(to);
    }

    /** Line 253, where a size_t wraps below zero */
    static method RowAt(browsed: nat, offset: int) returns (to: nat)
      requires browsed < ROWS && (offset == 1 || offset == -1)
      ensures to == if offset == 1 then After(browsed) else Before(browsed)
    {
      var sum := if browsed + offset < 0 then browsed + offset + WORDS else browsed + offset;
      to := sum % ROWS;
    }

    // ---------------------------------------------------------------- the keys

    method Cursor(key: Byte)
      requires Valid() && Moves(key)
      modifies this`ptr, tty`ptr, tty.buffer
      ensures Valid() && View() == Pressed(old(View()), key)
      ensures old(OnScreen()) ==> OnScreen()
    {
      ghost var t := Text();
      MoveStep(t, key);
      if OnScreen() {
        MoveShown(t, t.(ptr := Target(t, key)), tty.View(), prompt, key);
      }
      MoveCursor(key);
    }

    /** KEY_BACKSPACE */
    method Backspace()
      requires Valid()
      modifies this`ptr, this`len, hist, tty`ptr, tty.buffer
      ensures Valid() && View() == Pressed(old(View()), BACKSPACE)
      ensures old(OnScreen()) ==> OnScreen()
    {
      if len > 0 && ptr > 0 {
        if ptr == len {
          EraseLastStep(Text(), tty.View(), prompt);
          EraseLast();
        } else {
          EraseStep(Text(), tty.View(), prompt);
          EraseInside();
        }
      }
    }

    /** KEY_DELETE */
    method Delete()
      requires Valid()
      modifies this`len, hist, tty`ptr, tty.buffer
      ensures Valid() && View() == Pressed(old(View()), DELETE)
      ensures old(OnScreen()) ==> OnScreen()
    {
      if len > 0 && ptr < len {
        DeleteStep(Text(), tty.View(), prompt);
        DeleteHere();
      }
    }

    /** All other keys */
    method Insert(key: Byte)
      requires Valid() && Inserts(key) && len + 1 < ROW
      modifies this`ptr, this`len, hist, tty`ptr, tty.buffer
      ensures Valid() && View() == Pressed(old(View()), key)
      ensures old(OnScreen()) && old(RoomFor(prompt, View(), key)) ==> OnScreen()
    {
      ghost var t, s, r := Text(), tty.View(), ByteInserted(Text(), key);
      InsertStep(t, s, prompt, key);
      InsertHere(key);
      assert Text() == r;
      if Shown(t, s, prompt) && RoomFor(prompt, t.View(), key) {
        assert tty.View() == CellInserted(s, t.len - t.ptr, key);
      }
    }

    /** __history_prev_buf and __history_next_buf */
    method Browse(key: Byte)
      requires Valid() && (key == UP || key == DOWN) && Fits(View(), key)
      modifies hist, this`rows, this`row, this`browsed, this`ptr, this`len, tty`ptr, tty.buffer
      ensures Valid() && View() == Pressed(old(View()), key)
      ensures old(OnScreen()) && old(RoomFor(prompt, View(), key)) ==> OnScreen()
    {
      if key == UP {
        if browsed != first {
          HistoryMove(-1);
        }
      } else {
        if browsed != last {
          HistoryMove(1);
        }
      }
    }

    /** __tty_handle_key: whatever the key, the bytes of the edited row and the cursor in them are the pair of texts
        that the key makes, and if the screen showed the line before, and still has room, it shows it again. */
    method Press(key: Byte)
      requires Valid() && Fits(View(), key)
      modifies hist, this`rows, this`row, this`browsed, this`ptr, this`len, this`stop, tty`ptr, tty.buffer
      ensures Valid() && View() == Pressed(old(View()), key) && stop == (key == NEWLINE)
      ensures old(OnScreen()) && old(RoomFor(prompt, View(), key)) ==> OnScreen()
    {
      stop := key == NEWLINE;
      if !stop {
        if key == UP || key == DOWN {
          Browse(key);
        } else if key == LEFT || key == RIGHT || key == HOME || key == END {
          Cursor(key);
        } else if key == BACKSPACE {
          Backspace();
        } else if key == DELETE {
          Delete();
        } else {
          Insert(key);
        }
      }
    }

    /** Lines 393-397: the keys up to the one that ends the line. */
    method Type(keys: seq<Byte>)
      requires Valid() && !stop && FitsAll(View(), keys)
      requires |keys| > 0 && keys[|keys| - 1] == NEWLINE && NEWLINE !in keys[..|keys| - 1]
      modifies hist, this`rows, this`row, this`browsed, this`ptr, this`len, this`stop, tty`ptr, tty.buffer
      ensures Valid() && View() == PressedAll(old(View()), keys) && stop
      ensures old(OnScreen()) && old(RoomForAll(prompt, View(), keys)) ==> OnScreen()
    {
      ghost var e, shown := View(), OnScreen() && RoomForAll(prompt, View(), keys);
      var i := 0;
      while len < ROW && !stop
        invariant Valid() && i <= |keys| && (stop <==> i == |keys|)
        invariant View() == PressedAll(e, keys[..i])
        invariant shown ==> OnScreen()
        decreases |keys| - i
      {
        FitsBefore(e, keys, i);
        if shown {
          RoomBefore(prompt, e, keys, i);
        }
        KeyIsLast(keys, i);
        assert keys[..i + 1][..i] == keys[..i];
        Press(keys[i]);
        i := i + 1;
      }
      assert keys[..|keys|] == keys;
    }

    /** tty_read, once the line is empty: the caller gets the text that the keys make. */
    method Read(keys: seq<Byte>, dest: array<Byte>)
      requires Valid() && !stop && FitsAll(View(), keys) && dest.Length >= ROW && dest != hist
      requires |keys| > 0 && keys[|keys| - 1] == NEWLINE && NEWLINE !in keys[..|keys| - 1]
      modifies hist, this`rows, this`row, this`browsed, this`ptr, this`len, this`stop, tty`ptr, tty.buffer, dest
      ensures Valid() && View() == PressedAll(old(View()), keys) && stop
      ensures dest[..len + 1] == PressedAll(old(View()), keys).Text() + [NUL]
      ensures old(OnScreen() && RoomForAll(prompt, View(), keys)) ==> Entered(tty.View(), prompt + ptr, View().right)
    {
      Type(keys);
      Deliver(dest);
    }

    /** Lines 400-402 */
    method Deliver(dest: array<Byte>)
      requires Valid() && dest.Length >= ROW && dest != hist
      modifies hist, tty`ptr, tty.buffer, dest
      ensures Valid() && View() == old(View()) && dest[..len + 1] == View().Text() + [NUL]
      ensures old(OnScreen()) ==> Entered(tty.View(), prompt + ptr, old(View().right))
    {
      ghost var shown, e := OnScreen(), View();
      NewLine();
      ghost var s := tty.View();
      assert shown ==> Entered(s, prompt + ptr, e.right);
      HandOver(dest);
      assert tty.View() == s;
    }

    /** Lines 401-402 */
    method HandOver(dest: array<Byte>)
      requires Valid() && dest.Length >= ROW && dest != hist
      modifies hist, dest
      ensures Valid() && View() == old(View()) && dest[..len + 1] == View().Text() + [NUL]
      ensures tty.View() == old(tty.View())
    {
      CloseLine();
      CopyLine(dest);
    }

    /** Line 400 */
    method NewLine()
      requires Valid()
      modifies tty`ptr, tty.buffer
      ensures Valid() && Text() == old(Text())
      ensures old(OnScreen()) ==> Entered(tty.View(), prompt + ptr, old(View().right))
    {
      if OnScreen() {
        EnterExactly(tty.View(), prompt, View());
      }
      tty.Putc(NEWLINE);
    }

    /** Line 401 */
    method CloseLine()
      requires Valid()
      modifies hist
      ensures Valid() && View() == old(View()) && hist[ROW * row + len] == NUL
    {
      ClosedText(Text());
      hist[ROW * row + len] := NUL;
    }

    /** Line 402, memcpy to another buffer */
    method CopyLine(dest: array<Byte>)
      requires Sized() && dest.Length >= ROW && dest != hist && hist[ROW * row + len] == NUL
      modifies dest
      ensures hist[..] == old(hist[..])
      ensures dest[..len + 1] == View().Text() + [NUL]
    {
      var b := ROW * row;
      for i := 0 to len + 1
        invariant forall k :: 0 <= k < i ==> dest[k] == hist[b + k]
        invariant hist[..] == old(hist[..])
      {
        dest[i] := hist[b + i];
      }
      TextIsSplit(Text());
      assert dest[..len + 1] == hist[b..b + len] + [NUL];
    }
  }

  lemma KeyIsLast(keys: seq<Byte>, i: nat)
    requires i < |keys| && keys[|keys| - 1] == NEWLINE && NEWLINE !in keys[..|keys| - 1]
    ensures keys[i] == NEWLINE <==> i + 1 == |keys|
  {
    if i + 1 < |keys| {
      assert keys[i] in keys[..|keys| - 1];
    }
  }
}
