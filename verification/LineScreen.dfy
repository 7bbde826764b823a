/** kernel/src/tty.c: how the cells of the screen and the bytes of the history follow the line that is edited. */
module LineScreen {
  import opened Common
  import opened Editing
  import opened Terminal

  /** Everything behind lo up to hi has moved up by one place. */
  function Opened<T>(m: seq<T>, lo: nat, hi: nat): (r: seq<T>)
    requires lo <= hi < |m|
    ensures |r| == |m|
  {
    seq(|m|, k requires 0 <= k < |m| => if lo < k <= hi then m[k - 1] else m[k])
  }

  /** Everything behind lo up to hi has moved down by one place. */
  function Closed<T>(m: seq<T>, lo: nat, hi: nat): (r: seq<T>)
    requires lo <= hi < |m|
    ensures |r| == |m|
  {
    seq(|m|, k requires 0 <= k < |m| => if lo <= k < hi then m[k + 1] else m[k])
  }

  /** A char is signed: what tty_puts makes of a byte. */
  function Signed(c: Byte): Char {
    if c < 128 then c else c + 0xFF00
  }

  function AsChars(text: seq<Byte>): (cs: seq<Char>)
    ensures |cs| == |text|
  {
    seq(|text|, i requires 0 <= i < |text| => Signed(text[i]))
  }

  const PROMPT: Char := 62  // '>'

  predicate Clear(ch: Byte) { ch == 0 || ch == 32 }

  /** Characters that the screen shows as they are. */
  predicate Plain(s: seq<Byte>) {
    forall i :: 0 <= i < |s| ==> s[i] != 0 && Glyph(s[i])
  }

  /** The text stands at p. */
  predicate Stands(cells: seq<Cell>, p: nat, text: seq<Byte>) {
    p + |text| <= |cells| && forall i :: 0 <= i < |text| ==> cells[p + i].ch == text[i]
  }

  predicate ClearFrom(cells: seq<Cell>, p: nat) {
    forall k :: p <= k < |cells| ==> Clear(cells[k].ch)
  }

  /** The screen from the prompt on is the line, blank behind it, with the cursor at its place, and there is room. */
  predicate Agrees(cells: seq<Cell>, ptr: nat, prompt: nat, e: Editor) {
    && |cells| == SIZE && ptr == prompt + |e.left| && prompt + 2 * (|e.left| + |e.right|) < SIZE
    && Plain(e.left) && Plain(e.right)
    && Stands(cells, prompt, e.left) && Stands(cells, ptr, e.right) && ClearFrom(cells, ptr + |e.right|)
  }

  /** A text that tty_puts writes as it is, with room for it. */
  predicate Writable(prompt: nat, text: seq<Byte>) {
    ESC !in text && Plain(text) && prompt + 2 * |text| < SIZE
  }

  /** What a key needs: room for what it inserts, since a row of 512 bytes holds a text of 511 and its NUL; and in a
      row that is browsed to, which tty_puts writes, no escape sequence that does not end. */
  predicate Fits(e: Editor, key: Byte)
    requires e.Valid()
  {
    && (Inserts(key) ==> |e.left| + |e.right| + 1 < ROW)
    && (Browses(e, key) ==> Complete(AsChars(Pressed(e, key).left)))
  }

  predicate FitsAll(e: Editor, keys: seq<Byte>)
    requires e.Valid()
  {
    keys == [] ||
    var before := keys[..|keys| - 1];
    FitsAll(e, before) && Fits(PressedAll(e, before), keys[|keys| - 1])
  }

  lemma {:induction false} FitsBefore(e: Editor, keys: seq<Byte>, n: nat)
    requires e.Valid() && FitsAll(e, keys) && n <= |keys|
    ensures FitsAll(e, keys[..n])
    ensures n < |keys| ==> Fits(PressedAll(e, keys[..n]), keys[n])
    decreases |keys|
  {
    if n == |keys| {
      assert keys[..n] == keys;
    } else if n + 1 < |keys| {
      FitsBefore(e, keys[..|keys| - 1], n);
      assert keys[..|keys| - 1][..n] == keys[..n];
    }
  }

  /** What a key needs besides for the screen to follow: characters that it shows as they are, and room. */
  predicate RoomFor(prompt: nat, e: Editor, key: Byte)
    requires e.Valid()
  {
    && (Inserts(key) ==> Plain([key]) && prompt + 2 * (|e.left| + |e.right| + 1) < SIZE)
    && (Browses(e, key) ==> Writable(prompt, Pressed(e, key).left))
  }

  predicate RoomForAll(prompt: nat, e: Editor, keys: seq<Byte>)
    requires e.Valid()
  {
    keys == [] ||
    var before := keys[..|keys| - 1];
    RoomForAll(prompt, e, before) && RoomFor(prompt, PressedAll(e, before), keys[|keys| - 1])
  }

  lemma {:induction false} RoomBefore(prompt: nat, e: Editor, keys: seq<Byte>, n: nat)
    requires e.Valid() && RoomForAll(prompt, e, keys) && n < |keys|
    ensures RoomFor(prompt, PressedAll(e, keys[..n]), keys[n])
    decreases |keys|
  {
    if n + 1 < |keys| {
      RoomBefore(prompt, e, keys[..|keys| - 1], n);
      assert keys[..|keys| - 1][..n] == keys[..n];
    }
  }

  // ------------------------------------------------------------------ one key on the screen

  lemma StandsBoth(cells: seq<Cell>, p: nat, l: seq<Byte>, r: seq<Byte>)
    ensures Stands(cells, p, l + r) <==> Stands(cells, p, l) && Stands(cells, p + |l|, r)
  {
    var text := l + r;
    assert forall i :: 0 <= i < |l| ==> text[i] == l[i];
    assert forall i :: 0 <= i < |r| ==> text[|l| + i] == r[i];
    if Stands(cells, p, text) {
      forall i | 0 <= i < |r|
        ensures cells[p + |l| + i].ch == r[i]
      {
        assert cells[p + (|l| + i)].ch == text[|l| + i];
      }
    }
    if Stands(cells, p, l) && Stands(cells, p + |l|, r) {
      forall i | 0 <= i < |text|
        ensures cells[p + i].ch == text[i]
      {
        if i >= |l| {
          assert cells[p + |l| + (i - |l|)].ch == r[i - |l|];
        }
      }
    }
  }

  lemma PlainBoth(l: seq<Byte>, r: seq<Byte>)
    ensures Plain(l + r) <==> Plain(l) && Plain(r)
  {
    var text := l + r;
    assert forall i :: 0 <= i < |l| ==> text[i] == l[i];
    assert forall i :: 0 <= i < |r| ==> text[|l| + i] == r[i];
  }

  lemma CursorMoved(cells: seq<Cell>, ptr: nat, prompt: nat, e: Editor, key: Byte)
    requires e.Valid() && Agrees(cells, ptr, prompt, e) && Moves(key)
    ensures var r := Pressed(e, key); Agrees(cells, prompt + |r.left|, prompt, r)
  {
    var r := Pressed(e, key);
    KeepsText(e, key);
    assert |e.left| + |e.right| == |e.Text()| == |r.Text()| == |r.left| + |r.right|;
    StandsBoth(cells, prompt, e.left, e.right);
    StandsBoth(cells, prompt, r.left, r.right);
    PlainBoth(e.left, e.right);
    PlainBoth(r.left, r.right);
  }

  /** Lines 334-336: erased at the end of the line. */
  lemma ErasedAtEnd(cells: seq<Cell>, ptr: nat, prompt: nat, e: Editor, blank: Cell)
    requires e.Valid() && Agrees(cells, ptr, prompt, e) && e.left != [] && e.right == [] && blank.ch == 32
    ensures Agrees(cells[ptr - 1 := blank], ptr - 1, prompt, Pressed(e, BACKSPACE))
  {
  }

  /** Lines 338-342: more cells are moved than the line has, but those behind it are blank. */
  lemma ErasedInside(cells: seq<Cell>, ptr: nat, prompt: nat, e: Editor, blank: Cell)
    requires e.Valid() && Agrees(cells, ptr, prompt, e) && e.left != [] && blank.ch == 32
    ensures var n := |e.left| + |e.right|;
      Agrees(Closed(cells, ptr - 1, ptr + n - 1)[ptr + n := blank], ptr - 1, prompt, Pressed(e, BACKSPACE))
  {
    var n, r := |e.left| + |e.right|, Pressed(e, BACKSPACE);
    var after := Closed(cells, ptr - 1, ptr + n - 1)[ptr + n := blank];
    forall i | 0 <= i < |r.right|
      ensures after[ptr - 1 + i].ch == r.right[i]
    {
      assert after[ptr - 1 + i] == cells[ptr + i];
    }
  }

  /** Lines 353-356 */
  lemma Deleted(cells: seq<Cell>, ptr: nat, prompt: nat, e: Editor, nothing: Cell)
    requires e.Valid() && Agrees(cells, ptr, prompt, e) && e.right != [] && nothing.ch == 0
    ensures var n := |e.left| + |e.right|;
      Agrees(Closed(cells, ptr, ptr + n - 1)[ptr + n - 1 := nothing], ptr, prompt, Pressed(e, DELETE))
  {
    var n, r := |e.left| + |e.right|, Pressed(e, DELETE);
    var after := Closed(cells, ptr, ptr + n - 1)[ptr + n - 1 := nothing];
    forall i | 0 <= i < |r.right|
      ensures after[ptr + i].ch == r.right[i]
    {
      assert cells[ptr + (i + 1)].ch == e.right[i + 1];
    }
  }

  /** Lines 364-372 */
  lemma Inserted(cells: seq<Cell>, ptr: nat, prompt: nat, e: Editor, key: Byte, cell: Cell)
    requires e.Valid() && Agrees(cells, ptr, prompt, e) && Inserts(key) && RoomFor(prompt, e, key) && cell.ch == key
    ensures Agrees(Opened(cells, ptr, ptr + |e.right|)[ptr := cell], ptr + 1, prompt, Pressed(e, key))
  {
    var r := Pressed(e, key);
    var after := Opened(cells, ptr, ptr + |e.right|)[ptr := cell];
    assert Plain([key]);
    assert [key][0] == key;
    forall i | 0 <= i < |r.right|
      ensures after[ptr + 1 + i].ch == r.right[i]
    {
      assert after[ptr + 1 + i] == cells[ptr + i];
    }
  }

  // ------------------------------------------------------------------ text on the screen

  /** Glyphs that fit are written one after the other. */
  lemma {:induction false} WroteText(s: Screen, cs: seq<Char>)
    requires s.Valid() && s.ptr + |cs| <= SIZE && forall i :: 0 <= i < |cs| ==> Glyph(cs[i])
    ensures WroteAll(s, cs).ptr == s.ptr + |cs| && WroteAll(s, cs).color == s.color
    ensures forall k :: 0 <= k < SIZE ==>
      WroteAll(s, cs).cells[k] == if s.ptr <= k < s.ptr + |cs| then Entry(cs[k - s.ptr], s.color) else s.cells[k]
  {
    if cs != [] {
      WroteText(s, cs[..|cs| - 1]);
    }
  }

  lemma SignedIsPlain(text: seq<Byte>)
    requires Plain(text)
    ensures forall i :: 0 <= i < |text| ==> Glyph(AsChars(text)[i]) && AsChars(text)[i] % 256 == text[i]
  {
  }

  lemma SignedNoEscape(text: seq<Byte>)
    requires ESC !in text
    ensures ESC !in AsChars(text)
  {
    forall i | 0 <= i < |text|
      ensures AsChars(text)[i] != ESC
    {
      assert text[i] in text;
    }
  }

  /** "\b \b" */
  const ERASE: seq<Char> := [8, 32, 8]

  lemma ErasePuts(s: Screen)
    requires s.Valid() && 0 < s.ptr < SIZE
    ensures Puts(s, ERASE) == Screen(s.cells[s.ptr - 1 := Entry(32, s.color)], s.ptr - 1, s.color)
  {
    var c1, c2 := ERASE[..1], ERASE[..2];
    assert c2[..1] == c1;
    assert WroteAll(s, c1[..0]) == s;
    var one := WroteAll(s, c1);
    assert one == Wrote(s, 8);
    var two := WroteAll(s, c2);
    assert two == Wrote(one, 32);
    assert WroteAll(s, ERASE) == Wrote(two, 8);
  }

  function Spaces(n: nat): (cs: seq<Char>)
    ensures |cs| == n
  {
    seq(n, _ => 32)
  }

  /** What __history_move writes: the new text, and spaces over the old one if that was longer. */
  function Rewritten(s: Screen, text: seq<Byte>, old_len: nat): Screen
    requires s.Valid()
  {
    var r := Puts(s, AsChars(text));
    if old_len > |text| then WroteAll(r, Spaces(old_len)) else r
  }

  lemma RewrittenCells(s: Screen, text: seq<Byte>, n: nat)
    requires s.Valid() && Plain(text) && s.ptr + 2 * |text| < SIZE && s.ptr + 2 * n < SIZE
    requires ClearFrom(s.cells, s.ptr + n)
    ensures Stands(Rewritten(s, text, n).cells, s.ptr, text)
    ensures ClearFrom(Rewritten(s, text, n).cells, s.ptr + |text|)
  {
    SignedIsPlain(text);
    WroteText(s, AsChars(text));
    var r := Puts(s, AsChars(text));
    assert Stands(r.cells, s.ptr, text);
    if n > |text| {
      WroteText(r, Spaces(n));
    }
  }

  lemma RowShown(s: Screen, prompt: nat, e: Editor, to: nat)
    requires e.Valid() && s.Valid() && Agrees(s.cells, s.ptr, prompt, e) && to < ROWS
    requires Writable(prompt, Moved(e, to).left)
    ensures var r := Moved(e, to);
      Agrees(Rewritten(s.(ptr := prompt), r.left, |e.left| + |e.right|).cells, prompt + |r.left|, prompt, r)
  {
    RewrittenCells(s.(ptr := prompt), Moved(e, to).left, |e.left| + |e.right|);
  }

  // ------------------------------------------------------------------ where a line begins and ends

  /** An empty line agrees with a screen that is blank from the prompt on. */
  lemma StartsShown(s: Screen, prompt: nat, e: Editor)
    requires s.Valid() && prompt < SIZE && e.left == e.right == []
    ensures Agrees(s.cells, s.ptr, prompt, e) <==> s.ptr == prompt && ClearFrom(s.cells, prompt)
  {
  }

  /** Line 611: what follows the '>' is as blank as before. */
  lemma PromptIsClear(s: Screen)
    requires s.Valid() && s.ptr < SIZE && ClearFrom(s.cells, s.ptr)
    ensures Put(s, PROMPT).ptr < SIZE && ClearFrom(Put(s, PROMPT).cells, Put(s, PROMPT).ptr)
  {
  }

  /** No text right of the cursor reaches below the cursor's row, other than spaces. */
  predicate EndsInRow(ptr: nat, right: seq<Byte>) {
    forall i :: 0 <= i < |right| && RowOf(ptr) + WIDTH <= ptr + i ==> right[i] == 32
  }

  /** Behind the cursor the screen is blank, exactly if the text that was right of the cursor at p ended in its row. */
  predicate Entered(s: Screen, p: nat, right: seq<Byte>) {
    s.ptr < SIZE && (ClearFrom(s.cells, s.ptr) <==> EndsInRow(p, right))
  }

  /** Line 400 goes down from the cursor and not from the end of the text. */
  lemma EnterExactly(s: Screen, prompt: nat, e: Editor)
    requires s.Valid() && Agrees(s.cells, s.ptr, prompt, e)
    ensures Entered(Put(s, NEWLINE), s.ptr, e.right)
  {
    var r, below := Put(s, NEWLINE), RowOf(s.ptr) + WIDTH;
    if below == SIZE {
      assert r.ptr == SIZE - WIDTH;
    } else {
      assert r == s.(ptr := below);
      if EndsInRow(s.ptr, e.right) {
        forall k | below <= k < SIZE
          ensures Clear(r.cells[k].ch)
        {
          if k < s.ptr + |e.right| {
            assert s.cells[s.ptr + (k - s.ptr)].ch == e.right[k - s.ptr];
          }
        }
      } else {
        var i :| 0 <= i < |e.right| && below <= s.ptr + i && e.right[i] != 32;
        assert !Clear(r.cells[s.ptr + i].ch);
      }
    }
  }

  lemma {:induction false} TypingFits(prompt: nat, e: Editor, keys: seq<Byte>)
    requires e.Valid() && Plain(keys) && prompt + 2 * (|e.left| + |e.right| + |keys|) < SIZE
    requires forall i :: 0 <= i < |keys| ==> Inserts(keys[i])
    ensures RoomForAll(prompt, e, keys)
  {
    if keys != [] {
      TypingFits(prompt, e, keys[..|keys| - 1]);
      TypingText(e, keys[..|keys| - 1]);
    }
  }

  /** It does happen: a text that does not fit in the row of its prompt, with the cursor taken back to its start. */
  lemma LeftBelow(prompt: nat, e: Editor, keys: seq<Byte>)
    requires e.Valid() && e.left == e.right == [] && Plain(keys) && prompt + 2 * |keys| < SIZE
    requires forall i :: 0 <= i < |keys| ==> Inserts(keys[i])
    requires RowOf(prompt) + WIDTH < prompt + |keys| && keys[|keys| - 1] != 32
    ensures RoomForAll(prompt, e, keys + [HOME])
    ensures var r := PressedAll(e, keys + [HOME]); r.left == [] && r.right == keys && !EndsInRow(prompt, r.right)
  {
    TypingFits(prompt, e, keys);
    TypingText(e, keys);
    assert (keys + [HOME])[..|keys|] == keys;
    assert e.left + keys == keys && keys + [] == keys;
  }
}
