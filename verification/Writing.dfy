/** kernel/src/tty.c: what control characters, escape sequences and colours do to a text. */
module Writing {
  import opened Common
  import opened Terminal
  import Digits

  // ------------------------------------------------------------------ control characters

  /** A line break goes to the first column of the next row, a return to the first column of this one, and a backspace
      one place back. */
  lemma Controls(p: nat)
    ensures var q := NextOnTape(p, NEWLINE); q % 80 == 0 && p < q <= p + 80
    ensures var q := NextOnTape(p, RETURN); q % 80 == 0 && q <= p < q + 80
    ensures p > 0 ==> NextOnTape(p, BACKSPACE) + 1 == p
  {
  }

  predicate Printable(cs: seq<Char>) {
    forall i :: 0 <= i < |cs| ==> Glyph(cs[i])
  }

  lemma {:induction false} TypedBoth(t: Tape, a: seq<Char>, b: seq<Char>)
    ensures TypedAll(t, a + b) == TypedAll(TypedAll(t, a), b)
    decreases |b|
  {
    if b == [] {
      assert a + b == a;
    } else {
      assert (a + b)[..|a + b| - 1] == a + b[..|b| - 1];
      TypedBoth(t, a, b[..|b| - 1]);
    }
  }

  lemma TypedOne(t: Tape, c: Char)
    ensures TypedAll(t, [c]) == Typed(t, c)
  {
    assert [c][..0] == [];
    assert TypedAll(t, [c][..0]) == t;
  }

  /** The place that a control character takes one to, after some text, is where the next text goes. */
  lemma TextBehind(t: Tape, a: seq<Char>, c: Char, b: seq<Char>, q: nat, p: nat) returns (r: Tape)
    requires Printable(a) && Printable(b) && !Glyph(c) && q == NextOnTape(t.pos + |a|, c)
    ensures r == TypedAll(t, a + ([c] + b)) && r.pos == q + |b|
    ensures At(r, p) == if q <= p < q + |b| then b[p - q] % 256
                        else if t.pos <= p < t.pos + |a| then a[p - t.pos] % 256 else At(t, p)
  {
    TypedBoth(t, a, [c] + b);
    TypedBoth(TypedAll(t, a), [c], b);
    TypedOne(TypedAll(t, a), c);
    TypedText(t, a, p);
    TypedText(Typed(TypedAll(t, a), c), b, p);
    r := TypedAll(t, a + ([c] + b));
  }

  lemma RowsFrom(start: nat, n: nat)
    requires start % 80 == 0 && n < 80
    ensures NextOnTape(start + n, NEWLINE) == start + 80 && NextOnTape(start + n, RETURN) == start
  {
    assert (start + n) % 80 == n;
  }

  /** Two lines of text: each stands in its own row. */
  lemma TwoLines(t: Tape, a: seq<Char>, b: seq<Char>, p: nat) returns (r: Tape)
    requires Printable(a) && Printable(b) && t.pos % 80 == 0 && |a| < 80
    ensures r == TypedAll(t, a + ([NEWLINE] + b)) && r.pos == t.pos + 80 + |b|
    ensures t.pos <= p < t.pos + |a| ==> At(r, p) == a[p - t.pos] % 256
    ensures t.pos + 80 <= p < t.pos + 80 + |b| ==> At(r, p) == b[p - t.pos - 80] % 256
    ensures t.pos + |a| <= p < t.pos + 80 ==> At(r, p) == At(t, p)
  {
    RowsFrom(t.pos, |a|);
    r := TextBehind(t, a, NEWLINE, b, t.pos + 80, p);
  }

  /** A return, and the row is written again. */
  lemma WrittenAgain(t: Tape, a: seq<Char>, b: seq<Char>, p: nat) returns (r: Tape)
    requires Printable(a) && Printable(b) && t.pos % 80 == 0 && |a| == |b| < 80
    ensures r == TypedAll(t, a + ([RETURN] + b)) && r.pos == t.pos + |b|
    ensures At(r, p) == if t.pos <= p < t.pos + |b| then b[p - t.pos] % 256 else At(t, p)
  {
    RowsFrom(t.pos, |a|);
    r := TextBehind(t, a, RETURN, b, t.pos, p);
  }

  // ------------------------------------------------------------------ escape sequences

  function Chars(s: seq<Byte>): (cs: seq<Char>)
    ensures |cs| == |s|
  {
    seq(|s|, i requires 0 <= i < |s| => s[i])
  }

  lemma {:induction false} NumberOf(s: seq<Byte>)
    requires Digits.AreDigits(s, 10)
    ensures forall i :: 0 <= i < |s| ==> IsDigit(Chars(s)[i])
    ensures Number(Chars(s)) == Digits.Value(s, 10)
    decreases |s|
  {
    if s != [] {
      NumberOf(s[..|s| - 1]);
      assert Chars(s)[..|s| - 1] == Chars(s[..|s| - 1]);
    }
  }

  function Escape(x: nat, letter: Char): seq<Char> {
    [ESC as Char, BRACKET] + Chars(Digits.Numeral(x, 10)) + [letter]
  }

  /** ESC [ x letter does to the tape what the letter says, x times. */
  lemma EscapeOnTape(t: Tape, base: nat, x: nat, letter: Char)
    requires |Digits.Numeral(x, 10)| < 16 && !IsDigit(letter)
    ensures Complete(Escape(x, letter)) && Traced(t, base, Escape(x, letter)) == t.(pos := SteeredOnTape(t.pos, base, letter, x))
  {
    var s := Digits.Numeral(x, 10);
    Digits.NumeralMeans(x, 10);
    NumberOf(s);
    var ds := Chars(s);
    var cs := Escape(x, letter);
    assert cs[2..] == ds + [letter];
    AllDigits(ds, letter);
    assert cs[2..2 + |ds|] == ds && cs[3 + |ds|..] == [];
  }

  /** A goes up x rows and B down, in the same column, C and D to the right and to the left, and H to the first cell of
      the screen. */
  lemma Letters(p: nat, base: nat, x: nat)
    ensures x <= p / 80 ==> var q := SteeredOnTape(p, base, 65, x); q / 80 == p / 80 - x && q % 80 == p % 80
    ensures var q := SteeredOnTape(p, base, 66, x); q / 80 == p / 80 + x && q % 80 == p % 80
    ensures SteeredOnTape(p, base, 67, x) == p + x
    ensures x <= p ==> SteeredOnTape(p, base, 68, x) + x == p
    ensures SteeredOnTape(p, base, 72, x) == base
  {
  }

  /** An ESC that no bracket follows swallows one character. */
  lemma Swallowed(s: Screen, c: Char, cs: seq<Char>)
    requires s.Valid() && c != BRACKET && Complete(cs)
    ensures Complete([ESC as Char, c] + cs) && Obeyed(s, [ESC as Char, c] + cs) == Obeyed(s, cs)
  {
    var all := [ESC as Char, c] + cs;
    assert all[2..] == cs;
  }

  // ------------------------------------------------------------------ colours

  /** All cells have the colour that is set. */
  predicate Uniform(s: Screen)
    requires s.Valid()
  {
    forall k :: 0 <= k < SIZE ==> s.cells[k].color == s.color
  }

  /** tty_set_color keeps every character and the cursor, and gives every cell the new colour. */
  lemma ColorSet(s: Screen, c: bv8)
    requires s.Valid()
    ensures var r := Scrolled(s.(color := c), 0);
      && Uniform(r) && r.color == c && r.ptr == s.ptr && forall k :: 0 <= k < SIZE ==> r.cells[k].ch == s.cells[k].ch
  {
  }

  /** Scrolling by n rows: each row is the one n below, the last n are empty, and all have the colour that is set. */
  lemma RowsScrolled(s: Screen, n: nat, row: nat, column: nat)
    requires s.Valid() && n <= 25 && row < 25 && column < 80
    ensures var r := Scrolled(s, n);
      && Uniform(r) && (80 * n <= s.ptr ==> r.ptr == s.ptr - 80 * n)
      && r.cells[80 * row + column].ch == if row + n < 25 then s.cells[80 * (row + n) + column].ch else 0
  {
  }

  /** A negative count moves the cursor by a whole screen, and nothing else. */
  lemma NegativeScroll(s: Screen, n: int)
    requires s.Valid() && n < 0 && s.ptr >= SIZE
    ensures Scrolled(s, n) == s.(ptr := s.ptr - SIZE)
  {
  }

  /** A cleared screen shows spaces, and so does every row of it that scrolling brings to the top; rows that come in from
      below are empty. */
  lemma Cleared(color: bv8, n: nat, row: nat, column: nat)
    requires n <= 25 && row < 25 && column < 80
    ensures Uniform(Blank(color)) && Blank(color).ptr == 0 && Blank(color).color == color
    ensures Scrolled(Blank(color), n).cells[80 * row + column] == Cell(if row + n < 25 then 32 else 0, color)
    ensures At(Tape(map[], 0), 80 * row + column) == 32 && At(Tape(map[], 0), 80 * (row + 25) + column) == 0
  {
    RowsScrolled(Blank(color), n, row, column);
  }

  lemma NoBits(b: bv8)
    ensures b | 0 == b && b | 0xFF == 0xFF
  {
  }

  /** A byte is written in the colour that is set. A char above 127 is negative, and tty_puts hands it on with all bits of
      its high byte set, which turn into white on white. */
  lemma ColorOf(b: Byte, color: bv8)
    ensures Entry(b, color) == Cell(b, color)
    ensures Entry(b + 0xFF00, color) == Cell(b, 0xFF)
  {
    NoBits(color);
    assert (b + 0xFF00) / 256 == 255;
    assert b / 256 == 0;
  }

  lemma PutUniform(s: Screen, c: Char)
    requires s.Valid() && Uniform(s) && c < 256
    ensures Uniform(Put(s, c)) && Put(s, c).color == s.color
  {
    ColorOf(c, s.color);
  }

  /** A screen in one colour stays in it, whatever bytes are written with tty_putc. */
  lemma {:induction false} StaysUniform(s: Screen, cs: seq<Char>)
    requires s.Valid() && Uniform(s) && forall i :: 0 <= i < |cs| ==> cs[i] < 256
    ensures Uniform(PutAll(s, cs)) && PutAll(s, cs).color == s.color
  {
    if cs != [] {
      StaysUniform(s, cs[..|cs| - 1]);
      PutUniform(PutAll(s, cs[..|cs| - 1]), cs[|cs| - 1]);
    }
  }
}
