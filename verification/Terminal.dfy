/** kernel/src/tty.c: the screen that the terminal writes on, which scrolls up when the cursor leaves it. */
module Terminal {
  import opened Common

  const WIDTH := 80
  const HEIGHT := 25
  const SIZE := 2000

  /** A cell of the screen. Its low byte is the character. */
  datatype Cell = Cell(ch: Byte, color: bv8)

  /** A uint16_t that is to be written. */
  type Char = c: nat | c < 65536

  /** vga_entry: the high byte of the character runs into the colour. */
  function Entry(c: Char, color: bv8): Cell {
    Cell(c % 256, color | (c / 256) as bv8)
  }

  predicate Glyph(c: Char) {
    c != BACKSPACE && c != NEWLINE && c != RETURN
  }

  function Plus(a: nat, b: nat): nat
    requires a < WORDS && b < WORDS
  {
    if a + b < WORDS then a + b else a + b - WORDS
  }

  function Minus(a: nat, b: nat): nat
    requires a < WORDS && b < WORDS
  {
    if b <= a then a - b else a + WORDS - b
  }

  /** Where the cursor goes. */
  function Next(p: nat, c: Char): (r: nat)
    requires p < WORDS
    ensures r < WORDS
  {
    if c == NEWLINE then Plus(p, WIDTH - p % WIDTH)
    else if c == RETURN then p - p % WIDTH
    else if c == BACKSPACE then Minus(p, 1)
    else Plus(p, 1)
  }

  // ------------------------------------------------------------------ the screen

  datatype Screen = Screen(cells: seq<Cell>, ptr: nat, color: bv8) {
    predicate Valid() {
      |cells| == SIZE && ptr < WORDS
    }
  }

  /** __tty_write_char. What is written past the last cell is not seen. */
  function Wrote(s: Screen, c: Char): (r: Screen)
    requires s.Valid()
    ensures r.Valid()
  {
    var cells := if Glyph(c) && s.ptr < SIZE then s.cells[s.ptr := Entry(c, s.color)] else s.cells;
    Screen(cells, Next(s.ptr, c), s.color)
  }

  /** An n whose product with the width is a size_t, or would be one if it were not negative. */
  predicate Rows(n: int) { -50_000_000 < n && n * WIDTH < WORDS }

  /** The gap is unsigned, so a negative one is a large one. */
  function Gap(n: int): (g: nat)
    ensures g <= SIZE
  {
    if n < 0 || n * WIDTH > SIZE then SIZE else n * WIDTH
  }

  function ScrolledCells(cells: seq<Cell>, gap: nat, color: bv8): (r: seq<Cell>)
    requires |cells| == SIZE && gap <= SIZE
    ensures |r| == SIZE
  {
    seq(SIZE, k requires 0 <= k < SIZE => if k < SIZE - gap then Cell(cells[k + gap].ch, color) else Cell(0, color))
  }

  /** Lines 99-101, once i cells have been moved. */
  function Raised(cells: seq<Cell>, i: nat, gap: nat, color: bv8): (r: seq<Cell>)
    requires |cells| == SIZE && i + gap <= SIZE
    ensures |r| == SIZE
  {
    seq(SIZE, k requires 0 <= k < SIZE => if k < i then Cell(cells[k + gap].ch, color) else cells[k])
  }

  /** tty_scroll. For a negative n only the cursor moves. */
  function Scrolled(s: Screen, n: int): (r: Screen)
    requires s.Valid()
    ensures r.Valid()
  {
    var cells := if n < 0 then s.cells else ScrolledCells(s.cells, Gap(n), s.color);
    Screen(cells, Minus(s.ptr, Gap(n)), s.color)
  }

  /** tty_update_cursor */
  function Updated(s: Screen): (r: Screen)
    requires s.Valid()
    ensures r.Valid()
  {
    if s.ptr >= SIZE then Scrolled(s, s.ptr / WIDTH - HEIGHT + 1) else s
  }

  /** tty_putc */
  function Put(s: Screen, c: Char): (r: Screen)
    requires s.Valid()
    ensures r.Valid()
  {
    Updated(Wrote(s, c))
  }

  function PutAll(s: Screen, cs: seq<Char>): (r: Screen)
    requires s.Valid()
    ensures r.Valid()
  {
    if cs == [] then s else Put(PutAll(s, cs[..|cs| - 1]), cs[|cs| - 1])
  }

  function WroteAll(s: Screen, cs: seq<Char>): (r: Screen)
    requires s.Valid()
    ensures r.Valid()
  {
    if cs == [] then s else Wrote(WroteAll(s, cs[..|cs| - 1]), cs[|cs| - 1])
  }

  /** tty_puts: all is written before the screen scrolls once. */
  function Puts(s: Screen, cs: seq<Char>): (r: Screen)
    requires s.Valid()
    ensures r.Valid()
  {
    Updated(WroteAll(s, cs))
  }

  // ------------------------------------------------------------------ escape sequences

  const BRACKET: Char := 91

  predicate IsDigit(c: Char) { 48 <= c <= 57 }

  /** How many digits come first. */
  function DigitsIn(cs: seq<Char>): (k: nat)
    ensures k <= |cs| && forall i :: 0 <= i < k ==> IsDigit(cs[i])
    ensures k < |cs| ==> !IsDigit(cs[k])
  {
    if cs == [] || !IsDigit(cs[0]) then 0 else 1 + DigitsIn(cs[1..])
  }

  function Number(ds: seq<Char>): nat
    requires forall i :: 0 <= i < |ds| ==> IsDigit(ds[i])
  {
    if ds == [] then 0
    else
      var c := ds[|ds| - 1];
      assert IsDigit(c);
      10 * Number(ds[..|ds| - 1]) + (c - 48)
  }

  /** How much of the string one turn of the loop reads: a character, an ESC with the character behind it, which is
      swallowed, or ESC [ digits letter. */
  function ItemLength(cs: seq<Char>): (n: nat)
    requires cs != []
    ensures n > 0
  {
    if cs[0] != ESC then 1
    else if |cs| == 1 || cs[1] != BRACKET then 2
    else 3 + DigitsIn(cs[2..])
  }

  /** Every escape sequence ends before the string does, with at most 15 digits: 16 fill tmp and leave it without
      a NUL, and behind a sequence that does not end tty_puts goes on behind the string's own NUL. */
  predicate Complete(cs: seq<Char>)
    decreases |cs|
  {
    cs == [] || (ItemLength(cs) <= |cs| && ItemLength(cs) < 19 && Complete(cs[ItemLength(cs)..]))
  }

  /** d is added in 32 bits. */
  function Shifted(p: nat, d: int): (r: nat)
    requires p < WORDS
    ensures r < WORDS
    ensures 0 <= p + d < WORDS ==> r == p + d
  {
    (p + d) % WORDS
  }

  const HOME_LETTER: Char := 72  // 'H'

  /** How far the letters A, B, C and D go. All others but H do nothing. */
  function Distance(c: Char, x: nat): int {
    if c == 65 then -(WIDTH * x) else if c == 66 then WIDTH * x else if c == 67 then x else if c == 68 then 0 - x else 0
  }

  /** Lines 184-202, for the cursor at p */
  function Steered(p: nat, c: Char, x: nat): (r: nat)
    requires p < WORDS
    ensures r < WORDS
  {
    if c == HOME_LETTER then 0 else Shifted(p, Distance(c, x))
  }

  function Command(s: Screen, c: Char, x: nat): (r: Screen)
    requires s.Valid()
    ensures r.Valid()
  {
    s.(ptr := Steered(s.ptr, c, x))
  }

  /** The string starts with ESC [ digits letter. */
  predicate IsSequence(cs: seq<Char>) {
    cs != [] && ItemLength(cs) <= |cs| && cs[0] == ESC && cs[1] == BRACKET
  }

  function Letter(cs: seq<Char>): Char
    requires IsSequence(cs)
  {
    cs[2 + DigitsIn(cs[2..])]
  }

  function Argument(cs: seq<Char>): nat
    requires IsSequence(cs)
  {
    Number(cs[2..2 + DigitsIn(cs[2..])])
  }

  /** What one turn does. */
  function Item(s: Screen, cs: seq<Char>): (r: Screen)
    requires s.Valid() && cs != [] && ItemLength(cs) <= |cs|
    ensures r.Valid()
  {
    if cs[0] != ESC then Wrote(s, cs[0])
    else if IsSequence(cs) then Command(s, Letter(cs), Argument(cs))
    else s
  }

  /** What tty_puts does with the screen before it scrolls. */
  function Obeyed(s: Screen, cs: seq<Char>): (r: Screen)
    requires s.Valid() && Complete(cs)
    ensures r.Valid()
    decreases |cs|
  {
    if cs == [] then s else Obeyed(Item(s, cs), cs[ItemLength(cs)..])
  }

  /** Without escape sequences tty_puts writes one character after the other. */
  lemma {:induction false} ObeyedPlain(s: Screen, cs: seq<Char>)
    requires s.Valid() && ESC !in cs
    ensures Complete(cs) && Obeyed(s, cs) == WroteAll(s, cs)
    decreases |cs|
  {
    if cs != [] {
      ObeyedPlain(Wrote(s, cs[0]), cs[1..]);
      WroteFirst(s, cs);
    }
  }

  lemma {:induction false} WroteFirst(s: Screen, cs: seq<Char>)
    requires s.Valid() && cs != []
    ensures WroteAll(s, cs) == WroteAll(Wrote(s, cs[0]), cs[1..])
    decreases |cs|
  {
    var n := |cs| - 1;
    if n > 0 {
      WroteFirst(s, cs[..n]);
      assert cs[1..][..n - 1] == cs[..n][1..];
    } else {
      assert cs[..0] == [] && cs[1..] == [];
      assert WroteAll(s, cs[..0]) == s;
    }
  }

  /** A string that ends outside of a sequence can be followed by any other. */
  lemma {:induction false} ObeyedBoth(s: Screen, a: seq<Char>, b: seq<Char>)
    requires s.Valid() && Complete(a) && Complete(b)
    ensures Complete(a + b) && Obeyed(s, a + b) == Obeyed(Obeyed(s, a), b)
    decreases |a|
  {
    if a == [] {
      assert a + b == b;
    } else {
      var n := ItemLength(a);
      ItemFirst(s, a, b);
      assert (a + b)[n..] == a[n..] + b;
      ObeyedBoth(Item(s, a), a[n..], b);
    }
  }

  lemma ItemFirst(s: Screen, a: seq<Char>, b: seq<Char>)
    requires s.Valid() && a != [] && ItemLength(a) <= |a|
    ensures ItemLength(a + b) == ItemLength(a) && Item(s, a + b) == Item(s, a)
  {
    if a[0] == ESC && a[1] == BRACKET {
      var k := DigitsIn(a[2..]);
      assert (a + b)[2..] == a[2..] + b && (a + b)[2..2 + k] == a[2..2 + k];
      SameDigits(a[2..], b);
    }
  }

  lemma {:induction false} SameDigits(a: seq<Char>, b: seq<Char>)
    requires DigitsIn(a) < |a|
    ensures DigitsIn(a + b) == DigitsIn(a)
    decreases |a|
  {
    if IsDigit(a[0]) {
      SameDigits(a[1..], b);
      assert (a + b)[1..] == a[1..] + b;
    }
  }

  /** ESC [ digits letter is the command of the letter with the number. */
  lemma SequenceIs(s: Screen, ds: seq<Char>, c: Char)
    requires s.Valid() && |ds| < 16 && !IsDigit(c) && forall i :: 0 <= i < |ds| ==> IsDigit(ds[i])
    ensures var cs := [ESC as Char, BRACKET] + ds + [c];
      Complete(cs) && Obeyed(s, cs) == Command(s, c, Number(ds))
  {
    var cs := [ESC as Char, BRACKET] + ds + [c];
    assert cs[2..] == ds + [c];
    AllDigits(ds, c);
    assert cs[2..2 + |ds|] == ds && cs[3 + |ds|..] == [];
  }

  lemma {:induction false} AllDigits(ds: seq<Char>, c: Char)
    requires !IsDigit(c) && forall i :: 0 <= i < |ds| ==> IsDigit(ds[i])
    ensures DigitsIn(ds + [c]) == |ds|
    decreases |ds|
  {
    if ds != [] {
      AllDigits(ds[1..], c);
      assert (ds + [c])[1..] == ds[1..] + [c];
    } else {
      assert ds + [c] == [c];
    }
  }

  // ------------------------------------------------------------------ the tape

  /** An endless tape of rows and the place of the cursor on it. */
  datatype Tape = Tape(cells: map<nat, Byte>, pos: nat)

  /** What stands at p: what was typed there last, or else the blanks of a cleared screen, or else nothing. */
  function At(t: Tape, p: nat): Byte {
    if p in t.cells then t.cells[p] else if p < SIZE then 32 else 0
  }

  function NextOnTape(p: nat, c: Char): nat {
    if c == NEWLINE then p + (WIDTH - p % WIDTH)
    else if c == RETURN then p - p % WIDTH
    else if c == BACKSPACE then if p == 0 then 0 else p - 1
    else p + 1
  }

  function Typed(t: Tape, c: Char): Tape {
    Tape(if Glyph(c) then t.cells[t.pos := c % 256] else t.cells, NextOnTape(t.pos, c))
  }

  function TypedAll(t: Tape, cs: seq<Char>): Tape {
    if cs == [] then t else Typed(TypedAll(t, cs[..|cs| - 1]), cs[|cs| - 1])
  }

  /** The first cell of the row of p. */
  function RowOf(p: nat): (r: nat)
    ensures r <= p < r + WIDTH && r % WIDTH == 0
  {
    p - p % WIDTH
  }

  /** The window follows the cursor down, and never goes up. */
  function Follow(base: nat, pos: nat): (r: nat)
    ensures base <= r
  {
    if pos < base + SIZE then base else RowOf(pos) - (SIZE - WIDTH)
  }

  /** Where the window is after all this has been typed one by one. */
  function Base(t: Tape, base: nat, cs: seq<Char>): nat {
    if cs == [] then base else Follow(Base(t, base, cs[..|cs| - 1]), TypedAll(t, cs).pos)
  }

  /** The screen shows the 25 rows of the tape from base on, nothing has been typed below them, and the cursor is
      at its place, though perhaps below the window. */
  ghost predicate Holds(s: Screen, t: Tape, base: nat)
    requires s.Valid()
  {
    && base % WIDTH == 0 && t.pos == base + s.ptr
    && (forall k :: 0 <= k < SIZE ==> s.cells[k].ch == At(t, base + k))
    && (forall p :: p in t.cells ==> p < base + SIZE)
  }

  ghost predicate Shows(s: Screen, t: Tape, base: nat)
    requires s.Valid()
  {
    Holds(s, t, base) && s.ptr < SIZE
  }

  lemma SameColumn(base: nat, p: nat)
    requires base % WIDTH == 0
    ensures (base + p) % WIDTH == p % WIDTH
    ensures RowOf(base + p) == base + RowOf(p)
  {
    var k := base / WIDTH;
    assert base == WIDTH * k;
  }

  lemma NextMatches(base: nat, p: nat, c: Char)
    requires base % WIDTH == 0 && p + WIDTH < WORDS && (c == BACKSPACE ==> p > 0)
    ensures NextOnTape(base + p, c) == base + Next(p, c)
    ensures Next(p, c) <= p + WIDTH
  {
    SameColumn(base, p);
  }

  lemma WroteHolds(s: Screen, t: Tape, base: nat, c: Char)
    requires s.Valid() && s.ptr + WIDTH < WORDS && Holds(s, t, base)
    requires (c == BACKSPACE ==> s.ptr > 0) && (Glyph(c) ==> s.ptr < SIZE)
    ensures Holds(Wrote(s, c), Typed(t, c), base)
    ensures Wrote(s, c).ptr == Next(s.ptr, c) <= s.ptr + WIDTH
  {
    NextMatches(base, s.ptr, c);
  }

  /** The cursor's row is scrolled to the bottom of the screen, which takes at most 25 rows from here. */
  lemma ScrollTo(p: nat)
    requires SIZE <= p < 2 * SIZE
    ensures Gap(p / WIDTH - HEIGHT + 1) == RowOf(p) - (SIZE - WIDTH)
  {
  }

  lemma ScrollFollows(base: nat, p: nat)
    requires SIZE <= p < 2 * SIZE && base % WIDTH == 0
    ensures var gap := Gap(p / WIDTH - HEIGHT + 1);
      gap % WIDTH == 0 && gap <= p < gap + SIZE && Follow(base, base + p) == base + gap
  {
    ScrollTo(p);
    SameColumn(base, p);
  }

  /** Scrolling moves the window down the tape. */
  lemma ScrolledHolds(s: Screen, t: Tape, base: nat, gap: nat)
    requires s.Valid() && Holds(s, t, base) && gap % WIDTH == 0 && gap <= SIZE && gap <= s.ptr
    ensures Holds(Screen(ScrolledCells(s.cells, gap, s.color), s.ptr - gap, s.color), t, base + gap)
  {
    SameColumn(base, gap);
    var cells := ScrolledCells(s.cells, gap, s.color);
    forall k | 0 <= k < SIZE
      ensures cells[k].ch == At(t, base + gap + k)
    {
      if k + gap < SIZE {
        assert s.cells[k + gap].ch == At(t, base + (k + gap));
      }
    }
  }

  lemma UpdatedShows(s: Screen, t: Tape, base: nat)
    requires s.Valid() && Holds(s, t, base) && s.ptr < 2 * SIZE
    ensures Shows(Updated(s), t, Follow(base, t.pos))
  {
    if s.ptr >= SIZE {
      var gap := Gap(s.ptr / WIDTH - HEIGHT + 1);
      ScrollFollows(base, s.ptr);
      ScrolledHolds(s, t, base, gap);
      assert Updated(s) == Screen(ScrolledCells(s.cells, gap, s.color), s.ptr - gap, s.color);
    }
  }

  /** One character: the screen is a window onto the tape on which the same character was typed. */
  lemma PutShows(s: Screen, t: Tape, base: nat, c: Char)
    requires s.Valid() && Shows(s, t, base) && (c == BACKSPACE ==> s.ptr > 0)
    ensures Shows(Put(s, c), Typed(t, c), Follow(base, Typed(t, c).pos))
  {
    WroteHolds(s, t, base, c);
    UpdatedShows(Wrote(s, c), Typed(t, c), base);
  }

  /** The one exception is a backspace at cell 0: it takes the cursor off the screen and clears all of it. */
  lemma PutExactly(s: Screen, t: Tape, base: nat, c: Char)
    requires s.Valid() && Shows(s, t, base)
    ensures (exists b :: Shows(Put(s, c), Typed(t, c), b)) <==> !(c == BACKSPACE && s.ptr == 0)
  {
    if c == BACKSPACE && s.ptr == 0 {
      OffScreen(s);
    } else {
      PutShows(s, t, base, c);
    }
  }

  lemma OffScreen(s: Screen)
    requires s.Valid() && s.ptr == 0
    ensures Put(s, BACKSPACE).ptr >= SIZE
    ensures forall k :: 0 <= k < SIZE ==> Put(s, BACKSPACE).cells[k] == Cell(0, s.color)
  {
  }

  /** No backspace comes when the cursor is at cell 0 of the screen. */
  predicate NeverOff(s: Screen, cs: seq<Char>)
    requires s.Valid()
  {
    cs == [] ||
    var before := cs[..|cs| - 1];
    NeverOff(s, before) && (cs[|cs| - 1] == BACKSPACE ==> PutAll(s, before).ptr > 0)
  }

  /** How many lines of these scroll the screen. */
  function Scrolls(s: Screen, cs: seq<Char>): nat
    requires s.Valid()
  {
    if cs == [] then 0
    else
      var before := cs[..|cs| - 1];
      Scrolls(s, before) + if Wrote(PutAll(s, before), cs[|cs| - 1]).ptr >= SIZE then 1 else 0
  }

  lemma OneRow(s: Screen, t: Tape, base: nat, c: Char)
    requires s.Valid() && Shows(s, t, base) && (c == BACKSPACE ==> s.ptr > 0)
    ensures Follow(base, Typed(t, c).pos) == base + if Wrote(s, c).ptr >= SIZE then WIDTH else 0
  {
    NextMatches(base, s.ptr, c);
    SameColumn(base, SIZE);
  }

  /** Any run of tty_putc. The top row of the window is the number of scrolls. */
  lemma {:induction false} EveryRun(s: Screen, t: Tape, base: nat, cs: seq<Char>)
    requires s.Valid() && Shows(s, t, base) && NeverOff(s, cs)
    ensures Shows(PutAll(s, cs), TypedAll(t, cs), Base(t, base, cs))
    ensures Base(t, base, cs) == base + WIDTH * Scrolls(s, cs)
  {
    if cs != [] {
      var before := cs[..|cs| - 1];
      EveryRun(s, t, base, before);
      PutShows(PutAll(s, before), TypedAll(t, before), Base(t, base, before), cs[|cs| - 1]);
      OneRow(PutAll(s, before), TypedAll(t, before), Base(t, base, before), cs[|cs| - 1]);
    }
  }

  function Blank(color: bv8): (s: Screen)
    ensures s.Valid()
  {
    Screen(seq(SIZE, _ => Cell(32, color)), 0, color)
  }

  /** From a cleared screen on, without any assumption about the tape. */
  lemma EveryRunFromBlank(color: bv8, cs: seq<Char>)
    requires NeverOff(Blank(color), cs)
    ensures Shows(PutAll(Blank(color), cs), TypedAll(Tape(map[], 0), cs), WIDTH * Scrolls(Blank(color), cs))
  {
    EveryRun(Blank(color), Tape(map[], 0), 0, cs);
  }

  /** On the tape, text is text. */
  lemma {:induction false} TypedText(t: Tape, cs: seq<Char>, p: nat)
    requires forall i :: 0 <= i < |cs| ==> Glyph(cs[i])
    ensures TypedAll(t, cs).pos == t.pos + |cs|
    ensures At(TypedAll(t, cs), p) == if t.pos <= p < t.pos + |cs| then cs[p - t.pos] % 256 else At(t, p)
  {
    if cs != [] {
      TypedText(t, cs[..|cs| - 1], p);
    }
  }

  // ------------------------------------------------------------------ tty_puts scrolls only once

  /** A command on the tape. There is no place before its start, and H goes to the start of the window. */
  function SteeredOnTape(pos: nat, base: nat, c: Char, x: nat): nat {
    if c == HOME_LETTER then base
    else if pos + Distance(c, x) < 0 then 0
    else pos + Distance(c, x)
  }

  /** One turn of the loop on the tape. */
  function Turned(t: Tape, base: nat, cs: seq<Char>): Tape
    requires cs != [] && ItemLength(cs) <= |cs|
  {
    if cs[0] != ESC then Typed(t, cs[0])
    else if IsSequence(cs) then t.(pos := SteeredOnTape(t.pos, base, Letter(cs), Argument(cs)))
    else t
  }

  /** A string with its escape sequences on the tape, while the window stays at base. */
  function Traced(t: Tape, base: nat, cs: seq<Char>): Tape
    requires Complete(cs)
    decreases |cs|
  {
    if cs == [] then t else Traced(Turned(t, base, cs), base, cs[ItemLength(cs)..])
  }

  /** Without escape sequences the string is typed. */
  lemma {:induction false} TracedPlain(t: Tape, base: nat, cs: seq<Char>)
    requires ESC !in cs
    ensures Complete(cs) && Traced(t, base, cs) == TypedAll(t, cs)
    decreases |cs|
  {
    if cs != [] {
      TracedPlain(Typed(t, cs[0]), base, cs[1..]);
      TypedFirst(t, cs);
    }
  }

  lemma {:induction false} TypedFirst(t: Tape, cs: seq<Char>)
    requires cs != []
    ensures TypedAll(t, cs) == TypedAll(Typed(t, cs[0]), cs[1..])
    decreases |cs|
  {
    var n := |cs| - 1;
    if n > 0 {
      TypedFirst(t, cs[..n]);
      assert cs[1..][..n - 1] == cs[..n][1..];
    } else {
      assert cs[..0] == [] && cs[1..] == [];
      assert TypedAll(t, cs[..0]) == t;
    }
  }

  /** Where one turn takes the cursor. */
  function TurnedTo(p: nat, cs: seq<Char>): (r: nat)
    requires p < WORDS && cs != [] && ItemLength(cs) <= |cs|
    ensures r < WORDS
  {
    if cs[0] != ESC then Next(p, cs[0])
    else if IsSequence(cs) then Steered(p, Letter(cs), Argument(cs))
    else p
  }

  /** Where the cursor is when all is written. */
  function End(p: nat, cs: seq<Char>): (r: nat)
    requires p < WORDS && Complete(cs)
    ensures r < WORDS
    decreases |cs|
  {
    if cs == [] then p else End(TurnedTo(p, cs), cs[ItemLength(cs)..])
  }

  /** The turn does not take the cursor off the top of the screen, or around all 32 bits. */
  predicate Inside(p: nat, cs: seq<Char>)
    requires cs != [] && ItemLength(cs) <= |cs|
  {
    && p + WIDTH < WORDS && (cs[0] == BACKSPACE ==> p > 0)
    && (IsSequence(cs) ==> Letter(cs) == HOME_LETTER || 0 <= p + Distance(Letter(cs), Argument(cs)) < WORDS)
  }

  /** So do all turns, and no character lands past the last cell. */
  predicate Lands(p: nat, cs: seq<Char>)
    requires p < WORDS && Complete(cs)
    decreases |cs|
  {
    cs == [] ||
    (Inside(p, cs) && (cs[0] != ESC && Glyph(cs[0]) ==> p < SIZE) && Lands(TurnedTo(p, cs), cs[ItemLength(cs)..]))
  }

  lemma SteeredMatches(base: nat, p: nat, c: Char, x: nat)
    requires p < WORDS && (c == HOME_LETTER || 0 <= p + Distance(c, x) < WORDS)
    ensures SteeredOnTape(base + p, base, c, x) == base + Steered(p, c, x)
  {
  }

  lemma TurnMatches(t: Tape, base: nat, p: nat, cs: seq<Char>)
    requires base % WIDTH == 0 && p < WORDS && t.pos == base + p && cs != [] && ItemLength(cs) <= |cs| && Inside(p, cs)
    ensures Turned(t, base, cs).pos == base + TurnedTo(p, cs)
  {
    if cs[0] != ESC {
      NextMatches(base, p, cs[0]);
    } else if IsSequence(cs) {
      SteeredMatches(base, p, Letter(cs), Argument(cs));
    }
  }

  lemma ItemHolds(s: Screen, t: Tape, base: nat, cs: seq<Char>)
    requires s.Valid() && Holds(s, t, base) && cs != [] && ItemLength(cs) <= |cs|
    requires Inside(s.ptr, cs) && (cs[0] != ESC && Glyph(cs[0]) ==> s.ptr < SIZE)
    ensures Holds(Item(s, cs), Turned(t, base, cs), base) && Item(s, cs).ptr == TurnedTo(s.ptr, cs)
  {
    TurnMatches(t, base, s.ptr, cs);
    if cs[0] != ESC {
      WroteHolds(s, t, base, cs[0]);
    }
  }

  lemma {:induction false} ObeyedHolds(s: Screen, t: Tape, base: nat, cs: seq<Char>)
    requires s.Valid() && Holds(s, t, base) && Complete(cs) && Lands(s.ptr, cs)
    ensures Holds(Obeyed(s, cs), Traced(t, base, cs), base) && Obeyed(s, cs).ptr == End(s.ptr, cs)
    decreases |cs|
  {
    if cs != [] {
      ItemHolds(s, t, base, cs);
      ObeyedHolds(Item(s, cs), Turned(t, base, cs), base, cs[ItemLength(cs)..]);
    }
  }

  /** tty_puts, escape sequences included, shows the right window too if no character was lost and the cursor ends at
      most 25 rows below. */
  lemma PutsShows(s: Screen, t: Tape, base: nat, cs: seq<Char>)
    requires s.Valid() && Shows(s, t, base) && Complete(cs)
    requires Lands(s.ptr, cs) && End(s.ptr, cs) < 2 * SIZE
    ensures Shows(Updated(Obeyed(s, cs)), Traced(t, base, cs), Follow(base, Traced(t, base, cs).pos))
  {
    ObeyedHolds(s, t, base, cs);
    UpdatedShows(Obeyed(s, cs), Traced(t, base, cs), base);
  }

  predicate AllComplete(strs: seq<seq<Char>>) {
    forall i :: 0 <= i < |strs| ==> Complete(strs[i])
  }

  function PutEach(s: Screen, strs: seq<seq<Char>>): (r: Screen)
    requires s.Valid() && AllComplete(strs)
    ensures r.Valid()
    decreases |strs|
  {
    if strs == [] then s else PutEach(Updated(Obeyed(s, strs[0])), strs[1..])
  }

  /** The tape and where its window is. */
  datatype Paper = Paper(tape: Tape, base: nat)

  function TracedEach(w: Paper, strs: seq<seq<Char>>): Paper
    requires AllComplete(strs)
    decreases |strs|
  {
    if strs == [] then w
    else
      var t := Traced(w.tape, w.base, strs[0]);
      TracedEach(Paper(t, Follow(w.base, t.pos)), strs[1..])
  }

  predicate AllLand(s: Screen, strs: seq<seq<Char>>)
    requires s.Valid() && AllComplete(strs)
    decreases |strs|
  {
    strs == [] ||
    (Lands(s.ptr, strs[0]) && End(s.ptr, strs[0]) < 2 * SIZE && AllLand(Updated(Obeyed(s, strs[0])), strs[1..]))
  }

  /** Any run of tty_puts */
  lemma {:induction false} EveryPuts(s: Screen, w: Paper, strs: seq<seq<Char>>)
    requires s.Valid() && Shows(s, w.tape, w.base) && AllComplete(strs) && AllLand(s, strs)
    ensures var r := TracedEach(w, strs); Shows(PutEach(s, strs), r.tape, r.base)
    decreases |strs|
  {
    if strs != [] {
      PutsShows(s, w.tape, w.base, strs[0]);
      var t := Traced(w.tape, w.base, strs[0]);
      EveryPuts(Updated(Obeyed(s, strs[0])), Paper(t, Follow(w.base, t.pos)), strs[1..]);
    }
  }

  /** The cursor stays inside, and every character is seen. */
  predicate Stays(p: nat, cs: seq<Char>)
    requires p < WORDS && Complete(cs)
    decreases |cs|
  {
    cs == [] ||
    (Inside(p, cs) && (cs[0] != ESC ==> cs[0] % 256 != 0) && Stays(TurnedTo(p, cs), cs[ItemLength(cs)..]))
  }

  lemma {:induction false} EndMatches(s: Screen, t: Tape, base: nat, cs: seq<Char>)
    requires s.Valid() && base % WIDTH == 0 && t.pos == base + s.ptr && Complete(cs) && Stays(s.ptr, cs)
    ensures Obeyed(s, cs).ptr == End(s.ptr, cs) && Traced(t, base, cs).pos == base + End(s.ptr, cs)
    decreases |cs|
  {
    if cs != [] {
      TurnMatches(t, base, s.ptr, cs);
      EndMatches(Item(s, cs), Turned(t, base, cs), base, cs[ItemLength(cs)..]);
    }
  }

  /** Something to see stands at p. */
  predicate Seen(t: Tape, p: nat) {
    p in t.cells && t.cells[p] != 0
  }

  lemma {:induction false} StaysSeen(t: Tape, base: nat, p: nat, cs: seq<Char>, q: nat)
    requires Seen(t, q) && p < WORDS && Complete(cs) && Stays(p, cs)
    ensures Seen(Traced(t, base, cs), q)
    decreases |cs|
  {
    if cs != [] {
      StaysSeen(Turned(t, base, cs), base, TurnedTo(p, cs), cs[ItemLength(cs)..], q);
    }
  }

  /** A character that was lost stands on the tape, below the screen. */
  lemma {:induction false} Lost(t: Tape, base: nat, p: nat, cs: seq<Char>) returns (q: nat)
    requires base % WIDTH == 0 && p < WORDS && t.pos == base + p
    requires Complete(cs) && Stays(p, cs) && !Lands(p, cs)
    ensures SIZE <= q && Seen(Traced(t, base, cs), base + q)
    decreases |cs|
  {
    var rest := cs[ItemLength(cs)..];
    if Lands(TurnedTo(p, cs), rest) {
      q := p;
      StaysSeen(Turned(t, base, cs), base, TurnedTo(p, cs), rest, base + q);
    } else {
      TurnMatches(t, base, p, cs);
      q := Lost(Turned(t, base, cs), base, TurnedTo(p, cs), rest);
    }
  }

  /** Then no window shows the tape: without a scroll, and when the character is below the window, something has
      been typed below it; and if it is in the window, the cell there is empty. */
  lemma NotShown(s: Screen, t: Tape, base: nat, b: nat, q: nat)
    requires s.Valid() && base % WIDTH == 0 && t.pos == base + s.ptr && s.ptr < 2 * SIZE
    requires SIZE <= q && Seen(t, base + q)
    ensures !Shows(Updated(s), t, b)
  {
    var r := Updated(s);
    if s.ptr >= SIZE {
      ScrollTo(s.ptr);
      var gap := RowOf(s.ptr) - (SIZE - WIDTH);
      assert r.ptr == s.ptr - gap;
      if q < gap + SIZE {
        assert r.cells[q - gap].ch == 0;
        assert b == base + gap ==> At(t, b + (q - gap)) == At(t, base + q);
      }
    }
  }

  /** While the cursor stays inside and every character is seen, that is exactly when some window is shown: otherwise
      a lost character is missing, or the cursor is still below the screen. */
  lemma PutsExactly(s: Screen, t: Tape, base: nat, cs: seq<Char>)
    requires s.Valid() && Shows(s, t, base) && Complete(cs) && Stays(s.ptr, cs)
    ensures (exists b :: Shows(Updated(Obeyed(s, cs)), Traced(t, base, cs), b)) <==>
              Lands(s.ptr, cs) && End(s.ptr, cs) < 2 * SIZE
  {
    EndMatches(s, t, base, cs);
    if End(s.ptr, cs) < 2 * SIZE {
      if Lands(s.ptr, cs) {
        PutsShows(s, t, base, cs);
      } else {
        var q := Lost(t, base, s.ptr, cs);
        forall b: nat
          ensures !Shows(Updated(Obeyed(s, cs)), Traced(t, base, cs), b)
        {
          NotShown(Obeyed(s, cs), Traced(t, base, cs), base, b, q);
        }
      }
    }
  }

  lemma {:induction false} PlainComplete(cs: seq<Char>)
    requires ESC !in cs
    ensures Complete(cs)
    decreases |cs|
  {
    if cs != [] {
      PlainComplete(cs[1..]);
    }
  }

  lemma PrefixesComplete(cs: seq<Char>)
    requires ESC !in cs
    ensures Complete(cs) && forall n :: 0 <= n <= |cs| ==> Complete(cs[..n])
  {
    PlainComplete(cs);
    forall n | 0 <= n <= |cs|
      ensures Complete(cs[..n])
    {
      PlainComplete(cs[..n]);
    }
  }

  /** No backspace comes when the cursor is at cell 0. */
  predicate BacksInside(p: nat, cs: seq<Char>)
    requires p < WORDS && forall n :: 0 <= n <= |cs| ==> Complete(cs[..n])
  {
    forall n :: 0 <= n < |cs| && cs[n] == BACKSPACE ==> End(p, cs[..n]) > 0
  }

  lemma BacksFirst(p: nat, cs: seq<Char>)
    requires p < WORDS && cs != [] && ESC !in cs && (cs[0] == BACKSPACE ==> p > 0)
    requires forall n :: 0 <= n <= |cs| ==> Complete(cs[..n])
    requires forall n :: 0 <= n <= |cs[1..]| ==> Complete(cs[1..][..n])
    ensures BacksInside(p, cs) <==> BacksInside(Next(p, cs[0]), cs[1..])
  {
    var rest := cs[1..];
    forall n | 0 <= n < |rest|
      ensures End(p, cs[..n + 1]) == End(Next(p, cs[0]), rest[..n]) && cs[n + 1] == rest[n]
    {
      assert cs[..n + 1][1..] == rest[..n];
    }
    if BacksInside(Next(p, cs[0]), rest) {
      forall n | 0 <= n < |cs| && cs[n] == BACKSPACE
        ensures End(p, cs[..n]) > 0
      {
        if n > 0 {
          assert rest[n - 1] == cs[n] && End(p, cs[..n - 1 + 1]) == End(Next(p, cs[0]), rest[..n - 1]);
        }
      }
    }
  }

  /** Without escape sequences, and up to 50 million characters, only a backspace at cell 0 takes the cursor out. */
  lemma {:induction false} StaysPlain(p: nat, cs: seq<Char>)
    requires p + WIDTH * (|cs| + 1) < WORDS && ESC !in cs
    requires forall i :: 0 <= i < |cs| ==> cs[i] % 256 != 0
    ensures Complete(cs) && forall n :: 0 <= n <= |cs| ==> Complete(cs[..n])
    ensures Stays(p, cs) <==> BacksInside(p, cs)
    decreases |cs|
  {
    PrefixesComplete(cs);
    if cs != [] {
      if cs[0] == BACKSPACE && p == 0 {
        assert End(p, cs[..0]) == 0;
      } else {
        PrefixesComplete(cs[1..]);
        BacksFirst(p, cs);
        StaysPlain(Next(p, cs[0]), cs[1..]);
      }
    }
  }

  /** A backspace at cell 0 has to be left out there: once the screen has scrolled, a character written after it
      is lost above the screen, and the cursor comes back to where it was, so that nobody can tell. */
  lemma BackspaceAtCell0(s: Screen, t: Tape, base: nat, c: Char)
    requires s.Valid() && Shows(s, t, base) && s.ptr == 0 && base > 0 && Glyph(c) && c != ESC
    ensures var cs := [BACKSPACE as Char, c];
      Shows(Puts(s, cs), TypedAll(t, cs), base) && Complete(cs) && !Lands(s.ptr, cs)
  {
    var cs := [BACKSPACE as Char, c];
    var one := cs[..1];
    assert WroteAll(s, one[..0]) == s && TypedAll(t, one[..0]) == t;
    var s1, t1 := WroteAll(s, one), TypedAll(t, one);
    assert s1 == Wrote(s, BACKSPACE) && t1 == Typed(t, BACKSPACE);
    assert WroteAll(s, cs) == Wrote(s1, c) == s;
    assert TypedAll(t, cs) == Typed(t1, c);
    PlainComplete(cs);
  }

  /** A command by itself, unless it goes around all 32 bits: exactly if it stays on the screen, or goes at most 25 rows
      below, some window is shown. */
  lemma CommandExactly(s: Screen, t: Tape, base: nat, c: Char, x: nat)
    requires s.Valid() && Shows(s, t, base) && c != HOME_LETTER && 2 * SIZE - WORDS < Distance(c, x) < WORDS - 2 * SIZE
    ensures (exists b :: Shows(Updated(Command(s, c, x)), t.(pos := SteeredOnTape(t.pos, base, c, x)), b)) <==>
              0 <= s.ptr + Distance(c, x) < 2 * SIZE
  {
    var r, u := Command(s, c, x), t.(pos := SteeredOnTape(t.pos, base, c, x));
    if 0 <= s.ptr + Distance(c, x) < 2 * SIZE {
      assert Holds(r, u, base);
      UpdatedShows(r, u, base);
    } else {
      TooFar(r);
    }
  }

  lemma TooFar(s: Screen)
    requires s.Valid() && s.ptr >= 2 * SIZE
    ensures Updated(s).ptr >= SIZE
  {
  }

  // ------------------------------------------------------------------ the program

  /** The sequence at i, in the string and in what is left of it. */
  lemma Parts(str: seq<Char>, i: nat)
    requires i + 2 <= |str|
    ensures var k := DigitsIn(str[i + 2..]);
      && DigitsIn(str[i..][2..]) == k && str[i..][2..2 + k] == str[i + 2..i + 2 + k]
      && (i + 2 + k < |str| ==> str[i..][2 + k] == str[i + 2 + k])
  {
    assert str[i..][2..] == str[i + 2..];
  }

  class Tty {
    const buffer: array<Cell>
    var ptr: nat
    var color: bv8

    ghost predicate Valid()
      reads this
    {
      buffer.Length == SIZE && ptr < WORDS
    }

    ghost function View(): (s: Screen)
      requires Valid()
      reads this, buffer
      ensures s.Valid()
    {
      Screen(buffer[..], ptr, color)
    }

    /** tty_init, with its colours */
    constructor (buffer: array<Cell>, color: bv8)
      requires buffer.Length == SIZE
      modifies buffer
      ensures Valid() && this.buffer == buffer && View() == Blank(color)
    {
      this.buffer, this.ptr, this.color := buffer, 0, color;
      new;
      ClearScreen();
    }

    /** __tty_clear_scr */
    method ClearScreen()
      requires Valid()
      modifies this`ptr, buffer
      ensures Valid() && View() == Blank(color)
    {
      var entry := Entry(32, color);
      assert entry.ch == 32;
      for i := 0 to SIZE
        invariant forall k :: 0 <= k < i ==> buffer[k] == entry
      {
        buffer[i] := entry;
      }
      assert buffer[..] == Blank(color).cells;
      ptr := 0;
      UpdateCursor();
    }

    /** Lines 99-101 */
    method MoveUp(gap: nat)
      requires buffer.Length == SIZE && gap <= SIZE
      modifies buffer
      ensures buffer[..] == Raised(old(buffer[..]), SIZE - gap, gap, color)
    {
      ghost var was := buffer[..];
      for i := 0 to SIZE - gap
        invariant buffer[..] == Raised(was, i, gap, color)
      {
        buffer[i] := Cell(buffer[i + gap].ch, color);
      }
    }

    /** Lines 102-104 */
    method ClearBehind(first: nat)
      requires buffer.Length == SIZE && first <= SIZE
      modifies buffer
      ensures forall k :: 0 <= k < first ==> buffer[k] == old(buffer[k])
      ensures forall k :: first <= k < SIZE ==> buffer[k] == Cell(0, color)
    {
      for i := first to SIZE
        invariant forall k :: 0 <= k < first ==> buffer[k] == old(buffer[k])
        invariant forall k :: first <= k < i ==> buffer[k] == Cell(0, color)
      {
        buffer[i] := Entry(0, color);
      }
    }

    /** tty_scroll */
    method Scroll(n: int)
      requires Valid() && Rows(n)
      modifies this`ptr, buffer
      ensures Valid() && View() == Scrolled(old(View()), n)
    {
      var product := n * WIDTH;
      var gap: nat := if product < 0 then product + WORDS else product;
      if gap > SIZE {
        gap := SIZE;
      }
      if n >= 0 {
        ghost var was := buffer[..];
        MoveUp(gap);
        ClearBehind(SIZE - gap);
        assert buffer[..] == ScrolledCells(was, gap, color);
      }
      ptr := Minus(ptr, gap);
    }

    /** tty_set_color */
    method SetColor(c: bv8)
      requires Valid()
      modifies this`ptr, this`color, buffer
      ensures Valid() && View() == Scrolled(old(View()).(color := c), 0)
    {
      color := c;
      Scroll(0);
    }

    /** tty_update_cursor */
    method UpdateCursor()
      requires Valid()
      modifies this`ptr, buffer
      ensures Valid() && View() == Updated(old(View()))
    {
      if ptr >= SIZE {
        Scroll(ptr / WIDTH - HEIGHT + 1);
      }
    }

    /** __tty_write_char */
    method WriteChar(c: Char)
      requires Valid()
      modifies this`ptr, buffer
      ensures Valid() && View() == Wrote(old(View()), c)
    {
      if c == NEWLINE {
        ptr := Plus(ptr, WIDTH - ptr % WIDTH);
      } else if c == RETURN {
        ptr := ptr - ptr % WIDTH;
      } else if c == BACKSPACE {
        ptr := Minus(ptr, 1);
      } else {
        if ptr < SIZE {
          buffer[ptr] := Entry(c, color);
        }
        ptr := Plus(ptr, 1);
      }
    }

    /** tty_putc */
    method Putc(c: Char)
      requires Valid()
      modifies this`ptr, buffer
      ensures Valid() && View() == Put(old(View()), c)
    {
      WriteChar(c);
      UpdateCursor();
    }

    /** tty_puts. atoi returns an int that equals the number modulo 2^32, and so does what it adds to the cursor. */
    method PutString(str: seq<Char>) returns (n: nat)
      requires Valid() && Complete(str)
      modifies this`ptr, buffer
      ensures Valid() && View() == Updated(Obeyed(old(View()), str))
      ensures ESC !in str ==> View() == Puts(old(View()), str)
      ensures n == |str|
    {
      if ESC !in str {
        ObeyedPlain(View(), str);
      }
      var i := 0;
      assert str[0..] == str;
      while i < |str|
        invariant i <= |str| && Complete(str[i..])
        invariant Valid() && Obeyed(View(), str[i..]) == Obeyed(old(View()), str)
      {
        ghost var rest := str[i..];
        i := PutNext(str, i);
        assert str[i..] == rest[ItemLength(rest)..];
      }
      UpdateCursor();
      n := i;
    }

    /** Lines 165-206 */
    method PutNext(str: seq<Char>, i: nat) returns (j: nat)
      requires Valid() && i < |str| && i + ItemLength(str[i..]) <= |str|
      modifies this`ptr, buffer
      ensures j == i + ItemLength(str[i..])
      ensures Valid() && View() == Item(old(View()), str[i..])
    {
      if str[i] != ESC {
        WriteChar(str[i]);
        j := i + 1;
      } else if str[i + 1] != BRACKET {
        j := i + 2;
      } else {
        j := PutSequence(str, i);
      }
    }

    /** Lines 174-203, for ESC [ */
    method PutSequence(str: seq<Char>, i: nat) returns (j: nat)
      requires Valid() && i + 1 < |str| && str[i] == ESC && str[i + 1] == BRACKET && i + ItemLength(str[i..]) <= |str|
      modifies this`ptr
      ensures j == i + ItemLength(str[i..])
      ensures Valid() && View() == Item(old(View()), str[i..])
    {
      Parts(str, i);
      j := SkipDigits(str, i + 2);
      var c, ds := str[j], str[i + 2..j];
      assert IsSequence(str[i..]) && Letter(str[i..]) == c && Argument(str[i..]) == Number(ds);
      Perform(c, Number(ds));
      j := j + 1;
    }

    /** Lines 176-179 */
    static method SkipDigits(str: seq<Char>, i: nat) returns (j: nat)
      requires i <= |str| && i + DigitsIn(str[i..]) < |str|
      ensures j == i + DigitsIn(str[i..])
    {
      j := i;
      while IsDigit(str[j])
        invariant i <= j <= |str| && j + DigitsIn(str[j..]) == i + DigitsIn(str[i..])
        decreases |str| - j
      {
        assert str[j..][1..] == str[j + 1..];
        j := j + 1;
      }
    }

    /** Lines 184-202 */
    method Perform(c: Char, x: nat)
      requires Valid()
      modifies this`ptr
      ensures Valid() && View() == Command(old(View()), c, x)
    {
      if c == 65 {
        ptr := (ptr - WIDTH * x) % WORDS;
      } else if c == 66 {
        ptr := (ptr + WIDTH * x) % WORDS;
      } else if c == 67 {
        ptr := (ptr + x) % WORDS;
      } else if c == 68 {
        ptr := (ptr - x) % WORDS;
      } else if c == 72 {
        ptr := 0;
      }
    }
  }
}
