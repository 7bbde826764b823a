/** kernel/src/donut.c on kernel/src/tty.c: what the printed frames look like on the screen of the terminal. */
module Animation {
  import opened Common
  import opened DepthBuffer
  import opened Renderer
  import opened Rotation
  import Terminal
  import Writing

  predicate Inked(c: char) { c == ' ' || c in GLYPHS }

  /** 1761 positions, a line break at every 80th of them and something to see at all others. */
  predicate Picture(text: string) {
    |text| == CELLS + 1 && forall k :: 0 <= k <= CELLS ==> if k % 80 == 0 then text[k] == '\n' else Inked(text[k])
  }

  predicate AllInked(ss: seq<Sample>) {
    forall k :: 0 <= k < |ss| ==> ss[k].glyph in GLYPHS
  }

  lemma ShotInked(p: Pose, vi: Vec, vj: Vec)
    requires p.Sound() && vi.Sound() && vj.Sound()
    ensures Shot(p, vi, vj).glyph in GLYPHS
  {
    LuminanceRange(p, vi, vj);
  }

  lemma Joined(a: seq<Sample>, b: seq<Sample>)
    requires AllInked(a) && AllInked(b)
    ensures AllInked(a + b)
  {
  }

  lemma {:induction false} RingInked(p: Pose, vi: Vec, vj: Vec, n: nat)
    requires p.Sound() && vi.Sound() && vj.Sound()
    ensures AllInked(RingShots(p, vi, vj, n))
    decreases n, p
  {
    if n > 0 {
      RotatedSound(vi, Slow);
      RingInked(p, Rotated(vi, Slow), vj, n - 1);
      ShotInked(p, vi, vj);
      Joined([Shot(p, vi, vj)], RingShots(p, Rotated(vi, Slow), vj, n - 1));
    }
  }

  lemma {:induction false} ShotsInked(p: Pose, vj: Vec, n: nat)
    requires p.Sound() && vj.Sound()
    ensures AllInked(Shots(p, vj, n))
    decreases n, p
  {
    if n > 0 {
      RotatedSound(vj, Wide);
      RingInked(p, Vec(1024, 0), vj, STEPS_I);
      ShotsInked(p, Rotated(vj, Wide), n - 1);
      Joined(RingShots(p, Vec(1024, 0), vj, STEPS_I), Shots(p, Rotated(vj, Wide), n - 1));
    }
  }

  lemma FrameIsPicture(f: nat, text: string)
    requires ShowsFrame(f, text)
    ensures Picture(text)
  {
    ShotsInked(PoseAt(f), Vec(1024, 0), ROWS_J);
    ShownIsPicture(FrameShots(PoseAt(f)), text);
  }

  lemma ShownIsPicture(ss: seq<Sample>, text: string)
    requires AllInked(ss) && Renderer.Shown(ss, text)
    ensures Picture(text)
  {
    forall k | 0 <= k <= CELLS && k % 80 != 0
      ensures Inked(text[k])
    {
      var z :| Visible(ss, k, z, text[k]);
    }
  }

  // ------------------------------------------------------------------ one frame on the screen

  function Code(c: char): Terminal.Char {
    if c as int < 65536 then c as int else 0
  }

  function Codes(text: string): (cs: seq<Terminal.Char>)
    ensures |cs| == |text|
  {
    seq(|text|, k requires 0 <= k < |text| => Code(text[k]))
  }

  /** ESC [ 23 A */
  const UP_23: seq<Terminal.Char> := [27, 91, 50, 51, 65]

  lemma InkIsGlyph(c: char)
    requires Inked(c)
    ensures Terminal.Glyph(Code(c)) && Code(c) < 256 && Code(c) == c as int
  {
  }

  /** The cell of the screen that position k of a frame goes to is one row further down and one column to the left,
      since the frame starts with a line break. */
  predicate Drawn(s: Terminal.Screen, was: Terminal.Screen, text: string, n: nat)
    requires s.Valid() && was.Valid() && n <= |text| <= CELLS + 1
  {
    && s.ptr == (if n == 0 then 0 else n + 79) && s.color == was.color
    && (forall k :: 0 <= k < n && k % 80 != 0 ==> s.cells[k + 79].ch == Code(text[k]) % 256)
    && forall c :: 0 <= c < Terminal.SIZE && !(80 <= c < n + 79 && c % 80 != 79) ==> s.cells[c] == was.cells[c]
  }

  lemma {:induction false} PrintedSoFar(s: Terminal.Screen, text: string, n: nat)
    requires s.Valid() && s.ptr == 0 && Picture(text) && n <= |text|
    ensures Drawn(Terminal.PutAll(s, Codes(text)[..n]), s, text, n)
    decreases n
  {
    if n > 0 {
      PrintedSoFar(s, text, n - 1);
      assert Codes(text)[..n][..n - 1] == Codes(text)[..n - 1];
      PrintedNext(Terminal.PutAll(s, Codes(text)[..n - 1]), s, text, n - 1);
    }
  }

  lemma PrintedNext(s: Terminal.Screen, was: Terminal.Screen, text: string, n: nat)
    requires s.Valid() && was.Valid() && Picture(text) && n < |text| && Drawn(s, was, text, n)
    ensures Drawn(Terminal.Put(s, Code(text[n])), was, text, n + 1)
  {
    if n % 80 != 0 {
      InkIsGlyph(text[n]);
      PutGlyph(s, Code(text[n]));
    } else {
      PutBreak(s, n);
    }
  }

  lemma PutGlyph(s: Terminal.Screen, c: Terminal.Char)
    requires s.Valid() && s.ptr + 1 < Terminal.SIZE && Terminal.Glyph(c)
    ensures Terminal.Put(s, c) == Terminal.Screen(s.cells[s.ptr := Terminal.Entry(c, s.color)], s.ptr + 1, s.color)
  {
  }

  lemma PutBreak(s: Terminal.Screen, n: nat)
    requires s.Valid() && n <= CELLS && n % 80 == 0 && s.ptr == (if n == 0 then 0 else n + 79)
    ensures Terminal.Put(s, NEWLINE) == s.(ptr := n + 80)
  {
  }

  lemma UpIsComplete(s: Terminal.Screen)
    requires s.Valid()
    ensures Terminal.Complete(UP_23) && Terminal.Obeyed(s, UP_23) == Terminal.Command(s, 65, 23)
  {
    var ds: seq<Terminal.Char> := [50, 51];
    assert ds[..1] == [50] && ds[..1][..0] == [];
    assert Terminal.Number(ds[..1][..0]) == 0;
    assert Terminal.Number(ds[..1]) == 2;
    assert Terminal.Number(ds) == 23;
    Terminal.SequenceIs(s, ds, 65);
    assert [ESC as Terminal.Char, Terminal.BRACKET] + ds + [65] == UP_23;
  }

  /** Lines 68 and 99-104: the screen gets its colour, the picture is printed, and the cursor goes up 23 rows. */
  function FrameOn(s: Terminal.Screen, color: bv8, text: string): (r: Terminal.Screen)
    requires s.Valid()
    ensures r.Valid()
  {
    var colored := Terminal.Scrolled(s.(color := color), 0);
    UpIsComplete(Terminal.PutAll(colored, Codes(text)));
    Terminal.Updated(Terminal.Obeyed(Terminal.PutAll(colored, Codes(text)), UP_23))
  }

  /** The screen shows the picture, row by row from its second row on. */
  predicate ShowsPicture(s: Terminal.Screen, text: string) {
    && s.Valid() && |text| == CELLS + 1
    && forall k :: 0 <= k <= CELLS && k % 80 != 0 ==> s.cells[k + 79].ch == Code(text[k]) % 256
  }

  lemma CodesAreBytes(text: string)
    requires Picture(text)
    ensures forall i :: 0 <= i < |text| ==> Codes(text)[i] < 256
  {
    forall i | 0 <= i < |text|
      ensures Codes(text)[i] < 256
    {
      if i % 80 != 0 {
        InkIsGlyph(text[i]);
      }
    }
  }

  /** All of the screen has the colour of the frame. */
  lemma FrameIsColored(s: Terminal.Screen, color: bv8, text: string)
    requires s.Valid() && s.ptr == 0 && Picture(text)
    ensures Writing.Uniform(FrameOn(s, color, text)) && FrameOn(s, color, text).color == color
  {
    Writing.ColorSet(s, color);
    var colored := Terminal.Scrolled(s.(color := color), 0);
    CodesAreBytes(text);
    Writing.StaysUniform(colored, Codes(text));
    var after := Terminal.PutAll(colored, Codes(text));
    UpIsComplete(after);
    SteeredUniform(after, Terminal.Obeyed(after, UP_23));
  }

  lemma SteeredUniform(s: Terminal.Screen, r: Terminal.Screen)
    requires s.Valid() && Writing.Uniform(s) && r == s.(ptr := r.ptr) && r.Valid()
    ensures Writing.Uniform(Terminal.Updated(r)) && Terminal.Updated(r).color == s.color
  {
  }

  /** Lines 68 and 99-104 on the terminal */
  method ShowFrame(tty: Terminal.Tty, color: bv8, text: string)
    requires tty.Valid()
    modifies tty`ptr, tty`color, tty.buffer
    ensures tty.Valid() && tty.View() == FrameOn(old(tty.View()), color, text)
  {
    tty.SetColor(color);
    ghost var colored := tty.View();
    for k := 0 to |text|
      invariant tty.Valid() && tty.View() == Terminal.PutAll(colored, Codes(text)[..k])
    {
      assert Codes(text)[..k + 1][..k] == Codes(text)[..k];
      tty.Putc(Code(text[k]));
    }
    assert Codes(text)[..|text|] == Codes(text);
    UpIsComplete(tty.View());
    var n := tty.PutString([27, 91, 50, 51, 65]);
  }

  /** A frame that starts at cell 0 fills the same cells, never scrolls, and ends where it started. */
  lemma FrameInPlace(s: Terminal.Screen, color: bv8, text: string)
    requires s.Valid() && s.ptr == 0 && Picture(text)
    ensures FrameOn(s, color, text).ptr == 0 && ShowsPicture(FrameOn(s, color, text), text)
    ensures forall c :: 0 <= c < 80 || 1840 <= c < Terminal.SIZE ==> FrameOn(s, color, text).cells[c].ch == s.cells[c].ch
  {
    var colored := Terminal.Scrolled(s.(color := color), 0);
    var after := Terminal.PutAll(colored, Codes(text));
    PrintedSoFar(colored, text, |text|);
    assert Codes(text)[..|text|] == Codes(text);
    UpIsComplete(after);
  }

  /** The screen after some frames, each in its colour. */
  function Played(s: Terminal.Screen, colors: seq<bv8>, screens: seq<string>): (r: Terminal.Screen)
    requires s.Valid() && |colors| == |screens|
    ensures r.Valid()
    decreases |screens|
  {
    var n := |screens|;
    if n == 0 then s else FrameOn(Played(s, colors[..n - 1], screens[..n - 1]), colors[n - 1], screens[n - 1])
  }

  predicate AllPictures(screens: seq<string>) {
    forall f :: 0 <= f < |screens| ==> Picture(screens[f])
  }

  lemma FilmIsPictures(screens: seq<string>)
    requires Film(screens)
    ensures AllPictures(screens)
  {
    forall f | 0 <= f < |screens|
      ensures Picture(screens[f])
    {
      FilmFrame(screens, f);
      FrameIsPicture(f, screens[f]);
    }
  }

  lemma {:induction false} PlayedInPlace(s: Terminal.Screen, colors: seq<bv8>, screens: seq<string>)
    requires s.Valid() && s.ptr == 0 && |colors| == |screens| && AllPictures(screens)
    ensures Played(s, colors, screens).ptr == 0
    ensures screens != [] ==> ShowsPicture(Played(s, colors, screens), screens[|screens| - 1])
    decreases |screens|
  {
    var n := |screens|;
    if n > 0 {
      PlayedInPlace(s, colors[..n - 1], screens[..n - 1]);
      FrameInPlace(Played(s, colors[..n - 1], screens[..n - 1]), colors[n - 1], screens[n - 1]);
    }
  }

  /** The first of the nearest samples of frame f in cell k of the picture has this glyph, or there is none. */
  ghost predicate Nearest(f: nat, k: nat, glyph: char) {
    exists z :: Visible(FrameShots(PoseAt(f)), k, z, glyph)
  }

  /** From the renderer to the screen: after any number of frames, each cell of the picture, in the row below and the
      column before the one it was rendered for, shows the first of the nearest samples of the last frame there, or
      a blank if there is none. */
  lemma AnimationOnScreen(s: Terminal.Screen, colors: seq<bv8>, screens: seq<string>, k: nat) returns (glyph: char)
    requires s.Valid() && s.ptr == 0 && |colors| == |screens| > 0 && Film(screens)
    requires k < CELLS && k % 80 != 0
    ensures Nearest(|screens| - 1, k, glyph) && Inked(glyph)
    ensures Played(s, colors, screens).ptr == 0 && Played(s, colors, screens).cells[k + 79].ch == glyph as int
  {
    FilmIsPictures(screens);
    glyph := LastPicture(s, colors, screens, k);
    FilmGlyph(screens, k);
  }

  lemma LastPicture(s: Terminal.Screen, colors: seq<bv8>, screens: seq<string>, k: nat) returns (glyph: char)
    requires s.Valid() && s.ptr == 0 && |colors| == |screens| > 0 && AllPictures(screens)
    requires k < CELLS && k % 80 != 0
    ensures glyph == screens[|screens| - 1][k] && Inked(glyph)
    ensures Played(s, colors, screens).ptr == 0 && Played(s, colors, screens).cells[k + 79].ch == glyph as int
  {
    var text := screens[|screens| - 1];
    PlayedInPlace(s, colors, screens);
    assert Picture(text);
    PictureCell(Played(s, colors, screens), text, k);
    glyph := text[k];
  }

  lemma PictureCell(s: Terminal.Screen, text: string, k: nat)
    requires Picture(text) && ShowsPicture(s, text) && k < CELLS && k % 80 != 0
    ensures Inked(text[k]) && s.cells[k + 79].ch == text[k] as int
  {
    InkIsGlyph(text[k]);
  }

  lemma FilmGlyph(screens: seq<string>, k: nat)
    requires Film(screens) && screens != [] && k < CELLS && k % 80 != 0
    ensures var f := |screens| - 1; |screens[f]| == CELLS + 1 && Nearest(f, k, screens[f][k])
  {
    FilmFrame(screens, |screens| - 1);
    GlyphIsNearest(|screens| - 1, screens[|screens| - 1], k);
  }

  lemma GlyphIsNearest(f: nat, text: string, k: nat)
    requires ShowsFrame(f, text) && k < CELLS && k % 80 != 0
    ensures |text| == CELLS + 1 && Nearest(f, k, text[k])
  {
  }
}
