/** kernel/src/tty.c: what the keys of the line editor mean, on a pair of texts: left and right of the cursor. */
module Editing {
  import opened Common

  const ROWS := 16     // TTY_HISTORY_SIZE
  const ROW := 512     // TTY_INPUT_SIZE

  // kernel/include/kb.h. The arrows are the bytes of the capital letters H, P, K and M.
  const UP := 0x48
  const DOWN := 0x50
  const LEFT := 0x4B
  const RIGHT := 0x4D
  const HOME := 0x92
  const END := 0x93
  const DELETE := 0x91

  predicate Inserts(key: Byte) {
    key !in [UP, DOWN, LEFT, RIGHT, HOME, END, BACKSPACE, DELETE, NEWLINE]
  }

  /** The texts in the rows of the history, the row that is edited, the row that browsing continues from, where
      browsing ends in both directions, and the line. What rows says about the edited row is out of date. */
  datatype Editor = Editor(rows: seq<seq<Byte>>, row: nat, browsed: nat, first: nat, last: nat,
                           left: seq<Byte>, right: seq<Byte>) {
    predicate Valid() {
      |rows| == ROWS && row < ROWS && browsed < ROWS
    }

    function Text(): seq<Byte> { left + right }
  }

  /** A row is read up to its first NUL. */
  function UpToNul(s: seq<Byte>): (r: seq<Byte>)
    ensures |r| <= |s| && r == s[..|r|] && 0 !in r
    ensures |r| < |s| ==> s[|r|] == 0
  {
    if s == [] || s[0] == 0 then [] else [s[0]] + UpToNul(s[1..])
  }

  lemma {:induction false} WithoutNul(s: seq<Byte>)
    requires 0 !in s
    ensures UpToNul(s) == s
  {
    if s != [] {
      WithoutNul(s[1..]);
      assert s == [s[0]] + s[1..];
    }
  }

  /** __history_move: the line is left in its row, and the text of the other row is edited, from its end. */
  function Moved(e: Editor, to: nat): (r: Editor)
    requires e.Valid() && to < ROWS
    ensures r.Valid()
  {
    var rows := e.rows[e.row := UpToNul(e.Text())];
    Editor(rows, to, to, e.first, e.last, rows[to], [])
  }

  function Before(k: nat): nat { if k == 0 then ROWS - 1 else k - 1 }

  function After(k: nat): nat { if k + 1 == ROWS then 0 else k + 1 }

  function Pressed(e: Editor, key: Byte): (r: Editor)
    requires e.Valid()
    ensures r.Valid()
  {
    var l, r := |e.left|, |e.right|;
    if key == NEWLINE then e
    else if key == UP then if e.browsed != e.first then Moved(e, Before(e.browsed)) else e
    else if key == DOWN then if e.browsed != e.last then Moved(e, After(e.browsed)) else e
    else if key == LEFT then if l > 0 then e.(left := e.left[..l - 1], right := [e.left[l - 1]] + e.right) else e
    else if key == RIGHT then if r > 0 then e.(left := e.left + [e.right[0]], right := e.right[1..]) else e
    else if key == HOME then e.(left := [], right := e.Text())
    else if key == END then e.(left := e.Text(), right := [])
    else if key == BACKSPACE then if l > 0 then e.(left := e.left[..l - 1]) else e
    else if key == DELETE then if r > 0 then e.(right := e.right[1..]) else e
    else e.(left := e.left + [key])
  }

  function PressedAll(e: Editor, keys: seq<Byte>): (r: Editor)
    requires e.Valid()
    ensures r.Valid()
  {
    if keys == [] then e else Pressed(PressedAll(e, keys[..|keys| - 1]), keys[|keys| - 1])
  }

  /** The key leaves the line for another row. */
  predicate Browses(e: Editor, key: Byte) {
    (key == UP && e.browsed != e.first) || (key == DOWN && e.browsed != e.last)
  }

  // ------------------------------------------------------------------ what follows for the user

  lemma TypeAndErase(e: Editor, key: Byte)
    requires e.Valid() && Inserts(key)
    ensures Pressed(Pressed(e, key), BACKSPACE) == e
  {
    assert (e.left + [key])[..|e.left|] == e.left;
  }

  lemma LeftAndRight(e: Editor)
    requires e.Valid() && e.left != []
    ensures Pressed(Pressed(e, LEFT), RIGHT) == e
  {
    var l := |e.left| - 1;
    assert e.left[..l] + [e.left[l]] == e.left;
    assert ([e.left[l]] + e.right)[1..] == e.right;
  }

  lemma RightAndLeft(e: Editor)
    requires e.Valid() && e.right != []
    ensures Pressed(Pressed(e, RIGHT), LEFT) == e
  {
    assert (e.left + [e.right[0]])[..|e.left|] == e.left;
    assert [e.right[0]] + e.right[1..] == e.right;
  }

  /** Deleting is stepping over a character and erasing it. */
  lemma DeleteIsRightAndErase(e: Editor)
    requires e.Valid() && e.right != []
    ensures Pressed(Pressed(e, RIGHT), BACKSPACE) == Pressed(e, DELETE)
  {
    assert (e.left + [e.right[0]])[..|e.left|] == e.left;
  }

  predicate Moves(key: Byte) {
    key == LEFT || key == RIGHT || key == HOME || key == END
  }

  lemma KeepsText(e: Editor, key: Byte)
    requires e.Valid() && Moves(key)
    ensures Pressed(e, key).Text() == e.Text()
  {
    var l, r := e.left, e.right;
    if key == LEFT {
      if l != [] {
        assert l == l[..|l| - 1] + [l[|l| - 1]];
      }
    } else if key == RIGHT {
      if r != [] {
        assert r == [r[0]] + r[1..];
      }
    }
  }

  /** Moving the cursor never changes the text. */
  lemma {:induction false} CursorKeepsText(e: Editor, keys: seq<Byte>)
    requires e.Valid() && forall i :: 0 <= i < |keys| ==> Moves(keys[i])
    ensures PressedAll(e, keys).Text() == e.Text()
  {
    if keys != [] {
      CursorKeepsText(e, keys[..|keys| - 1]);
      KeepsText(PressedAll(e, keys[..|keys| - 1]), keys[|keys| - 1]);
    }
  }

  lemma {:induction false} TypingText(e: Editor, keys: seq<Byte>)
    requires e.Valid() && forall i :: 0 <= i < |keys| ==> Inserts(keys[i])
    ensures PressedAll(e, keys) == e.(left := e.left + keys)
  {
    var n := |keys|;
    if n == 0 {
      assert e.left + keys == e.left;
    } else {
      TypingText(e, keys[..n - 1]);
      assert e.left + keys == (e.left + keys[..n - 1]) + [keys[n - 1]];
    }
  }

  /** Browsing up and down again gives the line back, up to a NUL, with the cursor behind it. */
  lemma UpAndDown(e: Editor)
    requires e.Valid() && e.row == e.browsed != e.first && Before(e.browsed) != e.last
    requires 0 !in e.rows[Before(e.browsed)]
    ensures var text := UpToNul(e.Text());
      Pressed(Pressed(e, UP), DOWN) == e.(rows := e.rows[e.row := text], left := text, right := [])
  {
    var to := Before(e.browsed);
    WithoutNul(e.rows[to]);
    var up := Pressed(e, UP);
    assert up.Text() == up.left;
    assert up.rows[to := e.rows[to]] == up.rows;
  }

  // ------------------------------------------------------------------ the keys on the whole text

  /** The cursor is a place in the text: one less, one more, the start or the end, but never outside. */
  lemma CursorPlace(e: Editor, key: Byte)
    requires e.Valid() && Moves(key)
    ensures Pressed(e, key).Text() == e.Text()
    ensures key == LEFT ==> |Pressed(e, key).left| == if |e.left| == 0 then 0 else |e.left| - 1
    ensures key == RIGHT ==> |Pressed(e, key).left| == if |e.left| == |e.Text()| then |e.left| else |e.left| + 1
    ensures key == HOME ==> |Pressed(e, key).left| == 0
    ensures key == END ==> |Pressed(e, key).left| == |e.Text()|
  {
    KeepsText(e, key);
  }

  /** And so every other key but the arrows up and down is determined by the text and the place: insertion in front of
      it, deletion of the character before or behind it. */
  lemma TextAt(e: Editor, key: Byte)
    requires e.Valid()
    ensures var t, p, r := e.Text(), |e.left|, Pressed(e, key);
      && (Inserts(key) ==> r.Text() == t[..p] + [key] + t[p..] && |r.left| == p + 1)
      && (key == BACKSPACE && p > 0 ==> r.Text() == t[..p - 1] + t[p..] && |r.left| == p - 1)
      && (key == DELETE && p < |t| ==> r.Text() == t[..p] + t[p + 1..] && |r.left| == p)
  {
    var t, p := e.Text(), |e.left|;
    assert t[..p] == e.left && t[p..] == e.right;
    if key == BACKSPACE && p > 0 {
      assert t[..p - 1] == e.left[..p - 1];
    } else if key == DELETE && p < |t| {
      assert t[p + 1..] == e.right[1..];
    }
  }

  /** At the edges nothing happens. */
  lemma NothingThere(e: Editor)
    requires e.Valid()
    ensures e.left == [] ==> Pressed(e, LEFT) == e && Pressed(e, BACKSPACE) == e
    ensures e.right == [] ==> Pressed(e, RIGHT) == e && Pressed(e, DELETE) == e
    ensures e.browsed == e.first ==> Pressed(e, UP) == e
    ensures e.browsed == e.last ==> Pressed(e, DOWN) == e
    ensures Pressed(e, NEWLINE) == e
  {
  }

  lemma {:induction false} PressedFirst(e: Editor, key: Byte, keys: seq<Byte>)
    requires e.Valid()
    ensures PressedAll(e, [key] + keys) == PressedAll(Pressed(e, key), keys)
    decreases |keys|
  {
    var all := [key] + keys;
    if keys == [] {
      assert all[..0] == [];
      assert PressedAll(e, all) == Pressed(PressedAll(e, all[..0]), key);
    } else {
      assert all[..|keys|] == [key] + keys[..|keys| - 1];
      PressedFirst(e, key, keys[..|keys| - 1]);
    }
  }

  lemma TypingAfter(e: Editor, key: Byte, keys: seq<Byte>, text: seq<Byte>)
    requires e.Valid() && forall i :: 0 <= i < |keys| ==> Inserts(keys[i])
    requires text == Pressed(e, key).left + keys + Pressed(e, key).right
    ensures PressedAll(e, [key] + keys).Text() == text
  {
    PressedFirst(e, key, keys);
    TypingText(Pressed(e, key), keys);
  }

  /** Typing after End appends. */
  lemma TypingAtEnd(e: Editor, keys: seq<Byte>)
    requires e.Valid() && forall i :: 0 <= i < |keys| ==> Inserts(keys[i])
    ensures PressedAll(e, [END] + keys).Text() == e.Text() + keys
  {
    var text := e.Text() + keys;
    assert text + [] == text;
    TypingAfter(e, END, keys, text);
  }

  /** Typing after Home prepends. */
  lemma TypingAtHome(e: Editor, keys: seq<Byte>)
    requires e.Valid() && forall i :: 0 <= i < |keys| ==> Inserts(keys[i])
    ensures PressedAll(e, [HOME] + keys).Text() == keys + e.Text()
  {
    var text := keys + e.Text();
    assert [] + keys == keys;
    TypingAfter(e, HOME, keys, text);
  }

  function Ups(n: nat): (keys: seq<Byte>)
    ensures |keys| == n
  {
    seq(n, _ => UP)
  }

  /** The n-th row before k, in a circle of 16. */
  function RowBefore(k: nat, n: nat): (r: nat)
    requires k < ROWS && n <= ROWS
    ensures r < ROWS
  {
    (k + ROWS - n) % ROWS
  }

  /** How often one can go up from row k before the first one is reached. */
  function RowsAbove(k: nat, first: nat): nat
    requires k < ROWS && first < ROWS
  {
    (k + ROWS - first) % ROWS
  }

  lemma OneRowUp(k: nat, first: nat, n: nat)
    requires k < ROWS && first < ROWS && 0 < n <= RowsAbove(k, first)
    ensures Before(RowBefore(k, n - 1)) == RowBefore(k, n) != k && RowBefore(k, n - 1) != first
    ensures n == 1 ==> RowBefore(k, n - 1) == k
    ensures n > 1 ==> RowBefore(k, n - 1) != k
  {
  }

  /** The row to is edited, as it was, and the line is in its own row. */
  predicate Browsed(e: Editor, r: Editor, to: nat)
    requires e.Valid() && to < ROWS
  {
    r == Editor(e.rows[e.row := UpToNul(e.Text())], to, to, e.first, e.last, e.rows[to], [])
  }

  lemma BrowsedOn(e: Editor, r: Editor, at: nat, to: nat)
    requires e.Valid() && at < ROWS && to < ROWS && to != e.row && at != e.row && Browsed(e, r, at)
    requires 0 !in e.rows[at] && at != to
    ensures r.Valid() && Browsed(e, Moved(r, to), to)
  {
    WithoutNul(e.rows[at]);
    assert r.Text() == r.left == e.rows[at];
    assert r.rows[at := e.rows[at]] == r.rows;
  }

  /** Going up n times: the n-th row before, with the cursor at its end; the line stays in its row and all others are as
      they were. */
  lemma {:induction false} GoingUp(e: Editor, n: nat)
    requires e.Valid() && e.first < ROWS && e.row == e.browsed && 0 < n <= RowsAbove(e.row, e.first)
    requires forall k :: 0 <= k < ROWS ==> 0 !in e.rows[k]
    ensures Browsed(e, PressedAll(e, Ups(n)), RowBefore(e.row, n))
    decreases n
  {
    assert Ups(n)[..n - 1] == Ups(n - 1);
    OneRowUp(e.row, e.first, n);
    if n > 1 {
      GoingUp(e, n - 1);
      BrowsedOn(e, PressedAll(e, Ups(n - 1)), RowBefore(e.row, n - 1), RowBefore(e.row, n));
    } else {
      assert PressedAll(e, Ups(0)) == e;
    }
  }

  /** And from the first row up it stays. */
  lemma UpAtFirst(e: Editor, n: nat)
    requires e.Valid() && e.browsed == e.first
    ensures PressedAll(e, Ups(n)) == e
  {
    if n > 0 {
      assert Ups(n)[..n - 1] == Ups(n - 1);
      UpAtFirst(e, n - 1);
    }
  }
}
