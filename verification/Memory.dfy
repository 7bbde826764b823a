/** libc/src/string.c: moving memory a word at a time. A word is four bytes. */
module Memory {
  import opened Common

  const WORD := 4

  /** The n bytes from s on stand at d; everything else is as it was. This is what memmove promises. */
  function Moved(m: seq<Byte>, d: nat, s: nat, n: nat): (r: seq<Byte>)
    requires d + n <= |m| && s + n <= |m|
    ensures |r| == |m|
  {
    seq(|m|, k requires 0 <= k < |m| => if d <= k < d + n then m[s + (k - d)] else m[k])
  }

  /** n bytes copied one after the other, upwards, each read when its turn comes. */
  function BytesUp(m: seq<Byte>, d: nat, s: nat, n: nat): (r: seq<Byte>)
    requires d + n <= |m| && s + n <= |m|
    ensures |r| == |m|
  {
    if n == 0 then m
    else
      var p := BytesUp(m, d, s, n - 1);
      p[d + n - 1 := p[s + n - 1]]
  }

  /** The first a bytes are moved, and then the remaining ones are copied upwards. */
  function MovedThenUp(m: seq<Byte>, d: nat, s: nat, a: nat, n: nat): (r: seq<Byte>)
    requires a <= n && d + n <= |m| && s + n <= |m|
    ensures |r| == |m|
  {
    BytesUp(Moved(m, d, s, a), d + a, s + a, n - a)
  }

  /** The bytes of n that make up whole words. */
  function Whole(n: nat): (a: nat)
    ensures a <= n < a + WORD
  {
    n - n % WORD
  }

  /** What memmove does: first the whole words, then the rest. */
  function Outcome(m: seq<Byte>, d: nat, s: nat, n: nat): (r: seq<Byte>)
    requires d + n <= |m| && s + n <= |m|
    ensures |r| == |m|
  {
    MovedThenUp(m, d, s, Whole(n), n)
  }

  /** w words copied one after the other, upwards, each read as a whole before it is written. */
  function WordsUp(m: seq<Byte>, d: nat, s: nat, w: nat): (r: seq<Byte>)
    requires d + WORD * w <= |m| && s + WORD * w <= |m|
    ensures |r| == |m|
  {
    if w == 0 then m
    else Moved(WordsUp(m, d, s, w - 1), d + WORD * (w - 1), s + WORD * (w - 1), WORD)
  }

  /** What memcpy does: words upwards, and then the rest. */
  function Copied(m: seq<Byte>, d: nat, s: nat, n: nat): (r: seq<Byte>)
    requires d + n <= |m| && s + n <= |m|
    ensures |r| == |m|
  {
    BytesUp(WordsUp(m, d, s, n / WORD), d + Whole(n), s + Whole(n), n - Whole(n))
  }

  lemma {:induction false} WordsUpMoves(m: seq<Byte>, d: nat, s: nat, w: nat)
    requires d + WORD * w <= |m| && s + WORD * w <= |m| && (d <= s || s + WORD * w <= d)
    ensures WordsUp(m, d, s, w) == Moved(m, d, s, WORD * w)
    decreases w
  {
    if w > 0 {
      WordsUpMoves(m, d, s, w - 1);
      MovedUp(m, d, s, WORD * (w - 1), WORD);
    }
  }

  lemma {:induction false} WordsUpAt(m: seq<Byte>, d: nat, s: nat, w: nat, k: nat)
    requires d + WORD * w <= |m| && s + WORD * w <= |m| && k < |m|
    ensures !(d <= k < d + WORD * w) ==> WordsUp(m, d, s, w)[k] == m[k]
    ensures d <= k < d + WORD * w ==> WordsUp(m, d, s, w)[k] == WordsUp(m, d, s, (k - d) / WORD)[s + (k - d)]
    decreases w
  {
    if w > 0 {
      WordsUpAt(m, d, s, w - 1, k);
    }
  }

  lemma {:induction false} BytesUpAt(m: seq<Byte>, d: nat, s: nat, n: nat, k: nat)
    requires d + n <= |m| && s + n <= |m| && k < |m|
    ensures !(d <= k < d + n) ==> BytesUp(m, d, s, n)[k] == m[k]
    ensures d <= k < d + n ==> BytesUp(m, d, s, n)[k] == BytesUp(m, d, s, k - d)[s + (k - d)]
    decreases n
  {
    if n > 0 {
      BytesUpAt(m, d, s, n - 1, k);
    }
  }

  /** Copying upwards is moving, unless the destination starts inside the source. */
  lemma {:induction false} BytesUpMoves(m: seq<Byte>, d: nat, s: nat, n: nat)
    requires d + n <= |m| && s + n <= |m| && (d <= s || s + n <= d)
    ensures BytesUp(m, d, s, n) == Moved(m, d, s, n)
    decreases n
  {
    if n > 0 {
      BytesUpMoves(m, d, s, n - 1);
    }
  }

  /** The condition under which memmove keeps its promise. */
  predicate Kept(d: nat, s: nat, n: nat) {
    d <= s || s + n <= d || n % WORD == 0
  }

  lemma MovedThenUpMoves(m: seq<Byte>, d: nat, s: nat, a: nat, n: nat)
    requires a <= n && d + n <= |m| && s + n <= |m| && (d <= s || s + n <= d || a == n)
    ensures MovedThenUp(m, d, s, a, n) == Moved(m, d, s, n)
  {
    if n != a {
      BytesUpMoves(Moved(m, d, s, a), d + a, s + a, n - a);
      MovedTwice(m, d, s, a, n);
    }
  }

  lemma MovedTwice(m: seq<Byte>, d: nat, s: nat, a: nat, n: nat)
    requires a <= n && d + n <= |m| && s + n <= |m| && (d <= s || s + n <= d)
    ensures Moved(Moved(m, d, s, a), d + a, s + a, n - a) == Moved(m, d, s, n)
  {
    var p := Moved(m, d, s, a);
    var r := Moved(p, d + a, s + a, n - a);
    forall k | 0 <= k < |m|
      ensures r[k] == Moved(m, d, s, n)[k]
    {
      if d + a <= k < d + n {
        assert r[k] == p[s + a + (k - (d + a))];
      } else {
        assert r[k] == p[k];
      }
    }
  }

  lemma OutcomeMoves(m: seq<Byte>, d: nat, s: nat, n: nat)
    requires d + n <= |m| && s + n <= |m| && Kept(d, s, n)
    ensures Outcome(m, d, s, n) == Moved(m, d, s, n)
  {
    MovedThenUpMoves(m, d, s, Whole(n), n);
  }

  /** A memory of zeros with a one at x. */
  function OneAt(len: nat, x: nat): (m: seq<Byte>)
    requires x < len
    ensures |m| == len && forall k :: 0 <= k < len ==> m[k] == if k == x then 1 else 0
  {
    seq(len, k => if k == x then 1 else 0)
  }

  /** When the destination starts inside the source and bytes remain behind the last word, the first of them
      that has already been overwritten is lost. */
  lemma LostNearby(len: nat, d: nat, s: nat, a: nat, n: nat)
    requires d + n <= len && s < d <= s + a && a < n
    ensures MovedThenUp(OneAt(len, s + a), d, s, a, n)[d + a] == 0
  {
    BytesUpAt(Moved(OneAt(len, s + a), d, s, a), d + a, s + a, n - a, d + a);
  }

  lemma LostFurther(len: nat, d: nat, s: nat, a: nat, n: nat)
    requires d + n <= len && s + a < d < s + n
    ensures MovedThenUp(OneAt(len, d), d, s, a, n)[d + (d - s)] == 0
  {
    var e := d - s;
    var p := Moved(OneAt(len, d), d, s, a);
    BytesUpAt(p, d + a, s + a, n - a, d + e);
    BytesUpAt(p, d + a, s + a, e - a, d);
  }

  lemma OutcomeFails(len: nat, d: nat, s: nat, n: nat) returns (m: seq<Byte>)
    requires d + n <= len && s + n <= len && !Kept(d, s, n)
    ensures |m| == len && Outcome(m, d, s, n) != Moved(m, d, s, n)
  {
    var a := Whole(n);
    if d <= s + a {
      m := OneAt(len, s + a);
      LostNearby(len, d, s, a, n);
      assert Moved(m, d, s, n)[d + a] == 1;
    } else {
      m := OneAt(len, d);
      LostFurther(len, d, s, a, n);
      assert Moved(m, d, s, n)[d + (d - s)] == 1;
    }
  }

  /** memmove is right for all contents of memory exactly under this condition. */
  lemma {:induction false} MovesExactly(len: nat, d: nat, s: nat, n: nat)
    requires d + n <= len && s + n <= len
    ensures (forall m: seq<Byte> :: |m| == len ==> Outcome(m, d, s, n) == Moved(m, d, s, n)) <==> Kept(d, s, n)
  {
    if Kept(d, s, n) {
      forall m: seq<Byte> | |m| == len
        ensures Outcome(m, d, s, n) == Moved(m, d, s, n)
      {
        OutcomeMoves(m, d, s, n);
      }
    } else {
      var m := OutcomeFails(len, d, s, n);
    }
  }

  /** Word i is copied: four bytes are read before any of them is written. */
  method CopyWord(mem: array<Byte>, d: nat, s: nat, ghost m: seq<Byte>)
    requires d + WORD <= mem.Length && s + WORD <= mem.Length && mem[..] == m
    modifies mem
    ensures mem[..] == Moved(m, d, s, WORD)
  {
    mem[d], mem[d + 1], mem[d + 2], mem[d + 3] := mem[s], mem[s + 1], mem[s + 2], mem[s + 3];
  }

  /** Moving a bytes and then the b bytes behind them is moving all, if the first move left the source alone. */
  lemma MovedUp(m: seq<Byte>, d: nat, s: nat, a: nat, b: nat)
    requires d + a + b <= |m| && s + a + b <= |m| && (d <= s || s + a + b <= d)
    ensures Moved(Moved(m, d, s, a), d + a, s + a, b) == Moved(m, d, s, a + b)
  {
    MovedTwice(m, d, s, a, a + b);
  }

  /** Moving the b bytes behind the first a and then those is moving all, if d is not below s. */
  lemma MovedDown(m: seq<Byte>, d: nat, s: nat, a: nat, b: nat)
    requires d + a + b <= |m| && s <= d
    ensures Moved(Moved(m, d + a, s + a, b), d, s, a) == Moved(m, d, s, a + b)
  {
    var p := Moved(m, d + a, s + a, b);
    var r := Moved(p, d, s, a);
    forall k | 0 <= k < |m|
      ensures r[k] == Moved(m, d, s, a + b)[k]
    {
      if d <= k < d + a {
        assert r[k] == p[s + (k - d)];
      } else {
        assert r[k] == p[k];
      }
    }
  }

  lemma MovedNothing(m: seq<Byte>, d: nat, s: nat)
    requires d <= |m| && s <= |m|
    ensures Moved(m, d, s, 0) == m
  {
  }

  method CopyWordsUp(mem: array<Byte>, d: nat, s: nat, w: nat)
    requires d + WORD * w <= mem.Length && s + WORD * w <= mem.Length
    modifies mem
    ensures mem[..] == WordsUp(old(mem[..]), d, s, w)
  {
    ghost var m := mem[..];
    for i := 0 to w
      invariant mem[..] == WordsUp(m, d, s, i)
    {
      CopyWord(mem, d + WORD * i, s + WORD * i, WordsUp(m, d, s, i));
    }
  }

  method CopyWordsDown(mem: array<Byte>, d: nat, s: nat, w: nat)
    requires d + WORD * w <= mem.Length && s <= d
    modifies mem
    ensures mem[..] == Moved(old(mem[..]), d, s, WORD * w)
  {
    ghost var m := mem[..];
    MovedNothing(m, d + WORD * w, s + WORD * w);
    for i := w downto 0
      invariant mem[..] == Moved(m, d + WORD * i, s + WORD * i, WORD * w - WORD * i)
    {
      assert WORD * (i + 1) == WORD * i + WORD;
      PreviousWord(mem, d + WORD * i, s + WORD * i, WORD * w - WORD * i - WORD, m);
    }
  }

  /** The word before the b bytes moved so far. */
  method PreviousWord(mem: array<Byte>, d: nat, s: nat, b: nat, ghost m: seq<Byte>)
    requires |m| == mem.Length && d + WORD + b <= |m| && s <= d
    requires mem[..] == Moved(m, d + WORD, s + WORD, b)
    modifies mem
    ensures mem[..] == Moved(m, d, s, WORD + b)
  {
    CopyWord(mem, d, s, Moved(m, d + WORD, s + WORD, b));
    MovedDown(m, d, s, WORD, b);
  }

  method CopyBytesUp(mem: array<Byte>, d: nat, s: nat, n: nat)
    requires d + n <= mem.Length && s + n <= mem.Length
    modifies mem
    ensures mem[..] == BytesUp(old(mem[..]), d, s, n)
  {
    for i := 0 to n
      invariant mem[..] == BytesUp(old(mem[..]), d, s, i)
    {
      mem[d + i] := mem[s + i];
    }
  }

  /** Whole words, upwards, and then the rest. */
  method CopyUp(mem: array<Byte>, d: nat, s: nat, n: nat)
    requires d + n <= mem.Length && s + n <= mem.Length
    modifies mem
    ensures mem[..] == Copied(old(mem[..]), d, s, n)
  {
    var w := n / WORD;
    ghost var a := Whole(n);
    assert WORD * w == a;
    CopyWordsUp(mem, d, s, w);
    CopyBytesUp(mem, d + w * WORD, s + w * WORD, n % WORD);
  }

  /** Whole words, downwards, and then the rest, upwards. */
  method CopyDown(mem: array<Byte>, d: nat, s: nat, n: nat)
    requires d + n <= mem.Length && s <= d
    modifies mem
    ensures mem[..] == Outcome(old(mem[..]), d, s, n)
  {
    var w := n / WORD;
    ghost var a := Whole(n);
    assert WORD * w == a;
    CopyWordsDown(mem, d, s, w);
    CopyBytesUp(mem, d + w * WORD, s + w * WORD, n % WORD);
  }

  /** Where memcpy is memmove. */
  lemma CopiedIsOutcome(m: seq<Byte>, d: nat, s: nat, n: nat)
    requires d + n <= |m| && s + n <= |m| && (d <= s || s + n <= d)
    ensures Copied(m, d, s, n) == Outcome(m, d, s, n) == Moved(m, d, s, n)
  {
    assert WORD * (n / WORD) == Whole(n);
    WordsUpMoves(m, d, s, n / WORD);
    OutcomeMoves(m, d, s, n);
  }

  /** memcpy, for any two ranges */
  method Memcpy(mem: array<Byte>, dest: nat, src: nat, size: nat)
    requires dest + size <= mem.Length && src + size <= mem.Length
    modifies mem
    ensures mem[..] == Copied(old(mem[..]), dest, src, size)
    ensures dest <= src || src + size <= dest ==> mem[..] == Moved(old(mem[..]), dest, src, size)
  {
    if dest <= src || src + size <= dest {
      CopiedIsOutcome(mem[..], dest, src, size);
    }
    CopyUp(mem, dest, src, size);
  }

  /** A single word that overlaps is read before it is written. */
  lemma OneWord(m: seq<Byte>, d: nat, s: nat)
    requires d + WORD <= |m| && s + WORD <= |m|
    ensures Copied(m, d, s, WORD) == Moved(m, d, s, WORD)
  {
    assert WordsUp(m, d, s, 1) == Moved(WordsUp(m, d, s, 0), d, s, WORD);
  }

  /** The first byte of the source that is read after it has been overwritten. */
  function FirstLost(e: nat, n: nat): nat {
    if e >= WORD || n < WORD then e else WORD
  }

  lemma LostInWords(m: seq<Byte>, d: nat, s: nat, w: nat, j: nat)
    requires d + WORD * w <= |m| && s + WORD * w <= |m| && s < d && d - s <= j < WORD * w
    requires j == d - s >= WORD || j == WORD
    ensures WordsUp(m, d, s, w)[d + j] == m[s + j - (d - s)]
  {
    WordsUpAt(m, d, s, w, d + j);
    var q := j / WORD;
    WordsUpAt(m, d, s, q, s + j);
    assert (s + j - d) / WORD == 0;
  }

  lemma LostBehindWords(m: seq<Byte>, d: nat, s: nat, n: nat, j: nat)
    requires d + n <= |m| && s + n <= |m| && s < d && d - s <= j < n && j >= Whole(n)
    requires j == FirstLost(d - s, n)
    ensures Copied(m, d, s, n)[d + j] == m[s + j - (d - s)]
  {
    var a, w := Whole(n), n / WORD;
    assert a == WORD * w;
    var p := WordsUp(m, d, s, w);
    BytesUpAt(p, d + a, s + a, n - a, d + j);
    BytesUpAt(p, d + a, s + a, j - a, s + j);
    WordsUpAt(m, d, s, w, s + j);
    if w > 0 {
      assert (s + j - d) / WORD == 0;
    }
  }

  lemma CopyFails(len: nat, d: nat, s: nat, n: nat) returns (m: seq<Byte>)
    requires d + n <= len && s < d < s + n && n != WORD
    ensures |m| == len && Copied(m, d, s, n) != Moved(m, d, s, n)
  {
    var j := FirstLost(d - s, n);
    m := OneAt(len, s + j);
    if j < Whole(n) {
      var w := n / WORD;
      assert Whole(n) == WORD * w;
      LostInWords(m, d, s, w, j);
      BytesUpAt(WordsUp(m, d, s, w), d + Whole(n), s + Whole(n), n - Whole(n), d + j);
    } else {
      LostBehindWords(m, d, s, n, j);
    }
    assert Moved(m, d, s, n)[d + j] == 1;
  }

  /** memcpy is right for all contents of memory exactly if dest does not start inside the source, behind its
      start, or a single word is copied. */
  lemma {:induction false} CopiesExactly(len: nat, d: nat, s: nat, n: nat)
    requires d + n <= len && s + n <= len
    ensures (forall m: seq<Byte> :: |m| == len ==> Copied(m, d, s, n) == Moved(m, d, s, n))
       <==> (d <= s || s + n <= d || n == WORD)
  {
    if d <= s || s + n <= d || n == WORD {
      forall m: seq<Byte> | |m| == len
        ensures Copied(m, d, s, n) == Moved(m, d, s, n)
      {
        if n == WORD {
          OneWord(m, d, s);
        } else {
          CopiedIsOutcome(m, d, s, n);
        }
      }
    } else {
      var m := CopyFails(len, d, s, n);
    }
  }

  /** memmove */
  method Memmove(mem: array<Byte>, dest: nat, src: nat, n: nat)
    requires dest + n <= mem.Length && src + n <= mem.Length
    modifies mem
    ensures mem[..] == Outcome(old(mem[..]), dest, src, n)
    ensures Kept(dest, src, n) ==> mem[..] == Moved(old(mem[..]), dest, src, n)
  {
    ghost var m := mem[..];
    if Kept(dest, src, n) {
      OutcomeMoves(m, dest, src, n);
    }
    if dest <= src || src + n <= dest {
      CopiedIsOutcome(m, dest, src, n);
    }
    if src == dest || n == 0 {
      assert Moved(m, dest, src, n) == m;
    } else if dest > src && dest - src < n {
      CopyDown(mem, dest, src, n);
    } else if dest < src && src - dest < n {
      CopyUp(mem, dest, src, n);
    } else {
      Memcpy(mem, dest, src, n);
    }
  }

  // ------------------------------------------------------------------ strings

  /** The string of length n at p: n bytes without NUL, and then a NUL. */
  predicate StringAt(m: seq<Byte>, p: nat, n: nat) {
    p + n < |m| && m[p + n] == 0 && forall k :: p <= k < p + n ==> m[k] != 0
  }

  /** strlen */
  method Strlen(mem: array<Byte>, p: nat, ghost n: nat) returns (len: nat)
    requires StringAt(mem[..], p, n)
    ensures len == n
  {
    len := 0;
    while mem[p + len] != 0
      invariant len <= n
      decreases n - len
    {
      len := len + 1;
    }
    assert mem[p + len] == mem[..][p + len];
  }

  /** The n bytes from p on in reverse order. */
  function Reversed(m: seq<Byte>, p: nat, n: nat): (r: seq<Byte>)
    requires p + n <= |m|
  {
    seq(|m|, k requires 0 <= k < |m| => if p <= k < p + n then m[p + (p + n - 1 - k)] else m[k])
  }

  /** strrev */
  method Strrev(mem: array<Byte>, p: nat, ghost n: nat)
    requires StringAt(mem[..], p, n)
    modifies mem
    ensures mem[..] == Reversed(old(mem[..]), p, n)
    ensures StringAt(mem[..], p, n)
  {
    ghost var m := mem[..];
    var len := Strlen(mem, p, n);
    for i := 0 to len / 2
      invariant mem[..] == EndsSwapped(m, p, n, i)
    {
      var tmp := mem[p + i];
      mem[p + i] := mem[p + (len - i - 1)];
      mem[p + (len - i - 1)] := tmp;
    }
    AllSwapped(m, p, n);
  }

  /** The first i and the last i bytes of the string have changed places. */
  function EndsSwapped(m: seq<Byte>, p: nat, n: nat, i: nat): (r: seq<Byte>)
    requires p + n <= |m| && i <= n / 2
  {
    seq(|m|, k requires 0 <= k < |m| => if p <= k < p + i || p + n - i <= k < p + n then m[p + (p + n - 1 - k)] else m[k])
  }

  lemma AllSwapped(m: seq<Byte>, p: nat, n: nat)
    requires p + n <= |m|
    ensures EndsSwapped(m, p, n, n / 2) == Reversed(m, p, n)
  {
  }
}
