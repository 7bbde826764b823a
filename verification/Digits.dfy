/** libc/src/itoa.c and libc/src/atoi.c: numerals in any base from 2 to 36, and back. */
module Digits {
  import opened Arithmetic
  import opened Common
  import opened Memory

  const HALF := 0x8000_0000

  /** The digit characters: 0 to 9 and then a to z. */
  function Char(d: nat): (c: Byte)
    requires d < 36
    ensures c != 0
  {
    if d < 10 then 48 + d else 97 + d - 10
  }

  predicate IsDigit(c: Byte, base: nat) {
    (48 <= c < 58 && c - 48 < base) || (97 <= c < 123 && c - 87 < base)
  }

  function DigitValue(c: Byte): nat
    requires IsDigit(c, 36)
  {
    if c < 58 then c - 48 else c - 87
  }

  predicate AreDigits(s: seq<Byte>, base: nat) {
    base <= 36 && forall k :: 0 <= k < |s| ==> IsDigit(s[k], base)
  }

  /** What a string of digits means. */
  function Value(s: seq<Byte>, base: nat): nat
    requires AreDigits(s, base)
  {
    if s == [] then 0
    else
      var v := Value(s[..|s| - 1], base);
      ProductIsNat(base, v);
      base * v + DigitValue(s[|s| - 1])
  }

  /** A numeral: at least one digit, and no leading zero unless it is the only digit. */
  predicate IsNumeral(s: seq<Byte>, base: nat) {
    s != [] && AreDigits(s, base) && (|s| > 1 ==> s[0] != 48)
  }

  lemma AtLeastTwice(base: nat, q: nat)
    requires base >= 2
    ensures base * q >= 2 * q
  {
    assert (base - 2) * q >= 0;
  }

  lemma Divide(v: nat, base: nat)
    requires base >= 2
    ensures v == base * (v / base) + v % base && v % base < base
    ensures v > 0 ==> v / base < v
    ensures v / base == 0 <==> v < base
  {
    var q, d := v / base, v % base;
    assert v == base * q + d;
    AtLeastTwice(base, q);
    if v < base {
      DivideUnique(v, base, 0, v);
    }
  }

  /** The numeral of v. */
  function Numeral(v: nat, base: nat): (s: seq<Byte>)
    requires 2 <= base <= 36
    ensures s != []
    decreases v
  {
    if v < base then [Char(v)]
    else
      Divide(v, base);
      Numeral(v / base, base) + [Char(v % base)]
  }

  lemma CharValue(d: nat, base: nat)
    requires d < base <= 36
    ensures IsDigit(Char(d), base) && DigitValue(Char(d)) == d && (d > 0 ==> Char(d) != 48)
  {
  }

  lemma Extended(t: seq<Byte>, d: nat, base: nat, w: nat)
    requires d < base <= 36 && IsNumeral(t, base) && t[0] != 48 && Value(t, base) == w
    ensures IsNumeral(t + [Char(d)], base) && (t + [Char(d)])[0] != 48 && Value(t + [Char(d)], base) == base * w + d
  {
    CharValue(d, base);
    assert (t + [Char(d)])[..|t|] == t;
  }

  lemma SingleDigit(d: nat, base: nat)
    requires d < base <= 36
    ensures IsNumeral([Char(d)], base) && Value([Char(d)], base) == d && (d > 0 ==> Char(d) != 48)
  {
    CharValue(d, base);
    assert [Char(d)][..0] == [];
  }

  /** Numeral makes numerals, and they mean what they should. */
  lemma {:induction false} NumeralMeans(v: nat, base: nat)
    requires 2 <= base <= 36
    ensures IsNumeral(Numeral(v, base), base) && Value(Numeral(v, base), base) == v
    ensures v > 0 ==> Numeral(v, base)[0] != 48
    decreases v
  {
    if v < base {
      SingleDigit(v, base);
    } else {
      Divide(v, base);
      NumeralMeans(v / base, base);
      Extended(Numeral(v / base, base), v % base, base, v / base);
    }
  }

  /** In base 16, "beef", with small letters. */
  lemma Hexadecimal()
    ensures Numeral(48879, 16) == [98, 101, 101, 102]
  {
    assert Numeral(11, 16) == [98];
    assert Numeral(190, 16) == [98, 101];
    assert Numeral(3054, 16) == [98, 101, 101];
  }

  lemma {:induction false} ValueAtLeast(s: seq<Byte>, base: nat)
    requires 2 <= base && s != [] && AreDigits(s, base) && s[0] != 48
    ensures Value(s, base) >= 1
  {
    if |s| > 1 {
      ValueAtLeast(s[..|s| - 1], base);
      AtLeastTwice(base, Value(s[..|s| - 1], base));
    }
  }

  lemma NumeralAppend(w: nat, d: nat, base: nat)
    requires 2 <= base <= 36 && w >= 1 && d < base
    ensures Numeral(base * w + d, base) == Numeral(w, base) + [Char(d)]
  {
    DivideUnique(base * w + d, base, w, d);
    Steps(base, 0, w);
  }

  /** There is only one numeral for every number. */
  lemma {:induction false} NumeralUnique(s: seq<Byte>, base: nat)
    requires 2 <= base <= 36 && IsNumeral(s, base)
    ensures s == Numeral(Value(s, base), base)
    decreases |s|
  {
    var c := s[|s| - 1];
    var t := s[..|s| - 1];
    assert s == t + [c];
    DigitBelow(c, base);
    if |s| == 1 {
      assert Value(t, base) == 0;
    } else {
      ValueAtLeast(t, base);
      NumeralUnique(t, base);
      NumeralAppend(Value(t, base), DigitValue(c), base);
    }
  }

  lemma DigitBelow(c: Byte, base: nat)
    requires base <= 36 && IsDigit(c, base)
    ensures DigitValue(c) < base && Char(DigitValue(c)) == c
  {
  }

  // ------------------------------------------------------------------ itoa

  predicate FitsInt(v: int) { -HALF <= v < HALF }

  /** The conversion to unsigned int. */
  function Unsigned(v: int): nat
    requires FitsInt(v)
  {
    if v < 0 then v + WORDS else v
  }

  function Rev(s: seq<Byte>): (r: seq<Byte>)
    ensures |r| == |s|
  {
    if s == [] then [] else [s[|s| - 1]] + Rev(s[..|s| - 1])
  }

  lemma {:induction false} RevIs(s: seq<Byte>, k: nat)
    requires k < |s|
    ensures Rev(s)[k] == s[|s| - 1 - k]
    decreases |s|
  {
    if k > 0 {
      RevIs(s[..|s| - 1], k - 1);
    }
  }

  /** The digits still to come in front of those written. */
  function Front(num: nat, base: nat, i: nat): seq<Byte>
    requires 2 <= base <= 36
  {
    if num == 0 && i > 0 then [] else Numeral(num, base)
  }

  lemma FrontStep(num: nat, base: nat, i: nat)
    requires 2 <= base <= 36 && (num > 0 || i == 0)
    ensures Front(num, base, i) == Front(num / base, base, i + 1) + [Char(num % base)]
  {
    Divide(num, base);
    if num < base {
      assert [] + [Char(num)] == [Char(num)];
    }
  }

  lemma EmitStep(s: seq<Byte>, num: nat, base: nat, i: nat)
    requires 2 <= base <= 36 && (num > 0 || i == 0) && num % base < base
    ensures Front(num / base, base, i + 1) + Rev(s + [Char(num % base)]) == Front(num, base, i) + Rev(s)
  {
    FrontStep(num, base, i);
    var t := s + [Char(num % base)];
    assert t[..|t| - 1] == s;
    Shift(Front(num / base, base, i + 1), Char(num % base), Rev(s));
  }

  /** The lowest digit, and the number without it. */
  method Split(num: nat, base: nat, ghost i: nat, ghost s: seq<Byte>) returns (digit: nat, rest: nat)
    requires 2 <= base <= 36 && (num > 0 || i == 0)
    ensures digit < base && (num > 0 ==> rest < num)
    ensures Front(rest, base, i + 1) + Rev(s + [Char(digit)]) == Front(num, base, i) + Rev(s)
  {
    Divide(num, base);
    EmitStep(s, num, base, i);
    digit := num % base;
    rest := num / base;
  }

  /** Lines 10-13, one turn. */
  method Emit(mem: array<Byte>, p: nat, i: nat, num: nat, base: nat, ghost u: nat) returns (rest: nat)
    requires 2 <= base <= 36 && p + i < mem.Length && (num > 0 || i == 0)
    requires Front(num, base, i) + Rev(mem[p..p + i]) == Numeral(u, base)
    requires forall k :: p <= k < p + i ==> mem[k] != 0
    modifies mem
    ensures num > 0 ==> rest < num
    ensures Front(rest, base, i + 1) + Rev(mem[p..p + i + 1]) == Numeral(u, base)
    ensures forall k :: p <= k < p + i + 1 ==> mem[k] != 0
    ensures forall k :: 0 <= k < mem.Length && k != p + i ==> mem[k] == old(mem[k])
  {
    ghost var s := mem[p..p + i];
    var digit;
    digit, rest := Split(num, base, i, s);
    mem[p + i] := if digit < 10 then 48 + digit else 97 + digit - 10;
    assert mem[p..p + i + 1] == s + [Char(digit)];
  }

  lemma Shift(a: seq<Byte>, c: Byte, b: seq<Byte>)
    ensures (a + [c]) + b == a + ([c] + b)
  {
  }

  /** What itoa leaves of the numeral: with a length of 1, for which len - 1 is no limit that could be reached, it
      stops after the lowest digit and does not notice. */
  function Stored(s: seq<Byte>, len: nat): (r: seq<Byte>)
    requires s != []
  {
    if len == 1 then [s[|s| - 1]] else s
  }

  /** The bytes it may write: with a length of 1 it writes two. */
  function Room(len: nat): nat {
    if len == 1 then 2 else len
  }

  /** itoa */
  method Itoa(value: int, mem: array<Byte>, p: nat, len: nat, base: int) returns (r: int)
    requires FitsInt(value) && p + Room(len) <= mem.Length
    modifies mem
    ensures r == 0 || r == -1
    ensures r == 0 <==> len != 0 && 2 <= base <= 36 && (len == 1 || |Numeral(Unsigned(value), base)| <= len - 1)
    ensures r == 0 ==> var s := Stored(Numeral(Unsigned(value), base), len);
      StringAt(mem[..], p, |s|) && mem[..][p..p + |s|] == s
    ensures forall k :: 0 <= k < mem.Length && !(p <= k < p + Room(len)) ==> mem[k] == old(mem[k])
  {
    if len == 0 || base < 2 || base > 36 {
      return -1;
    }
    var num: nat := if value < 0 then value + WORDS else value;
    var i: nat;
    i, num := EmitAll(mem, p, len, num, base);
    if i == len - 1 && num != 0 {
      return -1;
    }
    ghost var s := Numeral(Unsigned(value), base);
    if len == 1 {
      SingleRev(mem[p..p + 1]);
      assert Rev(mem[p..p + 1]) == [s[|s| - 1]];
    }
    Finish(mem, p, i, Stored(s, len));
    r := 0;
  }

  lemma SingleRev(t: seq<Byte>)
    requires |t| == 1
    ensures Rev(t) == t
  {
    assert t[..0] == [];
  }

  /** Lines 10-13: digits, the lowest first, until none is left or the buffer is full. */
  method EmitAll(mem: array<Byte>, p: nat, len: nat, u: nat, base: nat) returns (i: nat, num: nat)
    requires 2 <= base <= 36 && len >= 1 && p + Room(len) <= mem.Length
    modifies mem
    ensures 1 <= i < Room(len) && (num == 0 || i == Room(len) - 1) && (len == 1 ==> i == 1)
    ensures Front(num, base, i) + Rev(mem[p..p + i]) == Numeral(u, base)
    ensures forall k :: p <= k < p + i ==> mem[k] != 0
    ensures forall k :: 0 <= k < mem.Length && !(p <= k < p + Room(len)) ==> mem[k] == old(mem[k])
  {
    assert mem[p..p + 0] == [];
    assert Front(u, base, 0) + [] == Front(u, base, 0);
    num := Emit(mem, p, 0, u, base, u);
    i := 1;
    while num != 0 && i < len - 1
      invariant 1 <= i < Room(len)
      invariant Front(num, base, i) + Rev(mem[p..p + i]) == Numeral(u, base)
      invariant forall k :: p <= k < p + i ==> mem[k] != 0
      invariant forall k :: 0 <= k < mem.Length && !(p <= k < p + Room(len)) ==> mem[k] == old(mem[k])
      decreases num
    {
      num := Emit(mem, p, i, num, base, u);
      i := i + 1;
    }
  }

  /** Lines 17-19. */
  method Finish(mem: array<Byte>, p: nat, i: nat, ghost s: seq<Byte>)
    requires p + i < mem.Length && (forall k :: p <= k < p + i ==> mem[k] != 0)
    requires s == [] + Rev(mem[p..p + i])
    modifies mem
    ensures StringAt(mem[..], p, i) && mem[..][p..p + i] == s
    ensures forall k :: 0 <= k < mem.Length && !(p <= k <= p + i) ==> mem[k] == old(mem[k])
  {
    ghost var t := mem[p..p + i];
    mem[p + i] := 0;
    ghost var m := mem[..];
    assert m[p..p + i] == t;
    ReversedIsRev(m, p, i);
    Strrev(mem, p, i);
  }

  lemma ReversedIsRev(m: seq<Byte>, p: nat, n: nat)
    requires p + n <= |m|
    ensures Reversed(m, p, n)[p..p + n] == [] + Rev(m[p..p + n])
  {
    var a, b := m[p..p + n], Reversed(m, p, n)[p..p + n];
    forall k | 0 <= k < n
      ensures b[k] == Rev(a)[k]
    {
      RevIs(a, k);
    }
  }

  // ------------------------------------------------------------------ atoi

  predicate Blank(c: Byte) { c == 32 || c == 10 || c == 13 }

  predicate Decimal(c: Byte) { 48 <= c <= 57 }

  function Body(s: seq<Byte>): seq<Byte> {
    if s != [] && Blank(s[0]) then Body(s[1..]) else s
  }

  /** The decimal digits at the beginning. */
  function Leading(s: seq<Byte>): (d: seq<Byte>)
    ensures AreDigits(d, 10)
  {
    if s != [] && Decimal(s[0]) then [s[0]] + Leading(s[1..]) else []
  }

  /** The integer a string stands for: blanks, an optional sign, and digits up to the first other character. */
  function Parsed(s: seq<Byte>): int {
    var b := Body(s);
    if b != [] && b[0] == 45 then 0 - Value(Leading(b[1..]), 10)
    else if b != [] && b[0] == 43 then Value(Leading(b[1..]), 10)
    else Value(Leading(b), 10)
  }

  /** A string as it should be read: blanks, a sign or none, digits, and a rest that is none of these where it could
      belong to them. */
  datatype Reading = Reading(blanks: seq<Byte>, sign: seq<Byte>, digits: seq<Byte>, rest: seq<Byte>) {
    predicate Valid() {
      && (forall k :: 0 <= k < |blanks| ==> blanks[k] in [32, 10, 13])
      && (sign == [] || sign == [43] || sign == [45])
      && AreDigits(digits, 10)
      && (rest != [] ==> !(48 <= rest[0] <= 57))
      && (rest != [] && digits == [] && sign == [] ==> rest[0] !in [32, 10, 13, 43, 45])
    }

    function Text(): seq<Byte> { blanks + (sign + (digits + rest)) }

    function Meaning(): int
      requires Valid()
    {
      if sign == [45] then 0 - Value(digits, 10) else Value(digits, 10)
    }
  }

  lemma {:induction false} BodyOf(bl: seq<Byte>, b: seq<Byte>)
    requires (forall k :: 0 <= k < |bl| ==> bl[k] in [32, 10, 13]) && (b != [] ==> b[0] !in [32, 10, 13])
    ensures Body(bl + b) == b
    decreases |bl|
  {
    if bl == [] {
      assert bl + b == b;
    } else {
      assert (bl + b)[1..] == bl[1..] + b;
      BodyOf(bl[1..], b);
    }
  }

  lemma {:induction false} LeadingOf(d: seq<Byte>, t: seq<Byte>)
    requires AreDigits(d, 10) && (t != [] ==> !(48 <= t[0] <= 57))
    ensures Leading(d + t) == d
    decreases |d|
  {
    if d == [] {
      assert d + t == t;
    } else {
      assert (d + t)[1..] == d[1..] + t;
      LeadingOf(d[1..], t);
    }
  }

  /** Whatever reading a string has, that is what it is parsed as: so it has only one meaning. */
  lemma ParsedAsRead(rd: Reading)
    requires rd.Valid()
    ensures Parsed(rd.Text()) == rd.Meaning()
  {
    var t := rd.digits + rd.rest;
    var b := rd.sign + t;
    BodyOf(rd.blanks, b);
    LeadingOf(rd.digits, rd.rest);
    if rd.sign == [] {
      assert b == t;
    } else {
      assert b[0] == rd.sign[0] && b[1..] == t;
    }
  }

  lemma {:induction false} BlanksOf(s: seq<Byte>) returns (bl: seq<Byte>)
    ensures s == bl + Body(s) && (Body(s) != [] ==> !Blank(Body(s)[0]))
    ensures forall k :: 0 <= k < |bl| ==> bl[k] in [32, 10, 13]
    decreases |s|
  {
    bl := [];
    if s != [] && Blank(s[0]) {
      bl := BlanksOf(s[1..]);
      assert s == [s[0]] + s[1..];
      bl := [s[0]] + bl;
    }
  }

  lemma {:induction false} RestOf(s: seq<Byte>) returns (rest: seq<Byte>)
    ensures s == Leading(s) + rest && (rest != [] ==> !(48 <= rest[0] <= 57))
    decreases |s|
  {
    rest := s;
    if s != [] && Decimal(s[0]) {
      rest := RestOf(s[1..]);
      assert s == [s[0]] + s[1..];
    }
  }

  /** And every string has a reading. */
  lemma EveryStringReads(s: seq<Byte>) returns (rd: Reading)
    ensures rd.Valid() && rd.Text() == s
  {
    var bl := BlanksOf(s);
    var b := Body(s);
    if b != [] && (b[0] == 43 || b[0] == 45) {
      var rest := RestOf(b[1..]);
      rd := Reading(bl, [b[0]], Leading(b[1..]), rest);
      assert b == [b[0]] + b[1..];
    } else {
      var rest := RestOf(b);
      rd := Reading(bl, [], Leading(b), rest);
      assert [] + b == b;
    }
  }

  /** Numerals with blanks, a sign and something behind them. */
  lemma ParsedNumeral(bl: seq<Byte>, u: nat, t: seq<Byte>)
    requires forall k :: 0 <= k < |bl| ==> bl[k] in [32, 10, 13]
    requires t != [] ==> !(48 <= t[0] <= 57)
    ensures Parsed(bl + ([45] + (Numeral(u, 10) + t))) == 0 - u
    ensures Parsed(bl + ([43] + (Numeral(u, 10) + t))) == Parsed(bl + (Numeral(u, 10) + t)) == u
  {
    var n := Numeral(u, 10);
    NumeralMeans(u, 10);
    ParsedAsRead(Reading(bl, [45], n, t));
    ParsedAsRead(Reading(bl, [43], n, t));
    ParsedAsRead(Reading(bl, [], n, t));
    assert [] + (n + t) == n + t;
  }

  /** Without a digit it is 0. */
  lemma ParsedNothing(bl: seq<Byte>, sign: seq<Byte>, t: seq<Byte>)
    requires Reading(bl, sign, [], t).Valid()
    ensures Parsed(bl + (sign + t)) == 0
  {
    ParsedAsRead(Reading(bl, sign, [], t));
    assert [] + t == t;
  }

  function Lap(v: int, k: int): int { v + WORDS * k }

  /** a and b are the same 32-bit number. */
  ghost predicate Congruent(a: int, b: int) { exists k :: a == Lap(b, k) }

  lemma CongruentInts(a: int, b: int)
    requires FitsInt(a) && FitsInt(b) && Congruent(a, b)
    ensures a == b
  {
  }

  lemma CongruentTrans(a: int, b: int, c: int)
    requires Congruent(a, b) && Congruent(b, c)
    ensures Congruent(a, c)
  {
    var k :| a == Lap(b, k);
    var l :| b == Lap(c, l);
    assert a == Lap(c, k + l);
  }

  lemma CongruentDigit(a: int, b: int, d: int)
    requires Congruent(a, b)
    ensures Congruent(10 * a + d, 10 * b + d) && Congruent(-a, -b)
  {
    var k :| a == Lap(b, k);
    assert 10 * a + d == Lap(10 * b + d, 10 * k);
    assert -a == Lap(-b, -k);
  }

  /** Two's-complement wrapping of an int. */
  method WrapInt(x: int) returns (y: int)
    ensures FitsInt(y) && Congruent(y, x)
  {
    var q := (x + HALF) / WORDS;
    y := (x + HALF) % WORDS - HALF;
    assert y == Lap(x, -q);
  }

  /** Lines 17-18. */
  method AddDigit(num: int, c: Byte, ghost v: int) returns (r: int)
    requires Decimal(c) && Congruent(num, v)
    ensures FitsInt(r) && Congruent(r, 10 * v + (c - 48))
  {
    var t := WrapInt(num * 10);
    r := WrapInt(t + (c - 48));
    ghost var d := c - 48;
    assert Congruent(t + d, 10 * num + d) by {
      var k :| t == Lap(num * 10, k);
      assert t + d == Lap(10 * num + d, k);
    }
    CongruentDigit(num, v, d);
    CongruentTrans(r, t + d, 10 * num + d);
    CongruentTrans(r, 10 * num + d, 10 * v + d);
  }

  lemma ValueAppend(d: seq<Byte>, c: Byte)
    requires AreDigits(d, 10) && Decimal(c)
    ensures AreDigits(d + [c], 10) && Value(d + [c], 10) == 10 * Value(d, 10) + (c - 48)
  {
    assert (d + [c])[..|d|] == d;
  }

  /** Lines 16-20: the digits from q on. */
  method ReadDigits(mem: array<Byte>, q: nat, ghost n: nat) returns (num: int)
    requires q + n < mem.Length && mem[q + n] == 0
    ensures FitsInt(num) && Congruent(num, Value(Leading(mem[q..q + n]), 10))
  {
    num := 0;
    var i := 0;
    ghost var s := mem[q..q + n];
    ghost var d: seq<Byte> := [];
    assert 0 == Lap(0, 0);
    while Decimal(mem[q + i])
      invariant i <= n && AreDigits(d, 10)
      invariant Leading(s) == d + Leading(s[i..])
      invariant FitsInt(num) && Congruent(num, Value(d, 10))
      decreases n - i
    {
      assert s[i..][0] == mem[q + i] && s[i..][1..] == s[i + 1..];
      ValueAppend(d, mem[q + i]);
      num := AddDigit(num, mem[q + i], Value(d, 10));
      Shift(d, mem[q + i], Leading(s[i + 1..]));
      d := d + [mem[q + i]];
      i := i + 1;
    }
    assert Leading(s[i..]) == [];
    assert d + [] == d;
  }

  /** Line 7. */
  method SkipBlanks(mem: array<Byte>, p: nat, ghost n: nat) returns (q: nat)
    requires p + n < mem.Length && mem[p + n] == 0
    ensures p <= q <= p + n && mem[q..p + n] == Body(mem[p..p + n])
    ensures q < p + n ==> !Blank(mem[q])
  {
    q := p;
    while Blank(mem[q])
      invariant p <= q <= p + n && Body(mem[q..p + n]) == Body(mem[p..p + n])
      decreases p + n - q
    {
      assert mem[q..p + n][1..] == mem[q + 1..p + n];
      q := q + 1;
    }
  }

  /** The int stands for what the string reads as, in 32 bits. */
  ghost predicate ReadAs(s: seq<Byte>, r: int) {
    FitsInt(r) && forall rd: Reading :: rd.Valid() && rd.Text() == s ==> Congruent(r, rd.Meaning())
  }

  lemma ReadsParsed(s: seq<Byte>, r: int)
    requires FitsInt(r) && Congruent(r, Parsed(s))
    ensures ReadAs(s, r)
  {
    forall rd: Reading | rd.Valid() && rd.Text() == s
      ensures Congruent(r, rd.Meaning())
    {
      ParsedAsRead(rd);
    }
  }

  /** No other int does. */
  lemma ReadAsUnique(s: seq<Byte>, a: int, b: int)
    requires ReadAs(s, a) && ReadAs(s, b)
    ensures a == b
  {
    var rd := EveryStringReads(s);
    var k :| a == Lap(rd.Meaning(), k);
    var l :| b == Lap(rd.Meaning(), l);
  }

  /** atoi: the int that equals, in 32 bits, the integer the string stands for. */
  method Atoi(mem: array<Byte>, p: nat, ghost n: nat) returns (r: int)
    requires StringAt(mem[..], p, n)
    ensures FitsInt(r) && Congruent(r, Parsed(mem[..][p..p + n]))
    ensures ReadAs(mem[..][p..p + n], r)
  {
    assert mem[..][p..p + n] == mem[p..p + n] && mem[..][p + n] == mem[p + n];
    var q := SkipBlanks(mem, p, n);
    var negative := mem[q] == 45;
    ghost var b := mem[q..p + n];
    if negative || mem[q] == 43 {
      assert b[1..] == mem[q + 1..p + n];
      q := q + 1;
    }
    var num := ReadDigits(mem, q, p + n - q);
    if negative {
      r := WrapInt(num * -1);
      CongruentDigit(num, -Parsed(b), 0);
      CongruentTrans(r, -num, Parsed(b));
    } else {
      r := num;
    }
    assert Body(b) == b;
    ReadsParsed(mem[..][p..p + n], r);
  }

  lemma {:induction false} LeadingAll(s: seq<Byte>)
    requires AreDigits(s, 10)
    ensures Leading(s) == s
  {
    if s != [] {
      LeadingAll(s[1..]);
    }
  }

  lemma NumeralParsed(u: nat)
    ensures Parsed(Numeral(u, 10)) == u
  {
    NumeralMeans(u, 10);
    LeadingAll(Numeral(u, 10));
  }

  /** atoi undoes itoa in base 10 for every int, negative ones included, exactly unless the length is 1 and the
      int is no digit. */
  method RoundTrip(value: int, mem: array<Byte>, p: nat, len: nat) returns (err: int, back: int)
    requires FitsInt(value) && p + Room(len) <= mem.Length
    modifies mem
    ensures err == 0 ==> (back == value <==> len != 1 || 0 <= value < 10)
    ensures len > 10 ==> err == 0
  {
    back := 0;
    err := Itoa(value, mem, p, len, 10);
    ghost var u := Unsigned(value);
    if err == 0 {
      if len == 1 {
        LastDigit(u);
        NumeralParsed(u % 10);
        back := Atoi(mem, p, 1);
        CongruentInts(back, u % 10);
      } else {
        NumeralParsed(u);
        back := Atoi(mem, p, |Numeral(u, 10)|);
        assert u == Lap(value, if value < 0 then 1 else 0);
        CongruentTrans(back, u, value);
        CongruentInts(back, value);
      }
    } else if len > 10 {
      TenDigits(u);
    }
  }

  lemma LastDigit(u: nat)
    ensures Stored(Numeral(u, 10), 1) == Numeral(u % 10, 10) && |Numeral(u % 10, 10)| == 1
  {
  }

  lemma {:induction false} DigitCount(v: nat, k: nat)
    requires 1 <= k && v < Ten(k)
    ensures |Numeral(v, 10)| <= k
    decreases k
  {
    if v >= 10 {
      DigitCount(v / 10, k - 1);
    }
  }

  function Ten(k: nat): nat { if k == 0 then 1 else 10 * Ten(k - 1) }

  lemma TenDigits(u: nat)
    requires u < WORDS
    ensures |Numeral(u, 10)| <= 10
  {
    assert Ten(10) == 10000000000;
    DigitCount(u, 10);
  }
}
