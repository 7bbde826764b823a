/** The chunk list that the headers of libc/src/malloc.c describe, and the first-fit walk over it. */
module Chunks {
  import opened Common

  const HEADER := 4

  /** A chunk covers its own four-byte header and the payload behind it. */
  datatype Chunk = Chunk(start: nat, size: nat, free: bool) {
    function End(): nat { start + size }

    function Word(): nat { 2 * size + if free then 1 else 0 }
  }

  /** The chunks cover lo..hi without gaps or overlaps, and each has room for its header. */
  ghost predicate Tiled(cs: seq<Chunk>, lo: nat, hi: nat) {
    && (cs == [] ==> lo == hi)
    && (cs != [] ==> cs[0].start == lo && cs[|cs| - 1].End() == hi)
    && (forall k :: 0 <= k < |cs| ==> cs[k].size >= HEADER)
    && (forall k :: 0 < k < |cs| ==> cs[k].start == cs[k - 1].End())
  }

  lemma {:induction false} Ordered(cs: seq<Chunk>, lo: nat, hi: nat, i: nat, j: nat)
    requires Tiled(cs, lo, hi) && i < j < |cs|
    ensures cs[i].End() <= cs[j].start
    decreases j
  {
    if i < j - 1 {
      Ordered(cs, lo, hi, i, j - 1);
    }
  }

  lemma {:induction false} Bounds(cs: seq<Chunk>, lo: nat, hi: nat, i: nat)
    requires Tiled(cs, lo, hi) && i < |cs|
    ensures lo <= cs[i].start && cs[i].End() <= hi
  {
    if i > 0 {
      Ordered(cs, lo, hi, 0, i);
    }
    if i < |cs| - 1 {
      Ordered(cs, lo, hi, i, |cs| - 1);
    }
  }

  lemma TiledTail(cs: seq<Chunk>, lo: nat, hi: nat)
    requires Tiled(cs, lo, hi) && cs != []
    ensures Tiled(cs[1..], cs[0].End(), hi)
    ensures cs[0].End() <= hi
  {
    Bounds(cs, lo, hi, 0);
    var t := cs[1..];
    if t != [] {
      assert t[0] == cs[1] && t[|t| - 1] == cs[|cs| - 1];
    }
  }

  lemma TiledCons(c: Chunk, t: seq<Chunk>, hi: nat)
    requires c.size >= HEADER && Tiled(t, c.End(), hi)
    ensures Tiled([c] + t, c.start, hi)
  {
    var cs := [c] + t;
    forall k | 0 < k < |cs|
      ensures cs[k].start == cs[k - 1].End()
    {
      assert cs[k] == t[k - 1];
      if k > 1 {
        assert cs[k - 1] == t[k - 2];
      }
    }
  }

  /** Byte b belongs to a free chunk. */
  ghost predicate FreeByte(cs: seq<Chunk>, b: int) {
    cs != [] && ((cs[0].free && cs[0].start <= b < cs[0].End()) || FreeByte(cs[1..], b))
  }

  lemma {:induction false} FreeByteAt(cs: seq<Chunk>, b: int)
    ensures FreeByte(cs, b) <==> exists k :: 0 <= k < |cs| && cs[k].free && cs[k].start <= b < cs[k].End()
  {
    if cs != [] {
      var t := cs[1..];
      FreeByteAt(t, b);
      if k :| 0 <= k < |t| && t[k].free && t[k].start <= b < t[k].End() {
        assert cs[k + 1] == t[k];
      }
      if k :| 0 <= k < |cs| && cs[k].free && cs[k].start <= b < cs[k].End() {
        assert k > 0 ==> t[k - 1] == cs[k];
      }
    }
  }

  /** The bytes a, ..., a + need all belong to free chunks: one byte more than the request needs. */
  ghost predicate Window(cs: seq<Chunk>, a: int, need: nat) {
    forall b :: a <= b <= a + need ==> FreeByte(cs, b)
  }

  lemma FreeByteCons(c: Chunk, t: seq<Chunk>, b: int)
    ensures FreeByte([c] + t, b) <==> (c.free && c.start <= b < c.End()) || FreeByte(t, b)
  {
    assert ([c] + t)[1..] == t;
  }

  /** __malloc_concat_free_chunks: the first chunk absorbs the free chunks right behind it. */
  function MergeHead(cs: seq<Chunk>): (r: seq<Chunk>)
    requires cs != [] && cs[0].free
    ensures r != [] && r[0].free && |r| <= |cs|
    decreases |cs|
  {
    if |cs| > 1 && cs[1].free then
      MergeHead([Merged(cs[0], cs[1])] + cs[2..])
    else cs
  }

  /** The total size of the chunks in use. */
  function LiveTotal(cs: seq<Chunk>): nat {
    if cs == [] then 0 else (if cs[0].free then 0 else cs[0].size) + LiveTotal(cs[1..])
  }

  /** Two lists describe the same heap: same extent, same free bytes, same chunks in use. */
  ghost predicate Same(cs: seq<Chunk>, ds: seq<Chunk>, lo: nat, hi: nat) {
    && Tiled(cs, lo, hi) && Tiled(ds, lo, hi)
    && (forall b :: FreeByte(cs, b) <==> FreeByte(ds, b))
    && Live(cs) == Live(ds)
    && LiveTotal(cs) == LiveTotal(ds)
  }

  function Merged(c: Chunk, d: Chunk): Chunk { Chunk(c.start, c.size + d.size, true) }

  lemma MergeOnce(c: Chunk, d: Chunk, t: seq<Chunk>, lo: nat, hi: nat)
    requires Tiled([c, d] + t, lo, hi) && c.free && d.free
    ensures Same([c, d] + t, [Merged(c, d)] + t, lo, hi)
  {
    assert [c, d] + t == [c] + ([d] + t);
    MergePair(c, d, t, lo, hi);
  }

  lemma MergePair(c: Chunk, d: Chunk, t: seq<Chunk>, lo: nat, hi: nat)
    requires Tiled([c] + ([d] + t), lo, hi) && c.free && d.free
    ensures Same([c] + ([d] + t), [Merged(c, d)] + t, lo, hi)
  {
    var m := Merged(c, d);
    TiledTail([c] + ([d] + t), lo, hi);
    assert ([c] + ([d] + t))[1..] == [d] + t && ([d] + t)[1..] == t;
    TiledTail([d] + t, c.End(), hi);
    Cons(m, t, hi);
    Cons(d, t, hi);
    Cons(c, [d] + t, hi);
  }

  lemma {:induction false} MergeHeadKeeps(cs: seq<Chunk>, lo: nat, hi: nat)
    requires Tiled(cs, lo, hi) && cs != [] && cs[0].free
    ensures Same(cs, MergeHead(cs), lo, hi)
    ensures |MergeHead(cs)| > 1 ==> !MergeHead(cs)[1].free
    decreases |cs|
  {
    if |cs| > 1 && cs[1].free {
      assert cs == [cs[0], cs[1]] + cs[2..];
      MergeOnce(cs[0], cs[1], cs[2..], lo, hi);
      MergeHeadKeeps([Merged(cs[0], cs[1])] + cs[2..], lo, hi);
    }
  }

  /** The chunks in use. */
  ghost function Live(cs: seq<Chunk>): set<Chunk> {
    if cs == [] then {} else (if cs[0].free then {} else {cs[0]}) + Live(cs[1..])
  }

  lemma {:induction false} LiveAt(cs: seq<Chunk>, c: Chunk)
    ensures c in Live(cs) <==> exists k :: 0 <= k < |cs| && cs[k] == c && !c.free
  {
    if cs != [] {
      var t := cs[1..];
      LiveAt(t, c);
      if k :| 0 <= k < |t| && t[k] == c && !c.free {
        assert cs[k + 1] == t[k];
      }
      if k :| 0 <= k < |cs| && cs[k] == c && !c.free {
        assert k > 0 ==> t[k - 1] == cs[k];
      }
    }
  }

  lemma Cons(d: Chunk, t: seq<Chunk>, hi: nat)
    requires d.size >= HEADER && Tiled(t, d.End(), hi)
    ensures Tiled([d] + t, d.start, hi) && d.End() <= hi
    ensures forall b :: FreeByte([d] + t, b) <==> (d.free && d.start <= b < d.End()) || FreeByte(t, b)
    ensures Live([d] + t) == (if d.free then {} else {d}) + Live(t)
    ensures LiveTotal([d] + t) == (if d.free then 0 else d.size) + LiveTotal(t)
  {
    TiledCons(d, t, hi);
    Bounds([d] + t, d.start, hi, 0);
    assert ([d] + t)[1..] == t;
  }

  /** Lines 67-82: the found chunk is cut to the request, unless at most a header would be left over. */
  function Split(c: Chunk, need: nat): (r: seq<Chunk>)
    requires need < c.size
  {
    if c.size - need > HEADER then
      [Chunk(c.start, need, false), Chunk(c.start + need, c.size - need, true)]
    else [Chunk(c.start, c.size, false)]
  }

  /** The list after a request, the address granted and the bytes given on top of the request. */
  datatype Grant = Grant(chunks: seq<Chunk>, at: Option<nat>, extra: nat)

  /** The walk of malloc for a request of need bytes, header included. */
  function Alloc(cs: seq<Chunk>, need: nat): (g: Grant)
    decreases |cs|, 1
  {
    if cs == [] then Grant([], None, 0)
    else if cs[0].free then Fit(MergeHead(cs), need)
    else Behind(cs[0], Alloc(cs[1..], need))
  }

  /** The walk from a free chunk that has no free chunk behind it. */
  function Fit(m: seq<Chunk>, need: nat): (g: Grant)
    requires m != []
    decreases |m|, 0
  {
    if need < m[0].size then
      Grant(Split(m[0], need) + m[1..], Some(m[0].start), if m[0].size - need > HEADER then 0 else m[0].size - need)
    else Behind(m[0], Alloc(m[1..], need))
  }

  function Behind(c: Chunk, g: Grant): Grant { g.(chunks := [c] + g.chunks) }

  lemma FreeWithin(cs: seq<Chunk>, lo: nat, hi: nat, b: int)
    requires Tiled(cs, lo, hi) && FreeByte(cs, b)
    ensures lo <= b < hi
  {
    FreeByteAt(cs, b);
    var k :| 0 <= k < |cs| && cs[k].free && cs[k].start <= b < cs[k].End();
    Bounds(cs, lo, hi, k);
  }

  /** Behind a live first chunk, or behind nothing, the byte at lo is not free. */
  lemma FirstByteTaken(cs: seq<Chunk>, lo: nat, hi: nat)
    requires Tiled(cs, lo, hi) && (cs != [] ==> !cs[0].free)
    ensures !FreeByte(cs, lo)
  {
    if FreeByte(cs, lo) {
      FreeByteAt(cs, lo);
      var k :| 0 <= k < |cs| && cs[k].free && cs[k].start <= lo < cs[k].End();
      Ordered(cs, lo, hi, 0, k);
    }
  }

  /** Dropping a first chunk that is too small, or in use, loses no window. */
  lemma WindowTail(c: Chunk, t: seq<Chunk>, hi: nat, a: int, need: nat)
    requires c.size >= HEADER && Tiled(t, c.End(), hi)
    requires c.free ==> c.size <= need && (t != [] ==> !t[0].free)
    ensures Window([c] + t, a, need) <==> Window(t, a, need)
  {
    forall b
      ensures FreeByte([c] + t, b) <==> (c.free && c.start <= b < c.End()) || FreeByte(t, b)
    {
      FreeByteCons(c, t, b);
    }
    if Window([c] + t, a, need) && c.free && a < c.End() {
      assert FreeByte([c] + t, a);
      assert a < c.start ==> FreeByte(t, a);
      if a < c.start {
        FreeWithin(t, c.End(), hi, a);
      }
      assert FreeByte([c] + t, c.End());
      FirstByteTaken(t, c.End(), hi);
      assert false;
    }
  }

  /** The answer is right: no window of free bytes if there is none, otherwise the lowest start of one. */
  ghost predicate Lowest(cs: seq<Chunk>, at: Option<nat>, need: nat) {
    match at
    case None => forall a :: !Window(cs, a, need)
    case Some(p) => Window(cs, p, need) && forall a :: a < p ==> !Window(cs, a, need)
  }

  lemma LowestHere(m: seq<Chunk>, lo: nat, hi: nat, need: nat)
    requires Tiled(m, lo, hi) && m != [] && m[0].free && need < m[0].size
    ensures Lowest(m, Some(lo), need)
  {
    forall a | a < lo
      ensures !Window(m, a, need)
    {
      if FreeByte(m, a) { FreeWithin(m, lo, hi, a); }
    }
  }

  /** A request is met exactly when some window of free bytes is longer than it, and then at the lowest
      address where such a window starts. */
  lemma {:induction false} FirstFit(cs: seq<Chunk>, lo: nat, hi: nat, need: nat)
    requires Tiled(cs, lo, hi)
    ensures Lowest(cs, Alloc(cs, need).at, need)
    decreases |cs|, 1
  {
    if cs == [] {
      forall a
        ensures !Window(cs, a, need)
      {
        assert !FreeByte(cs, a);
      }
    } else if !cs[0].free {
      FirstFitTail(cs, lo, hi, need);
    } else {
      var m := MergeHead(cs);
      MergeHeadKeeps(cs, lo, hi);
      if need < m[0].size {
        LowestHere(m, lo, hi, need);
      } else {
        FirstFitTail(m, lo, hi, need);
      }
      SameLowest(cs, m, lo, hi, Fit(m, need).at, need);
    }
  }

  lemma SameLowest(cs: seq<Chunk>, ds: seq<Chunk>, lo: nat, hi: nat, at: Option<nat>, need: nat)
    requires Same(cs, ds, lo, hi) && Lowest(ds, at, need)
    ensures Lowest(cs, at, need)
  {
    forall a
      ensures Window(cs, a, need) <==> Window(ds, a, need)
    {
    }
  }

  lemma {:induction false} FirstFitTail(cs: seq<Chunk>, lo: nat, hi: nat, need: nat)
    requires Tiled(cs, lo, hi) && cs != []
    requires cs[0].free ==> cs[0].size <= need && (|cs| > 1 ==> !cs[1].free)
    ensures Lowest(cs, Alloc(cs[1..], need).at, need)
    decreases |cs|, 0
  {
    TiledTail(cs, lo, hi);
    FirstFit(cs[1..], cs[0].End(), hi, need);
    assert cs == [cs[0]] + cs[1..];
    forall a
      ensures Window(cs, a, need) <==> Window(cs[1..], a, need)
    {
      WindowTail(cs[0], cs[1..], hi, a, need);
    }
  }

  /** Bytes are given on top of the request exactly if no more than four free ones are left behind it, and then all of
      these. */
  ghost predicate FairExtra(cs: seq<Chunk>, g: Grant, need: nat) {
    g.at.Some? ==>
      && (g.extra == 0 <==> Window(cs, g.at.value, need + HEADER))
      && (g.extra > 0 ==> Window(cs, g.at.value, need + g.extra - 1) && !FreeByte(cs, g.at.value + need + g.extra))
  }

  lemma ExtraHere(m: seq<Chunk>, lo: nat, hi: nat, need: nat)
    requires Tiled(m, lo, hi) && m != [] && m[0].free && need < m[0].size && (|m| > 1 ==> !m[1].free)
    ensures FairExtra(m, Fit(m, need), need)
  {
    TiledTail(m, lo, hi);
    FirstByteTaken(m[1..], m[0].End(), hi);
    assert !FreeByte(m, m[0].End());
  }

  lemma ExtraTail(cs: seq<Chunk>, lo: nat, hi: nat, g: Grant, need: nat)
    requires Tiled(cs, lo, hi) && cs != [] && FairExtra(cs[1..], g, need)
    requires g.at.Some? ==> cs[0].End() <= g.at.value
    ensures FairExtra(cs, Behind(cs[0], g), need)
  {
    assert forall b :: cs[0].End() <= b ==> (FreeByte(cs, b) <==> FreeByte(cs[1..], b));
    if g.at.Some? {
      var a := g.at.value;
      assert Window(cs, a, need + HEADER) <==> Window(cs[1..], a, need + HEADER);
      assert g.extra > 0 ==> (Window(cs, a, need + g.extra - 1) <==> Window(cs[1..], a, need + g.extra - 1));
    }
  }

  lemma SameExtra(cs: seq<Chunk>, ds: seq<Chunk>, lo: nat, hi: nat, g: Grant, need: nat)
    requires Same(cs, ds, lo, hi) && FairExtra(ds, g, need)
    ensures FairExtra(cs, g, need)
  {
  }

  lemma {:induction false} ExtraExactly(cs: seq<Chunk>, lo: nat, hi: nat, need: nat)
    requires Tiled(cs, lo, hi)
    ensures FairExtra(cs, Alloc(cs, need), need)
    ensures Alloc(cs, need).at.Some? ==> lo <= Alloc(cs, need).at.value
    decreases |cs|, 1
  {
    if cs != [] {
      if cs[0].free {
        var m := MergeHead(cs);
        MergeHeadKeeps(cs, lo, hi);
        if need < m[0].size {
          ExtraHere(m, lo, hi, need);
        } else {
          ExtraBehind(m, lo, hi, need);
        }
        SameExtra(cs, m, lo, hi, Fit(m, need), need);
      } else {
        ExtraBehind(cs, lo, hi, need);
      }
    }
  }

  lemma {:induction false} ExtraBehind(cs: seq<Chunk>, lo: nat, hi: nat, need: nat)
    requires Tiled(cs, lo, hi) && cs != []
    ensures FairExtra(cs, Behind(cs[0], Alloc(cs[1..], need)), need)
    ensures Alloc(cs[1..], need).at.Some? ==> lo <= Alloc(cs[1..], need).at.value
    decreases |cs|, 0
  {
    TiledTail(cs, lo, hi);
    ExtraExactly(cs[1..], cs[0].End(), hi, need);
    ExtraTail(cs, lo, hi, Alloc(cs[1..], need), need);
  }

  /** The granted chunk. */
  function Granted(g: Grant, need: nat): Chunk
    requires g.at.Some?
  {
    Chunk(g.at.value, need + g.extra, false)
  }

  /** Chunk c goes into use: exactly its bytes leave the free ones, exactly it joins those in use. */
  ghost predicate Takes(cs: seq<Chunk>, ds: seq<Chunk>, c: Chunk, lo: nat, hi: nat) {
    && Tiled(cs, lo, hi) && Tiled(ds, lo, hi)
    && lo <= c.start && c.End() <= hi
    && (forall b :: c.start <= b < c.End() ==> FreeByte(cs, b))
    && (forall b :: FreeByte(ds, b) <==> FreeByte(cs, b) && !(c.start <= b < c.End()))
    && Live(ds) == Live(cs) + {c}
    && LiveTotal(ds) == LiveTotal(cs) + c.size
  }

  /** What a request does: nothing that can be seen if it fails, and otherwise it takes the granted chunk. */
  ghost predicate Served(cs: seq<Chunk>, g: Grant, lo: nat, hi: nat, need: nat) {
    match g.at
    case None => Same(cs, g.chunks, lo, hi) && g.extra == 0
    case Some(_) => Takes(cs, g.chunks, Granted(g, need), lo, hi) && g.extra <= HEADER
  }

  lemma {:induction false} LiveWithin(cs: seq<Chunk>, lo: nat, hi: nat, c: Chunk)
    requires Tiled(cs, lo, hi) && c in Live(cs)
    ensures lo <= c.start && c.End() <= hi && c.size >= HEADER
    ensures forall b :: c.start <= b < c.End() ==> !FreeByte(cs, b)
  {
    LiveAt(cs, c);
    var k :| 0 <= k < |cs| && cs[k] == c;
    Bounds(cs, lo, hi, k);
    forall b | c.start <= b < c.End()
      ensures !FreeByte(cs, b)
    {
      FreeByteAt(cs, b);
      if l :| 0 <= l < |cs| && cs[l].free && cs[l].start <= b < cs[l].End() {
        if k < l { Ordered(cs, lo, hi, k, l); } else { Ordered(cs, lo, hi, l, k); }
      }
    }
  }

  lemma BelowTail(t: seq<Chunk>, lo: nat, hi: nat)
    requires Tiled(t, lo, hi)
    ensures forall b :: b < lo ==> !FreeByte(t, b)
  {
    forall b | b < lo
      ensures !FreeByte(t, b)
    {
      if FreeByte(t, b) { FreeWithin(t, lo, hi, b); }
    }
  }

  lemma WholeTakes(m: Chunk, t: seq<Chunk>, hi: nat)
    requires m.free && m.size >= HEADER && Tiled(t, m.End(), hi)
    ensures Takes([m] + t, [m.(free := false)] + t, m.(free := false), m.start, hi)
  {
    Cons(m, t, hi);
    Cons(m.(free := false), t, hi);
    BelowTail(t, m.End(), hi);
  }

  lemma CutTakes(m: Chunk, c: Chunk, d: Chunk, t: seq<Chunk>, hi: nat)
    requires m.free && Tiled(t, m.End(), hi)
    requires c == Chunk(m.start, c.size, false) && d == Chunk(c.End(), d.size, true) && d.End() == m.End()
    requires c.size >= HEADER && d.size >= HEADER
    ensures Takes([m] + t, [c] + ([d] + t), c, m.start, hi)
  {
    Cons(m, t, hi);
    Cons(d, t, hi);
    Cons(c, [d] + t, hi);
    BelowTail(t, m.End(), hi);
  }

  lemma FitHere(m: Chunk, t: seq<Chunk>, need: nat)
    requires m.free && need < m.size
    ensures Fit([m] + t, need).at == Some(m.start)
    ensures m.size - need <= HEADER ==>
      Fit([m] + t, need).chunks == [m.(free := false)] + t && Fit([m] + t, need).extra == m.size - need
    ensures m.size - need > HEADER ==>
      Fit([m] + t, need).chunks == [Chunk(m.start, need, false)] + ([Chunk(m.start + need, m.size - need, true)] + t)
      && Fit([m] + t, need).extra == 0
  {
    assert ([m] + t)[1..] == t;
  }

  lemma SplitServes(m: Chunk, t: seq<Chunk>, hi: nat, need: nat)
    requires m.free && HEADER <= need < m.size && Tiled(t, m.End(), hi)
    ensures Served([m] + t, Fit([m] + t, need), m.start, hi, need)
  {
    FitHere(m, t, need);
    if m.size - need > HEADER {
      var c, d := Chunk(m.start, need, false), Chunk(m.start + need, m.size - need, true);
      CutTakes(m, c, d, t, hi);
      TakesServes([m] + t, Fit([m] + t, need), [c] + ([d] + t), c, m.start, hi, need);
    } else {
      WholeTakes(m, t, hi);
      TakesServes([m] + t, Fit([m] + t, need), [m.(free := false)] + t, m.(free := false), m.start, hi, need);
    }
  }

  lemma TakesServes(cs: seq<Chunk>, g: Grant, ds: seq<Chunk>, c: Chunk, lo: nat, hi: nat, need: nat)
    requires Takes(cs, ds, c, lo, hi)
    requires g.chunks == ds && g.at.Some? && Granted(g, need) == c && g.extra <= HEADER
    ensures Served(cs, g, lo, hi, need)
  {
  }

  lemma SameCons(d: Chunk, t: seq<Chunk>, u: seq<Chunk>, hi: nat)
    requires d.size >= HEADER && Same(t, u, d.End(), hi)
    ensures Same([d] + t, [d] + u, d.start, hi)
  {
    Cons(d, t, hi);
    Cons(d, u, hi);
  }

  lemma TakesCons(d: Chunk, t: seq<Chunk>, u: seq<Chunk>, c: Chunk, hi: nat)
    requires d.size >= HEADER && Takes(t, u, c, d.End(), hi)
    ensures Takes([d] + t, [d] + u, c, d.start, hi)
  {
    Cons(d, t, hi);
    Cons(d, u, hi);
  }

  lemma ServedAfterMerge(cs: seq<Chunk>, m: seq<Chunk>, g: Grant, lo: nat, hi: nat, need: nat)
    requires Same(cs, m, lo, hi) && Served(m, g, lo, hi, need)
    ensures Served(cs, g, lo, hi, need)
  {
  }

  lemma ServedCons(d: Chunk, t: seq<Chunk>, g: Grant, hi: nat, need: nat)
    requires d.size >= HEADER && Served(t, g, d.End(), hi, need)
    ensures Served([d] + t, Behind(d, g), d.start, hi, need)
  {
    match g.at
    case None => SameCons(d, t, g.chunks, hi);
    case Some(_) => TakesCons(d, t, g.chunks, Granted(g, need), hi);
  }

  lemma {:induction false} AllocServes(cs: seq<Chunk>, lo: nat, hi: nat, need: nat)
    requires Tiled(cs, lo, hi) && need >= HEADER
    ensures Served(cs, Alloc(cs, need), lo, hi, need)
    decreases |cs|, 1
  {
    if cs == [] {
    } else if !cs[0].free {
      TailServes(cs, lo, hi, need);
    } else {
      var m := MergeHead(cs);
      MergeHeadKeeps(cs, lo, hi);
      if need < m[0].size {
        TiledTail(m, lo, hi);
        SplitServes(m[0], m[1..], hi, need);
        assert m == [m[0]] + m[1..];
      } else {
        TailServes(m, lo, hi, need);
      }
      ServedAfterMerge(cs, m, Fit(m, need), lo, hi, need);
    }
  }

  lemma {:induction false} TailServes(cs: seq<Chunk>, lo: nat, hi: nat, need: nat)
    requires Tiled(cs, lo, hi) && cs != [] && need >= HEADER
    ensures Served(cs, Behind(cs[0], Alloc(cs[1..], need)), lo, hi, need)
    decreases |cs|, 0
  {
    TiledTail(cs, lo, hi);
    AllocServes(cs[1..], cs[0].End(), hi, need);
    ServedCons(cs[0], cs[1..], Alloc(cs[1..], need), hi, need);
    assert cs == [cs[0]] + cs[1..];
  }

  // ------------------------------------------------------------------ the walk from chunk k on

  /** The outcome of a walk that left the chunks before alone. */
  function After(a: seq<Chunk>, g: Grant): Grant { g.(chunks := a + g.chunks) }

  /** What the walk will do from chunk k on. */
  function Rest(cs: seq<Chunk>, k: nat, need: nat): Grant
    requires k <= |cs|
  {
    After(cs[..k], Alloc(cs[k..], need))
  }

  lemma {:induction false} SkipLive(cs: seq<Chunk>, k: nat, l: nat, need: nat)
    requires k <= l <= |cs| && forall m :: k <= m < l ==> !cs[m].free
    ensures Rest(cs, k, need) == Rest(cs, l, need)
    decreases l - k
  {
    if k < l {
      var g := Alloc(cs[k + 1..], need);
      assert cs[k..][1..] == cs[k + 1..];
      assert cs[..k] + ([cs[k]] + g.chunks) == cs[..k + 1] + g.chunks;
      SkipLive(cs, k + 1, l, need);
    }
  }

  lemma SkipSmall(cs: seq<Chunk>, k: nat, need: nat)
    requires k < |cs| && cs[k].size <= need
    ensures After(cs[..k], Fit(cs[k..], need)) == Rest(cs, k + 1, need)
  {
    var g := Alloc(cs[k + 1..], need);
    assert cs[k..][1..] == cs[k + 1..];
    assert cs[..k] + ([cs[k]] + g.chunks) == cs[..k + 1] + g.chunks;
  }

  lemma TakeHere(cs: seq<Chunk>, k: nat, need: nat)
    requires k < |cs| && need < cs[k].size
    ensures After(cs[..k], Fit(cs[k..], need)) ==
      Grant(cs[..k] + Split(cs[k], need) + cs[k + 1..], Some(cs[k].start), if cs[k].size - need > HEADER then 0 else cs[k].size - need)
  {
    assert cs[k..][1..] == cs[k + 1..];
    assert cs[..k] + (Split(cs[k], need) + cs[k + 1..]) == cs[..k] + Split(cs[k], need) + cs[k + 1..];
  }

  lemma {:induction false} SameBehind(a: seq<Chunk>, t: seq<Chunk>, u: seq<Chunk>, lo: nat, mid: nat, hi: nat)
    requires Tiled(a, lo, mid) && Same(t, u, mid, hi)
    ensures Same(a + t, a + u, lo, hi)
    decreases |a|
  {
    if a == [] {
      assert a + t == t && a + u == u;
    } else {
      TiledTail(a, lo, mid);
      SameBehind(a[1..], t, u, a[0].End(), mid, hi);
      SameCons(a[0], a[1..] + t, a[1..] + u, hi);
      HeadFirst(a, t);
      HeadFirst(a, u);
    }
  }

  lemma HeadFirst(a: seq<Chunk>, t: seq<Chunk>)
    requires a != []
    ensures [a[0]] + (a[1..] + t) == a + t
  {
  }

  /** The list after coalescing at chunk k. */
  ghost function Coalesced(cs: seq<Chunk>, k: nat): seq<Chunk>
    requires k <= |cs|
  {
    if k < |cs| && cs[k].free then cs[..k] + MergeHead(cs[k..]) else cs
  }

  lemma TiledSplit(cs: seq<Chunk>, lo: nat, hi: nat, k: nat)
    requires Tiled(cs, lo, hi) && k < |cs|
    ensures Tiled(cs[..k], lo, cs[k].start) && Tiled(cs[k..], cs[k].start, hi)
  {
    Bounds(cs, lo, hi, k);
  }

  /** Coalescing at k changes nothing that can be seen, and nothing before k; the walk goes on from it. */
  lemma CoalescedKeeps(cs: seq<Chunk>, lo: nat, hi: nat, k: nat, need: nat)
    requires Tiled(cs, lo, hi) && k < |cs| && cs[k].free
    ensures Same(cs, Coalesced(cs, k), lo, hi)
    ensures k < |Coalesced(cs, k)| && Coalesced(cs, k)[k].free && Coalesced(cs, k)[k].start == cs[k].start
    ensures Rest(cs, k, need) == After(Coalesced(cs, k)[..k], Fit(Coalesced(cs, k)[k..], need))
  {
    TiledSplit(cs, lo, hi, k);
    MergeHeadKeeps(cs[k..], cs[k].start, hi);
    SameBehind(cs[..k], cs[k..], MergeHead(cs[k..]), lo, cs[k].start, hi);
    assert cs == cs[..k] + cs[k..];
    var ds := Coalesced(cs, k);
    assert ds[..k] == cs[..k] && ds[k..] == MergeHead(cs[k..]);
  }

  // ------------------------------------------------------------------ free

  /** free: chunk c is marked free and nothing is merged. */
  function Release(cs: seq<Chunk>, c: Chunk): seq<Chunk> {
    if cs == [] then []
    else if cs[0] == c then [c.(free := true)] + cs[1..]
    else [cs[0]] + Release(cs[1..], c)
  }

  /** Freeing is the exact inverse of taking. */
  lemma {:induction false} ReleaseUndoes(cs: seq<Chunk>, lo: nat, hi: nat, c: Chunk)
    requires Tiled(cs, lo, hi) && c in Live(cs)
    ensures Takes(Release(cs, c), cs, c, lo, hi)
    decreases |cs|
  {
    TiledTail(cs, lo, hi);
    assert cs == [cs[0]] + cs[1..];
    if cs[0] == c {
      LiveAt(cs, c);
      WholeTakes(c.(free := true), cs[1..], hi);
    } else {
      ReleaseUndoes(cs[1..], cs[0].End(), hi, c);
      TakesCons(cs[0], Release(cs[1..], c), cs[1..], c, hi);
    }
  }

  lemma {:induction false} ReleaseAt(cs: seq<Chunk>, lo: nat, hi: nat, k: nat)
    requires Tiled(cs, lo, hi) && k < |cs| && !cs[k].free
    ensures cs[k] in Live(cs)
    ensures Release(cs, cs[k]) == cs[k := cs[k].(free := true)]
    decreases k
  {
    LiveAt(cs, cs[k]);
    if k > 0 {
      Ordered(cs, lo, hi, 0, k);
      TiledTail(cs, lo, hi);
      ReleaseAt(cs[1..], cs[0].End(), hi, k - 1);
      assert cs[k := cs[k].(free := true)] == [cs[0]] + cs[1..][k - 1 := cs[k].(free := true)];
    }
  }

  /** A chunk that was taken was not in use before. */
  lemma TakenWasFree(cs: seq<Chunk>, ds: seq<Chunk>, c: Chunk, lo: nat, hi: nat)
    requires Takes(cs, ds, c, lo, hi) && c.size >= HEADER
    ensures c !in Live(cs)
  {
    assert FreeByte(cs, c.start);
    if c in Live(cs) {
      LiveWithin(cs, lo, hi, c);
    }
  }

  lemma {:induction false} LiveDisjoint(cs: seq<Chunk>, lo: nat, hi: nat, c: Chunk, d: Chunk)
    requires Tiled(cs, lo, hi) && c in Live(cs) && d in Live(cs) && c != d
    ensures c.End() <= d.start || d.End() <= c.start
  {
    LiveAt(cs, c);
    LiveAt(cs, d);
    var k :| 0 <= k < |cs| && cs[k] == c;
    var l :| 0 <= l < |cs| && cs[l] == d;
    if k < l { Ordered(cs, lo, hi, k, l); } else { Ordered(cs, lo, hi, l, k); }
  }

  /** Every byte is free or belongs to a chunk in use. */
  lemma {:induction false} EveryByteOwned(cs: seq<Chunk>, lo: nat, hi: nat, b: int)
    requires Tiled(cs, lo, hi) && lo <= b < hi
    ensures FreeByte(cs, b) || exists c :: c in Live(cs) && c.start <= b < c.End()
    decreases |cs|
  {
    TiledTail(cs, lo, hi);
    if b >= cs[0].End() {
      EveryByteOwned(cs[1..], cs[0].End(), hi, b);
    } else if !cs[0].free {
      assert cs[0] in Live(cs);
    }
  }

  /** Once everything has been freed, every request smaller than the heap is met at its beginning, however
      the heap was cut up before. */
  lemma {:induction false} EmptyHeapServes(cs: seq<Chunk>, hi: nat, need: nat)
    requires Tiled(cs, 0, hi) && Live(cs) == {} && need < hi
    ensures Alloc(cs, need).at == Some(0)
  {
    FirstFit(cs, 0, hi, need);
    forall b | 0 <= b <= need
      ensures FreeByte(cs, b)
    {
      EveryByteOwned(cs, 0, hi, b);
    }
    assert Window(cs, 0, need);
  }
}
