/** libc/src/malloc.c: the heap as bytes, with each chunk's header in its first four of them. */
module Heap {
  import opened Chunks
  import opened Common

  const HEAP_SIZE := 0xE00000  // STACK_ADDRESS - HEAP_ADDRESS
  const SIZES := 0x8000_0000

  /** The little-endian number in the n bytes from p on. */
  function Number(mem: seq<Byte>, p: nat, n: nat): nat
    requires p + n <= |mem|
    decreases n, p
  {
    if n == 0 then 0 else mem[p] as int + 256 * Number(mem, p + 1, n - 1)
  }

  lemma {:induction false} NumberKept(a: seq<Byte>, b: seq<Byte>, p: nat, n: nat)
    requires p + n <= |a| == |b|
    requires forall k :: p <= k < p + n ==> a[k] == b[k]
    ensures Number(a, p, n) == Number(b, p, n)
    decreases n
  {
    if n > 0 {
      NumberKept(a, b, p + 1, n - 1);
    }
  }

  function Power256(n: nat): nat { if n == 0 then 1 else 256 * Power256(n - 1) }

  /** The header word at p: bit 0 is is_free, the other 31 are size. */
  function Word(mem: seq<Byte>, p: nat): nat
    requires p + HEADER <= |mem|
  {
    Number(mem, p, HEADER)
  }

  predicate IsFree(mem: seq<Byte>, p: nat)
    requires p + HEADER <= |mem|
  {
    Word(mem, p) % 2 == 1
  }

  function SizeAt(mem: seq<Byte>, p: nat): nat
    requires p + HEADER <= |mem|
  {
    Word(mem, p) / 2
  }

  ghost predicate Describes(mem: seq<Byte>, c: Chunk) {
    c.start + HEADER <= |mem| && Word(mem, c.start) == c.Word()
  }

  ghost predicate Described(mem: seq<Byte>, cs: seq<Chunk>) {
    forall k :: 0 <= k < |cs| ==> Describes(mem, cs[k])
  }

  /** The bytes of a and b agree outside lo..hi. */
  ghost predicate AgreeOutside(a: seq<Byte>, b: seq<Byte>, lo: nat, hi: nat) {
    |a| == |b| && forall k :: 0 <= k < |a| && !(lo <= k < hi) ==> a[k] == b[k]
  }

  lemma DescribesKept(a: seq<Byte>, b: seq<Byte>, lo: nat, hi: nat, c: Chunk)
    requires AgreeOutside(a, b, lo, hi) && (c.start + HEADER <= lo || hi <= c.start) && Describes(a, c)
    ensures Describes(b, c)
  {
    NumberKept(a, b, c.start, HEADER);
  }

  lemma DescribesFields(mem: seq<Byte>, c: Chunk)
    requires c.start + HEADER <= |mem|
    ensures Describes(mem, c) <==> IsFree(mem, c.start) == c.free && SizeAt(mem, c.start) == c.size
  {
  }

  /** Writing inside the header of chunk k leaves every other header alone. */
  lemma OtherHeaders(a: seq<Byte>, b: seq<Byte>, cs: seq<Chunk>, k: nat)
    requires Tiled(cs, 0, HEAP_SIZE) && k < |cs| && Described(a, cs)
    requires AgreeOutside(a, b, cs[k].start, cs[k].start + HEADER)
    ensures forall j :: 0 <= j < |cs| && j != k ==> Describes(b, cs[j])
  {
    forall j | 0 <= j < |cs| && j != k
      ensures Describes(b, cs[j])
    {
      if j < k { Ordered(cs, 0, HEAP_SIZE, j, k); } else { Ordered(cs, 0, HEAP_SIZE, k, j); }
      DescribesKept(a, b, cs[k].start, cs[k].start + HEADER, cs[j]);
    }
  }

  method WriteNumber(mem: array<Byte>, p: nat, n: nat, w: nat)
    requires p + n <= mem.Length && w < Power256(n)
    modifies mem
    ensures Number(mem[..], p, n) == w
    ensures AgreeOutside(old(mem[..]), mem[..], p, p + n)
    decreases n
  {
    if n > 0 {
      mem[p] := w % 256;
      WriteNumber(mem, p + 1, n - 1, w / 256);
      assert mem[..][p] == w % 256;
    }
  }

  /** The size bit-field is assigned; bits above its 31 are lost. */
  method SetSize(mem: array<Byte>, p: nat, size: nat)
    requires p + HEADER <= mem.Length
    modifies mem
    ensures SizeAt(mem[..], p) == size % SIZES && IsFree(mem[..], p) == old(IsFree(mem[..], p))
    ensures AgreeOutside(old(mem[..]), mem[..], p, p + HEADER)
  {
    var w := 2 * (size % SIZES) + if IsFree(mem[..], p) then 1 else 0;
    assert w < Power256(HEADER);
    WriteNumber(mem, p, HEADER, w);
  }

  /** The is_free bit is assigned. */
  method SetFree(mem: array<Byte>, p: nat, free: bool)
    requires p + HEADER <= mem.Length
    modifies mem
    ensures IsFree(mem[..], p) == free && SizeAt(mem[..], p) == old(SizeAt(mem[..], p))
    ensures AgreeOutside(old(mem[..]), mem[..], p, p + 1)
  {
    ghost var was := mem[..];
    mem[p] := mem[p] - mem[p] % 2 + if free then 1 else 0;
    NumberKept(was, mem[..], p + 1, HEADER - 1);
  }

  /** Line 47: the header at p grows by the size found at c. */
  method Enlarge(mem: array<Byte>, p: nat, c: nat, ghost a: Chunk, ghost b: Chunk) returns (s: nat)
    requires Describes(mem[..], a) && Describes(mem[..], b) && p == a.start && c == b.start
    requires a.free && a.size + b.size < SIZES
    modifies mem
    ensures s == b.size && Describes(mem[..], Merged(a, b))
    ensures AgreeOutside(old(mem[..]), mem[..], p, p + HEADER)
  {
    DescribesFields(mem[..], a);
    DescribesFields(mem[..], b);
    s := SizeAt(mem[..], c);
    SetSize(mem, p, SizeAt(mem[..], p) + s);
    DescribesFields(mem[..], Merged(a, b));
  }

  /** The chunks of a fresh heap. */
  const FRESH := [Chunk(0, HEAP_SIZE, true)]

  // ------------------------------------------------------------------ steps of the walk

  /** The address of chunk k, or the end of the heap behind the last one. */
  ghost function StartOf(cs: seq<Chunk>, k: nat): nat
    requires k <= |cs|
  {
    if k < |cs| then cs[k].start else HEAP_SIZE
  }

  lemma StartBounds(cs: seq<Chunk>, k: nat)
    requires Tiled(cs, 0, HEAP_SIZE) && k <= |cs|
    ensures k < |cs| ==> cs[k].start + cs[k].size <= HEAP_SIZE && HEADER <= cs[k].size && cs[k].End() == StartOf(cs, k + 1)
    ensures StartOf(cs, k) < HEAP_SIZE <==> k < |cs|
  {
    if k < |cs| {
      Bounds(cs, 0, HEAP_SIZE, k);
    }
  }

  ghost function MergedAt(cs: seq<Chunk>, k: nat): seq<Chunk>
    requires k + 1 < |cs|
  {
    cs[..k] + [Merged(cs[k], cs[k + 1])] + cs[k + 2..]
  }

  lemma CoalescedStep(cs: seq<Chunk>, k: nat)
    requires k + 1 < |cs| && cs[k].free && cs[k + 1].free
    ensures Coalesced(MergedAt(cs, k), k) == Coalesced(cs, k)
  {
    var ds := MergedAt(cs, k);
    assert cs[k..][2..] == cs[k + 2..];
    assert ds[k..] == [Merged(cs[k], cs[k + 1])] + cs[k + 2..];
    assert ds[..k] == cs[..k];
  }

  lemma CoalescedDone(cs: seq<Chunk>, k: nat)
    requires k < |cs| && (k + 1 < |cs| ==> !cs[k + 1].free)
    ensures Coalesced(cs, k) == cs
  {
    assert cs == cs[..k] + cs[k..];
  }

  /** Two free neighbours become one chunk. */
  lemma MergeInside(cs: seq<Chunk>, k: nat)
    requires Tiled(cs, 0, HEAP_SIZE) && k + 1 < |cs|
    ensures Tiled(MergedAt(cs, k), 0, HEAP_SIZE)
  {
    var ds := MergedAt(cs, k);
    assert forall j :: k < j < |ds| ==> ds[j] == cs[j + 1];
    assert ds[|ds| - 1].End() == HEAP_SIZE;
  }

  lemma DescribedMerged(mem: seq<Byte>, cs: seq<Chunk>, k: nat)
    requires k + 1 < |cs| && Describes(mem, Merged(cs[k], cs[k + 1]))
    requires forall j :: 0 <= j < |cs| && j != k ==> Describes(mem, cs[j])
    ensures Described(mem, MergedAt(cs, k))
  {
    var ds := MergedAt(cs, k);
    forall j | 0 <= j < |ds|
      ensures Describes(mem, ds[j])
    {
      assert ds[j] == if j < k then cs[j] else if j == k then Merged(cs[k], cs[k + 1]) else cs[j + 1];
    }
  }

  /** Both bit-fields of a header are assigned. */
  method WriteHeader(mem: array<Byte>, p: nat, free: bool, size: nat)
    requires p + HEADER <= mem.Length && size < SIZES
    modifies mem
    ensures Describes(mem[..], Chunk(p, size, free))
    ensures AgreeOutside(old(mem[..]), mem[..], p, p + HEADER)
  {
    SetFree(mem, p, free);
    SetSize(mem, p, size);
    DescribesFields(mem[..], Chunk(p, size, free));
  }

  /** A size below HEADER was written at p, and then the header of the rest over its last bytes. */
  ghost predicate Torn(m: seq<Byte>, p: nat, size: nat, rest: nat) {
    p < |m| && m[p] == 2 * size && (rest > HEADER ==> Describes(m, Chunk(p + size, rest, true)))
  }

  lemma LowByte(m: seq<Byte>, p: nat, size: nat)
    requires Describes(m, Chunk(p, size, false)) && size < HEADER
    ensures m[p] == 2 * size
  {
    assert Number(m, p, HEADER) == m[p] as int + 256 * Number(m, p + 1, HEADER - 1);
  }

  /** Lines 66-82: the free chunk c is cut to size bytes. A size below HEADER, which only a request that
      wraps around can ask for, still writes no byte outside the chunk, but destroys its header. */
  method Cut(mem: array<Byte>, p: nat, size: nat, ghost c: Chunk) returns (extra: nat)
    requires Describes(mem[..], c) && p == c.start && c.End() <= mem.Length && 0 < size < c.size < SIZES && c.size >= HEADER
    modifies mem
    ensures extra == if c.size - size > HEADER then 0 else c.size - size
    ensures size >= HEADER ==> Described(mem[..], Split(c, size))
    ensures size < HEADER && c.size > 2 * HEADER ==> Torn(mem[..], p, size, c.size - size)
    ensures AgreeOutside(old(mem[..]), mem[..], p, c.End())
  {
    DescribesFields(mem[..], c);
    var next := SizeAt(mem[..], p) - size;
    WriteHeader(mem, p, false, size);
    ghost var before := mem[..];
    if size < HEADER {
      LowByte(before, p, size);
    }
    if next > HEADER {
      WriteHeader(mem, p + size, true, next);
      if size >= HEADER {
        DescribesKept(before, mem[..], p + size, p + size + HEADER, Chunk(p, size, false));
      }
      extra := 0;
    } else {
      WriteHeader(mem, p, false, size + next);
      extra := next;
    }
  }

  /** Only the bytes of chunk k changed, so all other headers are still there. */
  lemma OtherChunks(a: seq<Byte>, b: seq<Byte>, cs: seq<Chunk>, k: nat, n: seq<Chunk>)
    requires Tiled(cs, 0, HEAP_SIZE) && k < |cs| && Described(a, cs) && Described(b, n)
    requires AgreeOutside(a, b, cs[k].start, cs[k].End())
    ensures Described(b, cs[..k] + n + cs[k + 1..])
  {
    var ds := cs[..k] + n + cs[k + 1..];
    forall j | 0 <= j < |ds|
      ensures Describes(b, ds[j])
    {
      if k <= j < k + |n| {
        assert ds[j] == n[j - k];
      } else {
        var i := if j < k then j else j + 1 - |n|;
        assert ds[j] == cs[i];
        if i < k { Ordered(cs, 0, HEAP_SIZE, i, k); } else { Ordered(cs, 0, HEAP_SIZE, k, i); }
        DescribesKept(a, b, cs[k].start, cs[k].End(), cs[i]);
      }
    }
  }

  /** The answer to a request for n bytes, line 56 included. */
  function Request(cs: seq<Chunk>, n: nat): Grant {
    if n + HEADER >= HEAP_SIZE then Grant(cs, None, 0) else Alloc(cs, n + HEADER)
  }

  predicate Inside(c: Chunk, b: int) { c.start <= b < c.End() }

  ghost function Span(c: Chunk): iset<int> { iset b | Inside(c, b) }

  ghost function FreeBytes(cs: seq<Chunk>): iset<int> {
    if cs == [] then iset{}
    else FreeBytes(cs[1..]) + if cs[0].free then Span(cs[0]) else iset{}
  }

  lemma {:induction false} FreeBytesAre(cs: seq<Chunk>, b: int)
    ensures b in FreeBytes(cs) <==> FreeByte(cs, b)
  {
    if cs != [] {
      FreeBytesAre(cs[1..], b);
    }
  }

  lemma SameFreeBytes(cs: seq<Chunk>, ds: seq<Chunk>)
    requires Same(cs, ds, 0, HEAP_SIZE)
    ensures FreeBytes(cs) == FreeBytes(ds)
  {
    forall b
      ensures b in FreeBytes(cs) <==> b in FreeBytes(ds)
    {
      FreeBytesAre(cs, b);
      FreeBytesAre(ds, b);
    }
  }

  /** Every byte that is not free keeps its value. */
  ghost predicate TakenKept(free: iset<int>, a: seq<Byte>, b: seq<Byte>) {
    |a| == |b| && forall k :: 0 <= k < |a| && k !in free ==> a[k] == b[k]
  }

  lemma FreeChunkWritten(cs: seq<Chunk>, k: nat, a: seq<Byte>, b: seq<Byte>, hi: nat)
    requires k < |cs| && cs[k].free && hi <= cs[k].End() && AgreeOutside(a, b, cs[k].start, hi)
    ensures TakenKept(FreeBytes(cs), a, b)
  {
    forall j | 0 <= j < |a| && j !in FreeBytes(cs)
      ensures a[j] == b[j]
    {
      FreeBytesAre(cs, j);
      FreeByteAt(cs, j);
    }
  }

  lemma CoalescedFree(cs: seq<Chunk>, k: nat, size: nat)
    requires Tiled(cs, 0, HEAP_SIZE) && k < |cs| && cs[k].free
    ensures FreeBytes(Coalesced(cs, k)) == FreeBytes(cs)
    ensures k < |Coalesced(cs, k)| && Coalesced(cs, k)[k].free && Coalesced(cs, k)[k].start == cs[k].start
    ensures Rest(cs, k, size) == After(Coalesced(cs, k)[..k], Fit(Coalesced(cs, k)[k..], size))
  {
    CoalescedKeeps(cs, 0, HEAP_SIZE, k, size);
    SameFreeBytes(cs, Coalesced(cs, k));
  }

  lemma Released(a: seq<Byte>, b: seq<Byte>, cs: seq<Chunk>, k: nat)
    requires Tiled(cs, 0, HEAP_SIZE) && k < |cs| && !cs[k].free && Described(a, cs)
    requires AgreeOutside(a, b, cs[k].start, cs[k].start + HEADER) && Describes(b, cs[k].(free := true))
    ensures Described(b, Release(cs, cs[k]))
  {
    ReleaseAt(cs, 0, HEAP_SIZE, k);
    OtherHeaders(a, b, cs, k);
  }

  lemma ReleasedTotal(cs: seq<Chunk>, k: nat)
    requires Tiled(cs, 0, HEAP_SIZE) && k < |cs| && !cs[k].free
    ensures Tiled(Release(cs, cs[k]), 0, HEAP_SIZE)
    ensures LiveTotal(cs) == LiveTotal(Release(cs, cs[k])) + cs[k].size
  {
    ReleaseAt(cs, 0, HEAP_SIZE, k);
    ReleaseUndoes(cs, 0, HEAP_SIZE, cs[k]);
  }

  lemma PayloadWritten(a: seq<Byte>, b: seq<Byte>, cs: seq<Chunk>, k: nat, q: nat)
    requires Tiled(cs, 0, HEAP_SIZE) && k < |cs| && Described(a, cs)
    requires cs[k].start + HEADER <= q < cs[k].End() && AgreeOutside(a, b, q, q + 1)
    ensures Described(b, cs)
  {
    forall j | 0 <= j < |cs|
      ensures Describes(b, cs[j])
    {
      if j < k { Ordered(cs, 0, HEAP_SIZE, j, k); } else if k < j { Ordered(cs, 0, HEAP_SIZE, k, j); }
      DescribesKept(a, b, q, q + 1, cs[j]);
    }
  }

  function Address(at: Option<nat>): Option<nat> {
    match at
    case None => None
    case Some(p) => Some(p + HEADER)
  }

  /** A request keeps the tiling, and what it adds to the chunks in use is its size and what line 81 absorbs. */
  lemma Accounting(cs: seq<Chunk>, size: nat)
    requires Tiled(cs, 0, HEAP_SIZE) && size >= HEADER
    ensures var g := Alloc(cs, size);
      Tiled(g.chunks, 0, HEAP_SIZE) && LiveTotal(g.chunks) == LiveTotal(cs) + (if g.at.None? then 0 else size + g.extra) &&
      (g.at.None? ==> g.extra == 0)
  {
    AllocServes(cs, 0, HEAP_SIZE, size);
  }

  lemma RestAtStart(cs: seq<Chunk>, need: nat)
    ensures Rest(cs, 0, need) == Alloc(cs, need)
    ensures Rest(cs, |cs|, need) == Grant(cs, None, 0)
  {
    assert cs[0..] == cs && cs[..0] == [] && cs[..|cs|] == cs && cs[|cs|..] == [];
    assert [] + Alloc(cs, need).chunks == Alloc(cs, need).chunks;
    assert cs + [] == cs;
  }

  lemma FreshStays(cs: seq<Chunk>, k: nat)
    requires k < |cs|
    ensures cs == FRESH ==> Coalesced(cs, k) == FRESH
  {
    if cs == FRESH {
      assert cs[..0] + MergeHead(cs[0..]) == cs;
    }
  }

  lemma FreshServes(size: nat)
    requires size < HEAP_SIZE
    ensures Alloc(FRESH, size).at == Some(0)
  {
    assert MergeHead(FRESH) == FRESH;
  }

  lemma FourBytes(m: seq<Byte>, p: nat)
    requires p + HEADER <= |m|
    ensures Word(m, p) == m[p] as int + 0x100 * m[p + 1] as int + 0x1_0000 * m[p + 2] as int + 0x100_0000 * m[p + 3] as int
  {
    assert Number(m, p + 3, 1) == m[p + 3] as int + 256 * Number(m, p + 4, 0);
    assert Number(m, p + 2, 2) == m[p + 2] as int + 256 * Number(m, p + 3, 1);
    assert Number(m, p + 1, 3) == m[p + 1] as int + 256 * Number(m, p + 2, 2);
  }

  /** The last byte of the first header is a byte of the second one. */
  lemma HighByte(m: seq<Byte>, size: nat)
    requires 0 < size < HEADER && Describes(m, Chunk(size, HEAP_SIZE - size, true))
    ensures m[3] as int >= 191
  {
    FourBytes(m, size);
    if size == 1 {
      assert m[4] as int == 1;
      assert m[3] as int == 0xBF;
    } else if size == 2 {
      assert m[3] as int == 0xFF;
    } else {
      assert m[3] as int == 0xFB;
    }
  }

  /** Whatever bytes a request of 1 to 3 bytes leaves behind on a fresh heap, they describe no heap. */
  lemma TornHeap(m: seq<Byte>, size: nat, cs: seq<Chunk>)
    requires |m| == HEAP_SIZE && 0 < size < HEADER && Torn(m, 0, size, HEAP_SIZE - size)
    ensures !(Tiled(cs, 0, HEAP_SIZE) && Described(m, cs))
  {
    HighByte(m, size);
    FourBytes(m, 0);
    if Tiled(cs, 0, HEAP_SIZE) {
      Bounds(cs, 0, HEAP_SIZE, 0);
    }
  }

  /** What a walk set out with: the bytes, the free addresses, the outcome it must reach, the two counters. */
  datatype Job = Job(before: seq<Byte>, free: iset<int>, g: Grant, size: nat, counted: int, absorbed: nat, untouched: bool)

  /** The outcome tiles the heap and its counter is right. */
  ghost predicate SoundJob(j: Job) {
    && Tiled(j.g.chunks, 0, HEAP_SIZE)
    && j.counted + (if j.g.at.None? then 0 else j.size) == LiveTotal(j.g.chunks) - (j.absorbed + j.g.extra)
  }

  lemma TakenTrans(free: iset<int>, a: seq<Byte>, b: seq<Byte>, c: seq<Byte>)
    requires TakenKept(free, a, b) && TakenKept(free, b, c)
    ensures TakenKept(free, a, c)
  {
  }

  /** Coalescing at chunk k leaves the job of a walk as it was. */
  lemma CoalescedJob(cs: seq<Chunk>, k: nat, a: seq<Byte>, b: seq<Byte>, j: Job)
    requires Tiled(cs, 0, HEAP_SIZE) && k < |cs| && cs[k].free && FreeBytes(cs) == j.free && TakenKept(j.free, j.before, a)
    requires AgreeOutside(a, b, cs[k].start, cs[k].start + HEADER) && Rest(cs, k, j.size) == j.g
    ensures var ds := Coalesced(cs, k);
      && FreeBytes(ds) == j.free && TakenKept(j.free, j.before, b) && (cs == FRESH ==> ds == FRESH)
      && k < |ds| && ds[k].free && ds[k].start == cs[k].start && After(ds[..k], Fit(ds[k..], j.size)) == j.g
  {
    StartBounds(cs, k);
    CoalescedFree(cs, k, j.size);
    FreshStays(cs, k);
    FreeChunkWritten(cs, k, a, b, cs[k].start + HEADER);
    TakenTrans(j.free, j.before, a, b);
  }

  class Allocator {
    const mem: array<Byte>
    var memoryUsed: nat
    ghost var chunks: seq<Chunk>
    /** All the bytes that line 81 ever gave on top of a request. */
    ghost var absorbed: nat

    /** How often memoryUsed has wrapped around: unwrapped, it is what the chunks in use have beyond absorbed. */
    ghost var wraps: int

    ghost function Counted(): int
      reads this
    {
      memoryUsed + WORDS * wraps
    }

    ghost predicate Tidy()
      reads this, mem
    {
      mem.Length == HEAP_SIZE && Tiled(chunks, 0, HEAP_SIZE) && Described(mem[..], chunks)
    }

    ghost predicate Valid()
      reads this, mem
    {
      Tidy() && memoryUsed < WORDS && Counted() == LiveTotal(chunks) - absorbed
    }

    /** heap_init: one free chunk. What the memory held before does not matter. */
    constructor (memory: array<Byte>)
      requires memory.Length == HEAP_SIZE
      modifies memory
      ensures Valid() && mem == memory && chunks == FRESH && absorbed == 0
    {
      mem := memory;
      memoryUsed := 0;
      wraps := 0;
      chunks := [Chunk(0, HEAP_SIZE, true)];
      absorbed := 0;
      new;
      SetFree(mem, 0, true);
      SetSize(mem, 0, HEAP_SIZE);
      DescribesFields(mem[..], chunks[0]);
    }

    /** __malloc_find_empty_space */
    method FindEmptySpace(p: nat, ghost k: nat) returns (q: nat, ghost l: nat)
      requires Tidy() && k <= |chunks| && p == StartOf(chunks, k)
      ensures k <= l <= |chunks| && q == StartOf(chunks, l)
      ensures forall m :: k <= m < l ==> !chunks[m].free
      ensures l < |chunks| ==> chunks[l].free
    {
      q, l := p, k;
      while q < HEAP_SIZE && !IsFree(mem[..], q)
        invariant k <= l <= |chunks| && q == StartOf(chunks, l)
        invariant q < HEAP_SIZE ==> q + HEADER <= mem.Length
        invariant forall m :: k <= m < l ==> !chunks[m].free
        decreases |chunks| - l
      {
        StartBounds(chunks, l);
        DescribesFields(mem[..], chunks[l]);
        q := q + SizeAt(mem[..], q);
        l := l + 1;
        StartBounds(chunks, l);
      }
      if l < |chunks| {
        StartBounds(chunks, l);
        DescribesFields(mem[..], chunks[l]);
      }
    }

    /** Lines 46-48: the free chunk at p absorbs the free chunk at c behind it. */
    method AbsorbNext(p: nat, c: nat, ghost k: nat) returns (d: nat)
      requires Tidy() && k + 1 < |chunks| && p == chunks[k].start && c == chunks[k + 1].start
      requires chunks[k].free && chunks[k + 1].free
      modifies this`chunks, mem
      ensures Tidy() && chunks == MergedAt(old(chunks), k) && d == chunks[k].End()
      ensures AgreeOutside(old(mem[..]), mem[..], p, p + HEADER)
    {
      ghost var cs, before := chunks, mem[..];
      MergeInside(cs, k);
      StartBounds(cs, k);
      StartBounds(cs, k + 1);
      var s := Enlarge(mem, p, c, cs[k], cs[k + 1]);
      d := c + s;
      OtherHeaders(before, mem[..], cs, k);
      DescribedMerged(mem[..], cs, k);
      chunks := MergedAt(cs, k);
    }

    /** Is there a free chunk at c? */
    method FreeAt(c: nat, ghost k: nat) returns (free: bool)
      requires Tidy() && k <= |chunks| && c == StartOf(chunks, k)
      ensures free <==> k < |chunks| && chunks[k].free
    {
      StartBounds(chunks, k);
      if k < |chunks| {
        DescribesFields(mem[..], chunks[k]);
      }
      free := c < HEAP_SIZE && IsFree(mem[..], c);
    }

    /** The end of the chunk at p. */
    method Behind(p: nat, ghost k: nat) returns (q: nat)
      requires Tidy() && k < |chunks| && p == chunks[k].start
      ensures q == chunks[k].End() == StartOf(chunks, k + 1)
    {
      StartBounds(chunks, k);
      DescribesFields(mem[..], chunks[k]);
      q := p + SizeAt(mem[..], p);
    }

    /** __malloc_concat_free_chunks */
    method ConcatFreeChunks(p: nat, ghost k: nat)
      requires Tidy() && k <= |chunks| && p == StartOf(chunks, k)
      modifies this`chunks, mem
      ensures Tidy() && chunks == Coalesced(old(chunks), k)
      ensures AgreeOutside(old(mem[..]), mem[..], p, p + HEADER)
      ensures k < |old(chunks)| && !old(chunks)[k].free ==> mem[..] == old(mem[..])
    {
      var free := FreeAt(p, k);
      if free {
        var c := Behind(p, k);
        free := FreeAt(c, k + 1);
        while free
          invariant Tidy() && k < |chunks| && chunks[k].start == p && chunks[k].free && c == StartOf(chunks, k + 1)
          invariant free <==> k + 1 < |chunks| && chunks[k + 1].free
          invariant Coalesced(chunks, k) == Coalesced(old(chunks), k)
          invariant AgreeOutside(old(mem[..]), mem[..], p, p + HEADER)
          decreases |chunks|
        {
          CoalescedStep(chunks, k);
          c := AbsorbNext(p, c, k);
          StartBounds(chunks, k);
          free := FreeAt(c, k + 1);
        }
        CoalescedDone(chunks, k);
      }
    }

    /** memory_used changes by d in the arithmetic of size_t. */
    method Count(d: int)
      requires -WORDS < d < WORDS && memoryUsed < WORDS
      modifies this`memoryUsed, this`wraps
      ensures Counted() == old(Counted()) + d && memoryUsed < WORDS
    {
      var sum := memoryUsed + d;
      if sum < 0 {
        memoryUsed, wraps := sum + WORDS, wraps - 1;
      } else if sum < WORDS {
        memoryUsed := sum;
      } else {
        memoryUsed, wraps := sum - WORDS, wraps + 1;
      }
    }

    /** Lines 66-85 for the free chunk k. */
    method Take(p: nat, size: nat, ghost k: nat)
      requires Tidy() && k < |chunks| && p == chunks[k].start && 0 < size < chunks[k].size && memoryUsed < WORDS
      modifies this, mem
      ensures Counted() == old(Counted()) + size && memoryUsed < WORDS
      ensures absorbed == old(absorbed) + if old(chunks)[k].size - size > HEADER then 0 else old(chunks)[k].size - size
      ensures chunks == old(chunks)[..k] + Split(old(chunks)[k], size) + old(chunks)[k + 1..]
      ensures size >= HEADER ==> Described(mem[..], chunks)
      ensures size < HEADER && old(chunks) == FRESH ==> Torn(mem[..], 0, size, HEAP_SIZE - size)
      ensures AgreeOutside(old(mem[..]), mem[..], p, old(chunks)[k].End())
    {
      ghost var cs, before := chunks, mem[..];
      StartBounds(cs, k);
      var extra := Cut(mem, p, size, cs[k]);
      if size >= HEADER {
        OtherChunks(before, mem[..], cs, k, Split(cs[k], size));
      }
      Count(size);
      absorbed := absorbed + extra;
      chunks := cs[..k] + Split(cs[k], size) + cs[k + 1..];
    }

    /** What stays as it was while the walk has not ended. */
    ghost predicate Unserved(j: Job)
      reads this, mem
    {
      && Tidy() && FreeBytes(chunks) == j.free && TakenKept(j.free, j.before, mem[..])
      && memoryUsed < WORDS && Counted() == j.counted && absorbed == j.absorbed
      && (j.untouched ==> chunks == FRESH)
    }

    /** The walk stands before chunk k and will end with its outcome. */
    ghost predicate Walking(j: Job, p: nat, k: nat)
      reads this, mem
    {
      Unserved(j) && k <= |chunks| && p == StartOf(chunks, k) && Rest(chunks, k, j.size) == j.g
    }

    /** The walk stands before a free chunk with no free chunk behind it. */
    ghost predicate Facing(j: Job, p: nat, k: nat)
      reads this, mem
    {
      && Unserved(j) && k < |chunks| && chunks[k].free && p == chunks[k].start
      && After(chunks[..k], Fit(chunks[k..], j.size)) == j.g
    }

    /** The walk has ended with its outcome. */
    ghost predicate Settled(j: Job, r: Option<nat>)
      reads this, mem
    {
      && r == j.g.at && chunks == j.g.chunks && absorbed == j.absorbed + j.g.extra
      && memoryUsed < WORDS && Counted() == j.counted + (if r.None? then 0 else j.size)
      && TakenKept(j.free, j.before, mem[..]) && (j.size >= HEADER ==> Described(mem[..], chunks))
      && (j.size < HEADER && j.untouched && r.Some? ==> Torn(mem[..], 0, j.size, HEAP_SIZE - j.size))
    }

    /** Lines 62-65: the walk moves on to a free chunk and coalesces it with the free chunks behind. */
    method NextFree(p: nat, ghost k: nat, ghost j: Job) returns (q: nat, found: bool, ghost l: nat)
      requires Walking(j, p, k) && p < HEAP_SIZE
      modifies this`chunks, mem
      ensures if found then Facing(j, q, l) else Walking(j, q, l) && q == HEAP_SIZE
      ensures p <= q
    {
      StartBounds(chunks, k);
      q, l := FindEmptySpace(p, k);
      SkipLive(chunks, k, l, j.size);
      StartBounds(chunks, l);
      if k < l < |chunks| { Ordered(chunks, 0, HEAP_SIZE, k, l); }
      Coalesce(q, l, j);
      found := FreeAt(q, l);
    }

    method Coalesce(p: nat, ghost k: nat, ghost j: Job)
      requires Walking(j, p, k) && (k < |chunks| ==> chunks[k].free)
      modifies this`chunks, mem
      ensures if k < |old(chunks)| then Facing(j, p, k) else Walking(j, p, k) && k == |chunks|
    {
      StartBounds(chunks, k);
      if p < HEAP_SIZE {
        CoalesceHere(p, k, j);
      }
    }

    method CoalesceHere(p: nat, ghost k: nat, ghost j: Job)
      requires Tidy() && k < |chunks| && chunks[k].free && p == chunks[k].start
      requires FreeBytes(chunks) == j.free && TakenKept(j.free, j.before, mem[..]) && Rest(chunks, k, j.size) == j.g
      modifies this`chunks, mem
      ensures Tidy() && FreeBytes(chunks) == j.free && TakenKept(j.free, j.before, mem[..])
      ensures old(chunks) == FRESH ==> chunks == FRESH
      ensures k < |chunks| && chunks[k].free && chunks[k].start == p
      ensures After(chunks[..k], Fit(chunks[k..], j.size)) == j.g
    {
      ghost var cs, before := chunks, mem[..];
      ConcatFreeChunks(p, k);
      CoalescedJob(cs, k, before, mem[..], j);
    }

    /** Lines 65-89: the free chunk is either cut to the request or passed by. */
    method Try(p: nat, size: nat, ghost k: nat, ghost j: Job) returns (q: nat, done: bool, ghost l: nat)
      requires Facing(j, p, k) && 0 < size == j.size
      modifies this, mem
      ensures if done then Settled(j, Some(q)) else Walking(j, q, l) && p < q
    {
      ghost var cs, before := chunks, mem[..];
      StartBounds(cs, k);
      DescribesFields(mem[..], chunks[k]);
      q, l, done := p, k, size < SizeAt(mem[..], p);
      if done {
        TakeHere(cs, k, size);
        Take(p, size, k);
        FreeChunkWritten(cs, k, before, mem[..], cs[k].End());
        TakenTrans(j.free, j.before, before, mem[..]);
      } else {
        SkipSmall(cs, k, size);
        q := Behind(p, k);
        l := k + 1;
      }
    }

    /** Lines 61-90: one turn meets the request or goes on behind the chunk it stopped at. */
    method Walk(size: nat, ghost j: Job) returns (r: Option<nat>)
      requires Walking(j, 0, 0) && 0 < size == j.size
      modifies this, mem
      ensures Settled(j, r)
    {
      var p: nat, done := 0, false;
      ghost var k: nat := 0;
      while p < HEAP_SIZE && !done
        invariant if done then Settled(j, Some(p)) else Walking(j, p, k)
        decreases !done, HEAP_SIZE - p
      {
        var found;
        p, found, k := NextFree(p, k, j);
        if found {
          p, done, k := Try(p, size, k, j);
        }
      }
      if !done {
        StartBounds(chunks, k);
        RestAtStart(chunks, size);
      }
      r := if done then Some(p) else None;
    }

    /** The walk keeps a valid heap valid if its outcome is sound. */
    method Serve(size: nat, ghost j: Job) returns (r: Option<nat>)
      requires Walking(j, 0, 0) && 0 < size == j.size
      modifies this, mem
      ensures Settled(j, r)
      ensures size >= HEADER && SoundJob(j) ==> Valid()
    {
      r := Walk(size, j);
    }

    /** A walk from the beginning. */
    lemma SetOut(j: Job)
      requires Valid()
      requires j == Job(mem[..], FreeBytes(chunks), Alloc(chunks, j.size), j.size, Counted(), absorbed, chunks == FRESH)
      ensures Walking(j, 0, 0)
      ensures j.size >= HEADER ==> SoundJob(j)
    {
      RestAtStart(chunks, j.size);
      StartBounds(chunks, 0);
      if j.size >= HEADER {
        Accounting(chunks, j.size);
      }
    }

    /** malloc. A request that does not wrap around is answered as Request says and keeps the heap valid;
        no request whatever changes a byte that is not free. */
    method Malloc(n: nat) returns (r: Option<nat>)
      requires Valid() && n < WORDS
      modifies this, mem
      ensures TakenKept(FreeBytes(old(chunks)), old(mem[..]), mem[..])
      ensures n <= WORDS - HEADER ==> Valid()
      ensures n <= WORDS - HEADER ==> chunks == Request(old(chunks), n).chunks
      ensures n <= WORDS - HEADER ==> r == Address(Request(old(chunks), n).at)
      ensures n <= WORDS - HEADER ==> absorbed == old(absorbed) + Request(old(chunks), n).extra
      ensures n > WORDS - HEADER && old(chunks) == FRESH ==>
                forall cs: seq<Chunk> :: !(Tiled(cs, 0, HEAP_SIZE) && Described(mem[..], cs))
    {
      var size := if n + HEADER < WORDS then n + HEADER else n + HEADER - WORDS;
      if size >= HEAP_SIZE || size == 0 {
        return None;
      }
      ghost var j := Job(mem[..], FreeBytes(chunks), Alloc(chunks, size), size, Counted(), absorbed, chunks == FRESH);
      SetOut(j);
      var at := Serve(size, j);
      r := Address(at);
      if j.untouched && size < HEADER {
        FreshServes(size);
        forall cs: seq<Chunk>
          ensures !(Tiled(cs, 0, HEAP_SIZE) && Described(mem[..], cs))
        {
          TornHeap(mem[..], size, cs);
        }
      }
    }

    /** free of a block in use. */
    method Free(ptr: nat, ghost k: nat)
      requires Valid() && k < |chunks| && !chunks[k].free && ptr == chunks[k].start + HEADER
      modifies this, mem
      ensures Valid() && absorbed == old(absorbed)
      ensures chunks == Release(old(chunks), old(chunks)[k])
      ensures Counted() == old(Counted()) - old(chunks)[k].size
      ensures AgreeOutside(old(mem[..]), mem[..], ptr - HEADER, ptr - HEADER + 1)
    {
      ghost var cs, c, before := chunks, chunks[k], mem[..];
      StartBounds(cs, k);
      var p := ptr - HEADER;
      DescribesFields(mem[..], c);
      SetFree(mem, p, true);
      var size: int := SizeAt(mem[..], p);
      Count(-size);
      DescribesFields(mem[..], c.(free := true));
      chunks := Release(cs, c);
      Released(before, mem[..], cs, k);
      ReleasedTotal(cs, k);
    }

    /** The caller writes a byte of a block it owns. */
    method Store(ptr: nat, i: nat, v: Byte, ghost k: nat)
      requires Valid() && k < |chunks| && !chunks[k].free && ptr == chunks[k].start + HEADER
      requires ptr + i < chunks[k].End() <= mem.Length
      modifies mem
      ensures Valid() && mem[ptr + i] == v
      ensures AgreeOutside(old(mem[..]), mem[..], ptr + i, ptr + i + 1)
    {
      ghost var before := mem[..];
      StartBounds(chunks, k);
      mem[ptr + i] := v;
      PayloadWritten(before, mem[..], chunks, k, ptr + i);
    }
  }
}
