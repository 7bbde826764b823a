/** Whole runs of malloc and free, on the chunk lists that Heap's methods compute. */
module HeapRuns {
  import opened Chunks
  import opened Common
  import opened Heap

  datatype Op = Malloc(n: nat) | Free(c: Chunk)

  /** The chunk list, what was asked for each chunk in use, the unwrapped memory_used, and line 81's total. */
  datatype State = State(cs: seq<Chunk>, asked: map<Chunk, nat>, counted: int, absorbed: nat)

  const INITIAL := State(FRESH, map[], 0, 0)

  /** Requests whose size does not wrap around, and frees of blocks in use. */
  predicate Legal(s: State, op: Op) {
    match op
    case Malloc(n) => n <= WORDS - HEADER
    case Free(c) => c in s.asked
  }

  function Step(s: State, op: Op): State {
    match op
    case Malloc(n) =>
      var g := Request(s.cs, n);
      if g.at.None? then s.(cs := g.chunks)
      else State(g.chunks, s.asked[Granted(g, n + HEADER) := n], s.counted + n + HEADER, s.absorbed + g.extra)
    case Free(c) =>
      State(Release(s.cs, c), s.asked - {c}, s.counted - c.size, s.absorbed)
  }

  predicate Runs(s: State, ops: seq<Op>)
    decreases |ops|
  {
    ops == [] || (Legal(s, ops[0]) && Runs(Step(s, ops[0]), ops[1..]))
  }

  function Run(s: State, ops: seq<Op>): State
    decreases |ops|
  {
    if ops == [] then s else Run(Step(s, ops[0]), ops[1..])
  }

  /** The chunks tile the heap; those in use are the ones asked for, each large enough; the counter is right. */
  ghost predicate Sound(s: State) {
    && Tiled(s.cs, 0, HEAP_SIZE)
    && s.asked.Keys == Live(s.cs)
    && (forall c :: c in s.asked ==> s.asked[c] + HEADER <= c.size)
    && s.counted == LiveTotal(s.cs) - s.absorbed
  }

  lemma RequestServed(cs: seq<Chunk>, n: nat)
    requires Tiled(cs, 0, HEAP_SIZE)
    ensures Served(cs, Request(cs, n), 0, HEAP_SIZE, n + HEADER)
    ensures Lowest(cs, Request(cs, n).at, n + HEADER)
  {
    if n + HEADER < HEAP_SIZE {
      AllocServes(cs, 0, HEAP_SIZE, n + HEADER);
      FirstFit(cs, 0, HEAP_SIZE, n + HEADER);
    } else {
      var need := n + HEADER;
      forall a
        ensures !Window(cs, a, need)
      {
        TooLong(cs, a, need);
      }
    }
  }

  lemma TooLong(cs: seq<Chunk>, a: int, need: nat)
    requires Tiled(cs, 0, HEAP_SIZE) && need >= HEAP_SIZE
    ensures !Window(cs, a, need)
  {
    if FreeByte(cs, a) { FreeWithin(cs, 0, HEAP_SIZE, a); }
    if FreeByte(cs, a + need) { FreeWithin(cs, 0, HEAP_SIZE, a + need); }
  }

  lemma InitialSound()
    ensures Sound(INITIAL)
  {
    assert INITIAL.cs == [Chunk(0, HEAP_SIZE, true)] + [];
    Cons(Chunk(0, HEAP_SIZE, true), [], HEAP_SIZE);
  }

  lemma StepSound(s: State, op: Op)
    requires Sound(s) && Legal(s, op)
    ensures Sound(Step(s, op))
  {
    match op
    case Malloc(n) => RequestServed(s.cs, n);
    case Free(c) =>
      ReleaseUndoes(s.cs, 0, HEAP_SIZE, c);
      LiveWithin(s.cs, 0, HEAP_SIZE, c);
      TakenWasFree(Release(s.cs, c), s.cs, c, 0, HEAP_SIZE);
  }

  lemma {:induction false} RunSound(s: State, ops: seq<Op>)
    requires Sound(s) && Runs(s, ops)
    ensures Sound(Run(s, ops))
    decreases |ops|
  {
    if ops != [] {
      StepSound(s, ops[0]);
      RunSound(Step(s, ops[0]), ops[1..]);
    }
  }

  /** After heap_init and any run: the heap is tiled, blocks in use are disjoint, inside the heap and large
      enough for what was asked, and the counter plus line 81's bytes is the size of the blocks in use. */
  lemma {:induction false} EveryRun(ops: seq<Op>, c: Chunk, d: Chunk)
    requires Runs(INITIAL, ops)
    ensures Sound(Run(INITIAL, ops))
    ensures var s := Run(INITIAL, ops); c in s.asked ==> c.End() <= HEAP_SIZE && s.asked[c] + HEADER <= c.size
    ensures var s := Run(INITIAL, ops); c in s.asked && d in s.asked && c != d ==> c.End() <= d.start || d.End() <= c.start
  {
    InitialSound();
    RunSound(INITIAL, ops);
    var s := Run(INITIAL, ops);
    if c in s.asked {
      LiveWithin(s.cs, 0, HEAP_SIZE, c);
      if d in s.asked && c != d {
        LiveDisjoint(s.cs, 0, HEAP_SIZE, c, d);
      }
    }
  }

  /** malloc returns NULL exactly when no n + 5 consecutive bytes are free, and otherwise the lowest address
      behind whose header they start. */
  lemma {:induction false} NullExactly(ops: seq<Op>, n: nat)
    requires Runs(INITIAL, ops) && n <= WORDS - HEADER
    ensures var s := Run(INITIAL, ops);
      Lowest(s.cs, Request(s.cs, n).at, n + HEADER)
  {
    InitialSound();
    RunSound(INITIAL, ops);
    RequestServed(Run(INITIAL, ops).cs, n);
  }

  /** Whatever the run did, once all blocks are freed any request smaller than the heap succeeds. */
  lemma {:induction false} AllFreedServes(ops: seq<Op>, n: nat)
    requires Runs(INITIAL, ops) && Run(INITIAL, ops).asked == map[] && n + HEADER < HEAP_SIZE
    ensures Request(Run(INITIAL, ops).cs, n).at == Some(0)
  {
    InitialSound();
    RunSound(INITIAL, ops);
    EmptyHeapServes(Run(INITIAL, ops).cs, HEAP_SIZE, n + HEADER);
  }
}
