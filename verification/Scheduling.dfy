/** kernel/src/ctx.c on values: the ring of processes, the current one first, and what every timer tick does. */
module Scheduling {
  import opened Common

  const QUANTUM := 10

  /** The interrupt frame of kernel/include/isr.h. */
  datatype Regs = Regs(gs: nat, fs: nat, es: nat, ds: nat,
                       edi: nat, esi: nat, ebp: nat, esp: nat, ebx: nat, edx: nat, ecx: nat, eax: nat,
                       intNo: nat, errNo: nat, eip: nat, cs: nat, eflags: nat)

  /** A TCB: its run of pages starts at address first. */
  datatype Proc = Proc(pid: nat, dead: bool, first: nat, pages: nat, frame: Regs)

  /** lst names the process that spawn_process links the next one behind; kernel is the one fst_proc points to. */
  datatype Machine = Machine(ring: seq<Proc>, kernel: nat, lst: nat, nextPid: nat,
                             on: bool, lock: nat, ticks: nat, last: nat)

  /** What happens to a machine between two instructions of the current process. */
  datatype Event =
    | Tick(frame: Regs)
    | Die
    | Spawn(first: nat, pages: nat, frame: Regs)
    | Lock
    | Unlock
    | Toggle

  /** Lines 139-144: the dead successors of the current process are unlinked. */
  function Reap(ring: seq<Proc>): (r: seq<Proc>)
    ensures ring != [] ==> r != [] && r[0] == ring[0]
    decreases |ring|
  {
    if |ring| > 1 && ring[1].dead then Reap([ring[0]] + ring[2..]) else ring
  }

  /** switch_ctx: the current process keeps its frame and goes last. */
  function Switched(ring: seq<Proc>, frame: Regs): (r: seq<Proc>)
    requires ring != []
  {
    ring[1..] + [ring[0].(frame := frame)]
  }

  /** size_t arithmetic on ticks. */
  function Later(last: nat): nat { if last + QUANTUM < WORDS then last + QUANTUM else last + QUANTUM - WORDS }

  function Next(ticks: nat): nat { if ticks + 1 < WORDS then ticks + 1 else 0 }

  /** Line 135, at the tick that is about to be counted. */
  predicate Due(m: Machine) { m.on && Next(m.ticks) > Later(m.last) }

  /** Line 138: the tick leads to a switch. */
  predicate Switches(m: Machine) { Due(m) && m.lock == 0 && |m.ring| > 1 }

  /** timer_handler and scheduler. */
  function AfterTick(m: Machine, frame: Regs): Machine
    requires m.ring != []
  {
    var now := Next(m.ticks);
    if !Due(m) then m.(ticks := now)
    else if !Switches(m) then m.(ticks := now, last := now)
    else m.(ticks := now, last := now, ring := Switched(Reap(m.ring), frame))
  }

  /** The frame that the interrupted code, or the resumed process, goes on with. */
  function Resumed(m: Machine, frame: Regs): Regs
    requires m.ring != []
  {
    if Switches(m) then AfterTick(m, frame).ring[0].frame else frame
  }

  function IndexOf(ring: seq<Proc>, pid: nat): (k: nat)
    ensures k <= |ring|
    ensures k < |ring| ==> ring[k].pid == pid
    ensures forall i :: 0 <= i < k ==> ring[i].pid != pid
  {
    if ring == [] || ring[0].pid == pid then 0 else 1 + IndexOf(ring[1..], pid)
  }

  /** spawn_process with the pages already allocated. If lst was reaped, the link is written into its freed
      TCB and the new process is in no ring. */
  function Spawned(m: Machine, first: nat, pages: nat, frame: Regs): Machine {
    var p := Proc(m.nextPid, false, first, pages, frame);
    var k := IndexOf(m.ring, m.lst);
    m.(nextPid := m.nextPid + 1, lst := m.nextPid,
       ring := if k < |m.ring| then m.ring[..k + 1] + [p] + m.ring[k + 1..] else m.ring)
  }

  function Step(m: Machine, e: Event): Machine
    requires m.ring != []
  {
    match e
    case Tick(frame) => AfterTick(m, frame)
    case Die => if m.ring[0].pid == m.kernel then m else m.(ring := [m.ring[0].(dead := true)] + m.ring[1..])
    case Spawn(first, pages, frame) => Spawned(m, first, pages, frame)
    case Lock => m.(lock := if m.lock == 255 then 0 else m.lock + 1)
    case Unlock => m.(lock := if m.lock == 0 then 255 else m.lock - 1)
    case Toggle => m.(on := !m.on)
  }

  ghost predicate Distinct(ring: seq<Proc>) {
    forall i, j :: 0 <= i < j < |ring| ==> ring[i].pid != ring[j].pid
  }

  /** The kernel process is in the ring and alive, and pids identify processes. */
  ghost predicate Sound(m: Machine) {
    && Distinct(m.ring)
    && (exists k :: 0 <= k < |m.ring| && m.ring[k].pid == m.kernel && !m.ring[k].dead)
    && (forall k :: 0 <= k < |m.ring| ==> m.ring[k].pid < m.nextPid)
    && m.lst < m.nextPid
  }

  function Initial(frame: Regs): Machine {
    Machine([Proc(0, false, 0, 0, frame)], 0, 0, 1, false, 0, 0, 0)
  }

  function Run(m: Machine, es: seq<Event>): (r: Machine)
    requires m.ring != []
    ensures r.ring != []
    decreases |es|
  {
    if es == [] then m else Run(Step(m, es[0]), es[1..])
  }

  lemma {:induction false} RunSplit(m: Machine, es: seq<Event>, k: nat)
    requires m.ring != [] && k <= |es|
    ensures Run(m, es) == Run(Run(m, es[..k]), es[k..])
    decreases k
  {
    if k > 0 {
      RunSplit(Step(m, es[0]), es[1..], k - 1);
      assert es[1..][..k - 1] == es[..k][1..];
      assert es[1..][k - 1..] == es[k..];
    } else {
      assert es[0..] == es && es[..0] == [];
    }
  }

  lemma RunBoth(m: Machine, a: seq<Event>, b: seq<Event>)
    requires m.ring != []
    ensures Run(m, a + b) == Run(Run(m, a), b)
  {
    RunSplit(m, a + b, |a|);
    assert (a + b)[..|a|] == a && (a + b)[|a|..] == b;
  }

  lemma OneEvent(m: Machine, e: Event)
    requires m.ring != []
    ensures Run(m, [e]) == Step(m, e)
  {
    var n, t := Step(m, e), [e][1..];
    assert t == [];
    assert Run(n, t) == n;
  }

  // ------------------------------------------------------------------ reaping

  /** Reaping drops the dead processes behind the current one, all of them up to the first live one, and no other. */
  lemma {:induction false} ReapDrops(ring: seq<Proc>) returns (d: nat)
    requires ring != []
    ensures d < |ring| && Reap(ring) == [ring[0]] + ring[d + 1..]
    ensures forall i :: 1 <= i <= d ==> ring[i].dead
    ensures d + 1 < |ring| ==> !ring[d + 1].dead
    decreases |ring|
  {
    if |ring| > 1 && ring[1].dead {
      var t := [ring[0]] + ring[2..];
      var e := ReapDrops(t);
      d := e + 1;
      assert forall i :: 2 <= i < |ring| ==> ring[i] == t[i - 1];
      assert t[e + 1..] == ring[d + 1..];
    } else {
      d := 0;
      assert ring == [ring[0]] + ring[1..];
    }
  }

  /** A dead process is never resumed: after a switch the current process is alive. */
  lemma NeverResumesTheDead(m: Machine, frame: Regs)
    requires Sound(m) && Switches(m)
    ensures !AfterTick(m, frame).ring[0].dead
  {
    var d := ReapDrops(m.ring);
    var k :| 0 <= k < |m.ring| && m.ring[k].pid == m.kernel && !m.ring[k].dead;
  }

  /** Every event keeps the kernel process in the ring and alive, and pids distinct. */
  lemma StepSound(m: Machine, e: Event)
    requires Sound(m)
    ensures Sound(Step(m, e))
  {
    var k :| 0 <= k < |m.ring| && m.ring[k].pid == m.kernel && !m.ring[k].dead;
    match e
    case Tick(frame) => TickSound(m, frame, k);
    case Spawn(first, pages, frame) => SpawnSound(m, first, pages, frame, k);
    case Die =>
      assert Step(m, e).ring[k].pid == m.kernel;
    case _ =>
  }

  lemma InsertedAt(ring: seq<Proc>, j: nat, p: Proc)
    requires j < |ring| && Distinct(ring) && forall k :: 0 <= k < |ring| ==> ring[k].pid < p.pid
    ensures var r := ring[..j + 1] + [p] + ring[j + 1..];
      Distinct(r) && forall k :: 0 <= k < |r| ==> r[k].pid <= p.pid
  {
    var r := ring[..j + 1] + [p] + ring[j + 1..];
    forall i | 0 <= i < |r|
      ensures r[i] == if i <= j then ring[i] else if i == j + 1 then p else ring[i - 1]
    {
    }
  }

  lemma InsertedKeeps(ring: seq<Proc>, j: nat, p: Proc, k: nat)
    requires j < |ring| && k < |ring|
    ensures (ring[..j + 1] + [p] + ring[j + 1..])[if k <= j then k else k + 1] == ring[k]
  {
  }

  lemma SpawnSound(m: Machine, first: nat, pages: nat, frame: Regs, k: nat)
    requires Sound(m) && k < |m.ring| && m.ring[k].pid == m.kernel && !m.ring[k].dead
    ensures Sound(Spawned(m, first, pages, frame))
  {
    var n := Spawned(m, first, pages, frame);
    var j := IndexOf(m.ring, m.lst);
    if j < |m.ring| {
      var p := Proc(m.nextPid, false, first, pages, frame);
      InsertedAt(m.ring, j, p);
      InsertedKeeps(m.ring, j, p, k);
      assert n.ring == m.ring[..j + 1] + [p] + m.ring[j + 1..];
    } else {
      assert n.ring[k] == m.ring[k];
    }
  }

  /** After a switch the ring is the old one from the process behind the reaped ones on, with the old first
      one last. */
  lemma SwitchShifts(m: Machine, frame: Regs) returns (d: nat)
    requires Switches(m)
    ensures var r := AfterTick(m, frame).ring;
      && d < |m.ring| && |r| == |m.ring| - d
      && (forall i :: 1 <= i <= d ==> m.ring[i].dead)
      && (forall i :: 0 <= i < |r| - 1 ==> r[i] == m.ring[i + d + 1])
      && r[|r| - 1] == m.ring[0].(frame := frame)
  {
    d := ReapDrops(m.ring);
  }

  lemma TickDistinct(m: Machine, frame: Regs)
    requires Switches(m) && Distinct(m.ring)
    ensures Distinct(AfterTick(m, frame).ring)
  {
    var d := SwitchShifts(m, frame);
  }

  lemma TickSound(m: Machine, frame: Regs, k: nat)
    requires Sound(m) && k < |m.ring| && m.ring[k].pid == m.kernel && !m.ring[k].dead
    ensures Sound(AfterTick(m, frame))
  {
    if Switches(m) {
      TickDistinct(m, frame);
      var d := SwitchShifts(m, frame);
      var r := AfterTick(m, frame).ring;
      assert r[if k == 0 then |r| - 1 else k - d - 1].pid == m.kernel;
    }
  }

  lemma {:induction false} RunSound(m: Machine, es: seq<Event>)
    requires Sound(m)
    ensures Sound(Run(m, es))
    decreases |es|
  {
    if es != [] {
      StepSound(m, es[0]);
      RunSound(Step(m, es[0]), es[1..]);
    }
  }

  // ------------------------------------------------------------------ time

  function TicksIn(es: seq<Event>): nat {
    if es == [] then 0 else (if es[0].Tick? then 1 else 0) + TicksIn(es[1..])
  }

  /** The tick counter k ticks after t. */
  function Plus(t: nat, k: nat): nat { if k == 0 then t else Next(Plus(t, k - 1)) }

  /** While nothing is due, neither the current process nor the time of the last decision changes. */
  lemma {:induction false} Quiet(m: Machine, es: seq<Event>)
    requires m.ring != [] && forall k :: 1 <= k <= TicksIn(es) ==> Plus(m.ticks, k) <= Later(m.last)
    ensures Run(m, es).ring[0].pid == m.ring[0].pid && Run(m, es).last == m.last
    decreases |es|
  {
    if es != [] {
      var n := Step(m, es[0]);
      if es[0].Tick? {
        assert Plus(m.ticks, 1) == Next(Plus(m.ticks, 0)) == Next(m.ticks);
        forall k | 1 <= k <= TicksIn(es[1..])
          ensures Plus(n.ticks, k) <= Later(n.last)
        {
          PlusShift(m.ticks, k);
        }
      }
      Quiet(n, es[1..]);
    }
  }

  lemma {:induction false} PlusShift(t: nat, k: nat)
    ensures Plus(Next(t), k) == Plus(t, k + 1)
  {
    if k > 0 { PlusShift(t, k - 1); }
  }

  lemma {:induction false} PlusIs(t: nat, k: nat)
    requires t < WORDS && k < WORDS
    ensures Plus(t, k) == if t + k < WORDS then t + k else t + k - WORDS
  {
    if k > 0 { PlusIs(t, k - 1); }
  }

  /** For QUANTUM ticks after a decision nothing is due, unless the counter wraps around in that time. The
      two halves together say exactly for which ticks the guarantee holds. */
  lemma QuantumExactly(t: nat)
    requires t < WORDS
    ensures (forall k :: 1 <= k <= QUANTUM ==> Plus(t, k) <= Later(t)) <==> (t + QUANTUM < WORDS || t == WORDS - 1)
  {
    forall k | 1 <= k <= QUANTUM
      ensures Plus(t, k) == if t + k < WORDS then t + k else t + k - WORDS
    {
      PlusIs(t, k);
    }
    PlusIs(t, 1);
    assert Plus(t, 1) == if t + 1 < WORDS then t + 1 else 0;
  }

  /** Two switches are at least QUANTUM + 1 ticks apart: after a decision, no run of at most QUANTUM ticks
      changes the current process. That holds exactly for the ticks of QuantumExactly: after any other decision
      the very next tick switches. */
  lemma SwitchesApart(m: Machine, frame: Regs)
    requires m.on && m.lock == 0 && |m.ring| > 1 && !m.ring[1].dead && Distinct(m.ring)
    requires m.ticks == m.last < WORDS
    ensures (forall es :: TicksIn(es) <= QUANTUM ==> Run(m, es).ring[0].pid == m.ring[0].pid)
       <==> (m.ticks + QUANTUM < WORDS || m.ticks == WORDS - 1)
    ensures !(m.ticks + QUANTUM < WORDS || m.ticks == WORDS - 1) ==> Run(m, [Tick(frame)]).ring[0].pid == m.ring[1].pid
  {
    QuantumExactly(m.ticks);
    if m.ticks + QUANTUM < WORDS || m.ticks == WORDS - 1 {
      forall es | TicksIn(es) <= QUANTUM
        ensures Run(m, es).ring[0].pid == m.ring[0].pid
      {
        Quiet(m, es);
      }
    } else {
      var es := [Tick(frame)];
      OneEvent(m, Tick(frame));
      assert TicksIn(es) == 1 + TicksIn(es[1..]) == 1;
      assert Run(m, es).ring[0].pid == m.ring[1].pid;
    }
  }

  /** The lock is held at every event of the run. */
  predicate Held(m: Machine, es: seq<Event>)
    requires m.ring != []
    decreases |es|
  {
    es == [] || (m.lock != 0 && Held(Step(m, es[0]), es[1..]))
  }

  /** Every tick of the run returns to the code it interrupted. */
  predicate Undisturbed(m: Machine, es: seq<Event>)
    requires m.ring != []
    decreases |es|
  {
    es == [] || ((es[0].Tick? ==> Resumed(m, es[0].frame) == es[0].frame) && Undisturbed(Step(m, es[0]), es[1..]))
  }

  /** As long as the lock is held, whatever else happens, the current process stays current, every tick returns
      to the code it interrupted, and unless processes are spawned or die nothing happens to the ring. */
  lemma {:induction false} LockedRun(m: Machine, es: seq<Event>)
    requires m.ring != [] && Held(m, es)
    ensures Run(m, es).ring[0].pid == m.ring[0].pid && Undisturbed(m, es)
    ensures (forall j :: 0 <= j < |es| ==> !es[j].Spawn? && !es[j].Die?) ==> Run(m, es).ring == m.ring
    decreases |es|
  {
    if es != [] {
      LockedRun(Step(m, es[0]), es[1..]);
    }
  }

  function Locks(n: nat): (es: seq<Event>)
    ensures |es| == n
  {
    seq(n, _ => Lock)
  }

  /** lock_ctx is a byte: 256 sections, one inside the other, leave it at 0 and the scheduler free to switch. */
  lemma {:induction false} NestedSections(m: Machine, n: nat)
    requires m.ring != [] && m.lock < 256
    ensures Run(m, Locks(n)) == m.(lock := (m.lock + n) % 256)
    decreases n
  {
    if n > 0 {
      assert Locks(n)[1..] == Locks(n - 1);
      NestedSections(Step(m, Lock), n - 1);
    }
  }

  // ------------------------------------------------------------------ everyone runs

  /** How many ticks of the run switch. */
  function SwitchesIn(m: Machine, es: seq<Event>): nat
    requires m.ring != []
    decreases |es|
  {
    if es == [] then 0 else (if es[0].Tick? && Switches(m) then 1 else 0) + SwitchesIn(Step(m, es[0]), es[1..])
  }

  /** How many spawns there are in the run. */
  function SpawnsIn(es: seq<Event>): nat {
    if es == [] then 0 else (if es[0].Spawn? then 1 else 0) + SpawnsIn(es[1..])
  }

  /** A live process at place k behind the current one moves up at least one place per switch. */
  lemma SwitchMovesUp(m: Machine, frame: Regs, k: nat) returns (l: nat)
    requires Switches(m) && 1 <= k < |m.ring| && !m.ring[k].dead
    ensures l < k && l < |AfterTick(m, frame).ring| && AfterTick(m, frame).ring[l] == m.ring[k]
  {
    var d := ReapDrops(m.ring);
    l := k - d - 1;
  }

  /** No other event moves it, but a process spawned in front of it takes one place. */
  lemma OtherEventsKeepPlace(m: Machine, e: Event, k: nat) returns (l: nat)
    requires 1 <= k < |m.ring| && !(e.Tick? && Switches(m))
    ensures l < |Step(m, e).ring| && Step(m, e).ring[l] == m.ring[k] && Step(m, e).ring[0].pid == m.ring[0].pid
    ensures l == k || (e.Spawn? && l == k + 1)
  {
    l := if e.Spawn? && IndexOf(m.ring, m.lst) < k then k + 1 else k;
  }

  /** Every live process becomes current within as many switches as it is places away from the current one,
      so within fewer than the ring has nodes, and one more for each process spawned meanwhile. */
  lemma {:induction false} EveryoneRuns(m: Machine, es: seq<Event>, k: nat)
    requires k < |m.ring| && !m.ring[k].dead && SwitchesIn(m, es) >= k + SpawnsIn(es)
    ensures exists j :: 0 <= j <= |es| && Run(m, es[..j]).ring[0].pid == m.ring[k].pid
    decreases |es|
  {
    if k == 0 {
      assert Run(m, es[..0]).ring[0].pid == m.ring[k].pid;
    } else {
      var n, t := Step(m, es[0]), es[1..];
      var l;
      if es[0].Tick? && Switches(m) {
        l := SwitchMovesUp(m, es[0].frame, k);
      } else {
        l := OtherEventsKeepPlace(m, es[0], k);
      }
      EveryoneRuns(n, t, l);
      var j :| 0 <= j <= |t| && Run(n, t[..j]).ring[0].pid == n.ring[l].pid;
      RunCons(m, es, j);
      assert Run(m, es[..j + 1]).ring[0].pid == m.ring[k].pid;
    }
  }

  lemma RunCons(m: Machine, es: seq<Event>, j: nat)
    requires m.ring != [] && j < |es|
    ensures Run(m, es[..j + 1]) == Run(Step(m, es[0]), es[1..][..j])
  {
    assert es[..j + 1][1..] == es[1..][..j];
  }

  // ------------------------------------------------------------------ frames

  /** The process was suspended with this frame: it is the last one now. */
  lemma Suspends(m: Machine, frame: Regs)
    requires Switches(m)
    ensures var r := AfterTick(m, frame).ring; r[|r| - 1] == m.ring[0].(frame := frame)
  {
  }

  /** The processes that are not current keep everything, or are reaped because they are dead. */
  lemma StepKeeps(m: Machine, e: Event, k: nat) returns (l: nat)
    requires Sound(m) && 1 <= k < |m.ring| && !m.ring[k].dead
    ensures l < |Step(m, e).ring| && Step(m, e).ring[l] == m.ring[k]
  {
    l := k;
    match e
    case Tick(frame) =>
      if Switches(m) {
        l := SwitchMovesUp(m, frame, k);
      }
    case Spawn(first, pages, frame) =>
      var j := IndexOf(m.ring, m.lst);
      if j < k {
        l := k + 1;
      }
    case _ =>
  }

  /** While a live process is not current, its TCB stays as it is, frame included, whatever happens. */
  lemma {:induction false} FrameKept(m: Machine, es: seq<Event>, k: nat) returns (l: nat)
    requires Sound(m) && 1 <= k < |m.ring| && !m.ring[k].dead
    requires forall j :: 0 <= j <= |es| ==> Run(m, es[..j]).ring[0].pid != m.ring[k].pid
    ensures 1 <= l < |Run(m, es).ring| && Run(m, es).ring[l] == m.ring[k]
    decreases |es|
  {
    l := k;
    if es != [] {
      var n, t := Step(m, es[0]), es[1..];
      l := StepKeeps(m, es[0], k);
      StepSound(m, es[0]);
      forall j | 0 <= j <= |t|
        ensures Run(n, t[..j]).ring[0].pid != n.ring[l].pid
      {
        RunCons(m, es, j);
        assert Run(m, es[..j + 1]).ring[0].pid != m.ring[k].pid;
      }
      assert Run(n, t[..0]) == n;
      l := FrameKept(n, t, l);
    }
  }

  /** A process that becomes current goes on with exactly the frame in its TCB, which since its suspension, or
      since it was spawned, nothing has changed. */
  lemma {:induction false} ResumesTheSavedFrame(m: Machine, es: seq<Event>, k: nat, frame: Regs)
    requires Sound(m) && 1 <= k < |m.ring| && !m.ring[k].dead
    requires forall j :: 0 <= j <= |es| ==> Run(m, es[..j]).ring[0].pid != m.ring[k].pid
    requires AfterTick(Run(m, es), frame).ring[0].pid == m.ring[k].pid
    ensures Resumed(Run(m, es), frame) == m.ring[k].frame
  {
    var l := FrameKept(m, es, k);
    var n := Run(m, es);
    RunSound(m, es);
    assert es[..|es|] == es;
    assert n.ring[0].pid != m.ring[k].pid;
    var d := ReapDrops(n.ring);
    assert d + 1 < |n.ring| ==> Reap(n.ring)[1] == n.ring[d + 1];
  }

  /** From a switch to the next turn of the process that was interrupted by it: whatever happens in between, it
      goes on with exactly the frame that the switch found. */
  lemma SuspendedAndResumed(m: Machine, frame: Regs, es: seq<Event>, later: Regs)
    requires Sound(m) && Switches(m) && !m.ring[0].dead
    requires var n := AfterTick(m, frame);
      && (forall j :: 0 <= j <= |es| ==> Run(n, es[..j]).ring[0].pid != m.ring[0].pid)
      && AfterTick(Run(n, es), later).ring[0].pid == m.ring[0].pid
    ensures Resumed(Run(AfterTick(m, frame), es), later) == frame
  {
    var n := AfterTick(m, frame);
    Suspends(m, frame);
    StepSound(m, Tick(frame));
    assert Run(n, es[..0]) == n;
    ResumesTheSavedFrame(n, es, |n.ring| - 1, later);
  }

  // ------------------------------------------------------------------ spawning

  /** Once lst_proc was reaped, no later spawn ever joins the ring again. */
  lemma {:induction false} LostForever(m: Machine, es: seq<Event>)
    requires Sound(m) && IndexOf(m.ring, m.lst) == |m.ring|
    ensures IndexOf(Run(m, es).ring, Run(m, es).lst) == |Run(m, es).ring|
    ensures |Run(m, es).ring| <= |m.ring|
    decreases |es|
  {
    if es != [] {
      var n := Step(m, es[0]);
      StepSound(m, es[0]);
      StillLost(m, es[0]);
      LostForever(n, es[1..]);
    }
  }

  lemma StillLost(m: Machine, e: Event)
    requires Sound(m) && IndexOf(m.ring, m.lst) == |m.ring|
    ensures IndexOf(Step(m, e).ring, Step(m, e).lst) == |Step(m, e).ring| <= |m.ring|
  {
    var n := Step(m, e);
    if e.Tick? && Switches(m) {
      var d := ReapDrops(m.ring);
      assert forall i :: 0 <= i < |n.ring| - 1 ==> n.ring[i] == m.ring[i + d + 1];
    }
  }

  // ------------------------------------------------------------------ the next switch

  function Ticks(n: nat, frame: Regs): (es: seq<Event>)
    ensures |es| == n
  {
    seq(n, _ => Tick(frame))
  }

  lemma {:induction false} Waits(m: Machine, n: nat, frame: Regs)
    requires m.ring != [] && m.last < WORDS && (m.on ==> m.ticks + n <= Later(m.last)) && m.ticks + n < WORDS
    ensures Run(m, Ticks(n, frame)) == m.(ticks := m.ticks + n)
    decreases n
  {
    if n > 0 {
      assert Ticks(n, frame)[1..] == Ticks(n - 1, frame);
      Waits(Step(m, Tick(frame)), n - 1, frame);
    }
  }

  lemma TicksJoin(m: Machine, a: nat, b: nat, frame: Regs)
    requires m.ring != []
    ensures Run(m, Ticks(a + b, frame)) == Run(Run(m, Ticks(a, frame)), Ticks(b, frame))
  {
    RunBoth(m, Ticks(a, frame), Ticks(b, frame));
    assert Ticks(a, frame) + Ticks(b, frame) == Ticks(a + b, frame);
  }

  lemma OneTick(m: Machine, frame: Regs)
    requires m.ring != []
    ensures Run(m, Ticks(1, frame)) == AfterTick(m, frame)
  {
    assert Ticks(1, frame) == [Tick(frame)];
    OneEvent(m, Tick(frame));
  }

  /** n ticks in which nothing is due, and then a switch. */
  lemma WaitAndSwitch(m: Machine, n: nat, frame: Regs)
    requires m.on && m.lock == 0 && |m.ring| > 1 && m.last < WORDS
    requires m.ticks + n == Later(m.last) && m.ticks + n + 1 < WORDS
    ensures var t := m.ticks + n + 1;
      Run(m, Ticks(n + 1, frame)) == m.(ticks := t, last := t, ring := Switched(Reap(m.ring), frame))
  {
    Waits(m, n, frame);
    TicksJoin(m, n, 1, frame);
    OneTick(Run(m, Ticks(n, frame)), frame);
  }

  /** One quantum: ten ticks in which nothing is due, and then a switch. */
  lemma OneTurn(m: Machine, frame: Regs)
    requires m.on && m.lock == 0 && |m.ring| > 1 && m.ticks == m.last && m.last + QUANTUM + 1 < WORDS
    ensures var t := m.ticks + QUANTUM + 1;
      Run(m, Ticks(QUANTUM + 1, frame)) == m.(ticks := t, last := t, ring := Switched(Reap(m.ring), frame))
  {
    WaitAndSwitch(m, QUANTUM, frame);
  }

  lemma StuckStep(m: Machine, e: Event)
    requires m.ring != [] && m.ticks < WORDS && m.last == WORDS - 1 - QUANTUM
    ensures var n := Step(m, e);
      n.ring != [] && n.ticks < WORDS && n.last == m.last && n.ring[0].pid == m.ring[0].pid
  {
    assert !Due(m);
  }

  /** A decision at exactly the wrong tick is the last one ever. */
  lemma {:induction false} StuckForever(m: Machine, es: seq<Event>)
    requires m.ring != [] && m.ticks < WORDS && m.last == WORDS - 1 - QUANTUM
    ensures Run(m, es).ring[0].pid == m.ring[0].pid && Run(m, es).last == m.last
    decreases |es|
  {
    if es != [] {
      StuckStep(m, es[0]);
      StuckForever(Step(m, es[0]), es[1..]);
    }
  }

  /** A machine that can switch and has just decided. */
  ghost predicate Decided(m: Machine) {
    m.on && m.lock == 0 && |m.ring| > 1 && !m.ring[1].dead && Distinct(m.ring) && m.ticks == m.last < WORDS
  }

  /** How many ticks the next switch takes. */
  function TicksToSwitch(last: nat): nat {
    if last + QUANTUM + 1 < WORDS || last == WORDS - 1 then QUANTUM + 1 else 1
  }

  lemma SwitchesAfter(m: Machine, frame: Regs)
    requires Decided(m) && m.last != WORDS - 1 - QUANTUM
    ensures Run(m, Ticks(TicksToSwitch(m.last), frame)).ring[0].pid == m.ring[1].pid
  {
    assert Reap(m.ring) == m.ring;
    if m.last + QUANTUM + 1 < WORDS {
      OneTurn(m, frame);
    } else if m.last == WORDS - 1 {
      OneTick(m, frame);
      WaitAndSwitch(AfterTick(m, frame), QUANTUM - 1, frame);
      TicksJoin(m, 1, QUANTUM, frame);
    } else {
      OneTick(m, frame);
    }
  }

  /** After a decision the next process has its turn within QUANTUM + 1 ticks, exactly if the decision was not made
      at the one tick whose sum with QUANTUM is the largest size_t. */
  lemma SwitchesAgainExactly(m: Machine, frame: Regs)
    requires Decided(m)
    ensures (exists n :: 0 <= n <= QUANTUM + 1 && Run(m, Ticks(n, frame)).ring[0].pid == m.ring[1].pid)
       <==> m.last != WORDS - 1 - QUANTUM
  {
    if m.last == WORDS - 1 - QUANTUM {
      forall n | 0 <= n <= QUANTUM + 1
        ensures Run(m, Ticks(n, frame)).ring[0].pid != m.ring[1].pid
      {
        StuckForever(m, Ticks(n, frame));
      }
    } else {
      SwitchesAfter(m, frame);
    }
  }

  /** A process is spawned, and the scheduler is switched on just before tick t. */
  function SwitchedOnAt(t: nat, first: nat, pages: nat, frame: Regs): seq<Event>
    requires t > 0
  {
    [Spawn(first, pages, frame)] + (Ticks(t - 1, frame) + ([Toggle] + [Tick(frame)]))
  }

  /** Every tick behind the first QUANTUM ones can be the tick of a decision, the fatal one and those after which
      the next switch comes too early included. */
  lemma EveryTickDecides(t: nat, first: nat, pages: nat, frame: Regs)
    requires QUANTUM < t < WORDS
    ensures var m := Run(Initial(frame), SwitchedOnAt(t, first, pages, frame)); Decided(m) && m.last == t
  {
    var m := Initial(frame);
    var a := Step(m, Spawn(first, pages, frame));
    assert a.ring == [m.ring[0], Proc(1, false, first, pages, frame)];
    OneEvent(m, Spawn(first, pages, frame));
    Waits(a, t - 1, frame);
    var b := a.(ticks := t - 1);
    var c := b.(on := true);
    OneEvent(b, Toggle);
    OneEvent(c, Tick(frame));
    RunBoth(b, [Toggle], [Tick(frame)]);
    RunBoth(a, Ticks(t - 1, frame), [Toggle] + [Tick(frame)]);
    RunBoth(m, [Spawn(first, pages, frame)], Ticks(t - 1, frame) + ([Toggle] + [Tick(frame)]));
    assert Reap(c.ring) == c.ring;
    assert AfterTick(c, frame).ring == [Proc(1, false, first, pages, frame), m.ring[0]];
  }

  /** So the scheduler can stop for good: after that run, nothing that happens brings another process forward. */
  lemma CanStopForGood(first: nat, pages: nat, frame: Regs, es: seq<Event>)
    ensures var m := Run(Initial(frame), SwitchedOnAt(WORDS - 1 - QUANTUM, first, pages, frame));
      Decided(m) && Run(m, es).ring[0].pid == m.ring[0].pid
  {
    EveryTickDecides(WORDS - 1 - QUANTUM, first, pages, frame);
    StuckForever(Run(Initial(frame), SwitchedOnAt(WORDS - 1 - QUANTUM, first, pages, frame)), es);
  }

  lemma SwitchedPlace(ring: seq<Proc>, frame: Regs, k: nat) returns (l: nat)
    requires 1 <= k < |ring| && !ring[k].dead
    ensures l < k && l < |Switched(Reap(ring), frame)| && Switched(Reap(ring), frame)[l] == ring[k]
  {
    var d := ReapDrops(ring);
    l := k - d - 1;
  }

  /** Waiting is bounded in ticks: a live process at place k has its turn within k quanta, as long as the tick
      counter does not wrap before. */
  lemma {:induction false} WaitsAtMost(m: Machine, k: nat, frame: Regs) returns (n: nat)
    requires m.on && m.lock == 0 && m.ticks == m.last && m.last + k * (QUANTUM + 1) < WORDS
    requires k < |m.ring| && !m.ring[k].dead
    ensures n <= k * (QUANTUM + 1) && Run(m, Ticks(n, frame)).ring[0].pid == m.ring[k].pid
    decreases k
  {
    n := 0;
    if k > 0 {
      OneTurn(m, frame);
      var next := Run(m, Ticks(QUANTUM + 1, frame));
      var l := SwitchedPlace(m.ring, frame, k);
      var rest := WaitsAtMost(next, l, frame);
      TicksJoin(m, QUANTUM + 1, rest, frame);
      n := QUANTUM + 1 + rest;
    }
  }

  // ------------------------------------------------------------------ lst_proc can be reaped

  /** A process is spawned, runs, and returns; the kernel process runs and reaps it. It was the last one. */
  function SpawnAndFinish(first: nat, pages: nat, frame: Regs): seq<Event> {
    var turn := Ticks(QUANTUM + 1, frame);
    ([Spawn(first, pages, frame), Toggle] + turn) + (([Die] + turn) + turn)
  }

  /** After this run from the start, lst_proc points to a TCB that is no longer in the ring. */
  lemma LstIsReaped(first: nat, pages: nat, frame: Regs)
    ensures var m := Run(Initial(frame), SpawnAndFinish(first, pages, frame));
      |m.ring| == 1 && IndexOf(m.ring, m.lst) == |m.ring|
  {
    var m, turn := Initial(frame), Ticks(QUANTUM + 1, frame);
    var spawned := Step(m, Spawn(first, pages, frame));
    OneEvent(m, Spawn(first, pages, frame));
    OneEvent(spawned, Toggle);
    RunBoth(m, [Spawn(first, pages, frame)], [Toggle]);
    assert [Spawn(first, pages, frame)] + [Toggle] == [Spawn(first, pages, frame), Toggle];
    var a := Run(m, [Spawn(first, pages, frame), Toggle]);
    assert a.ring == [m.ring[0], Proc(1, false, first, pages, frame)];
    RunBoth(m, [Spawn(first, pages, frame), Toggle], turn);
    OneTurn(a, frame);
    var b := Run(a, turn);
    assert Reap(a.ring) == a.ring;
    assert b.ring == [Proc(1, false, first, pages, frame), m.ring[0]];
    OneEvent(b, Die);
    var c := Run(b, [Die]);
    assert c.ring == [Proc(1, true, first, pages, frame), m.ring[0]];
    RunBoth(b, [Die], turn);
    OneTurn(c, frame);
    var d := Run(c, turn);
    assert Reap(c.ring) == c.ring;
    assert d.ring == [m.ring[0], Proc(1, true, first, pages, frame)];
    RunBoth(b, [Die] + turn, turn);
    OneTurn(d, frame);
    assert Reap(d.ring) == Reap([d.ring[0]] + d.ring[2..]) == [m.ring[0]];
    RunBoth(m, [Spawn(first, pages, frame), Toggle] + turn, ([Die] + turn) + turn);
  }
}
