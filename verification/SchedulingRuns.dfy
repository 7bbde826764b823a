/** kernel/src/ctx.c and kernel/include/ctx.h: what the scheduler's switches, sections and decisions mean over runs. */
module SchedulingRuns {
  import opened Common
  import opened Scheduling

  // ------------------------------------------------------------------ critical sections

  /** How many more sections were entered than left. */
  function Depth(es: seq<Event>): int {
    if es == [] then 0 else (if es[0].Lock? then 1 else if es[0].Unlock? then -1 else 0) + Depth(es[1..])
  }

  /** lock_ctx counts the sections that are open, in a byte. */
  lemma {:induction false} LockIs(m: Machine, es: seq<Event>)
    requires m.ring != [] && m.lock < 256
    ensures Run(m, es).lock == (m.lock + Depth(es)) % 256
    decreases |es|
  {
    if es != [] {
      LockIs(Step(m, es[0]), es[1..]);
    }
  }

  /** Some section is open, as far as a byte can tell. */
  predicate Open(lock: nat, es: seq<Event>) { (lock + Depth(es)) % 256 != 0 }

  lemma OpenAtFirst(lock: nat, es: seq<Event>)
    requires lock < 256
    ensures Open(lock, es[..0]) <==> lock != 0
  {
    assert es[..0] == [];
  }

  lemma OpenNext(m: Machine, es: seq<Event>, j: nat)
    requires m.ring != [] && m.lock < 256 && j < |es|
    ensures Step(m, es[0]).lock < 256 && (Open(m.lock, es[..j + 1]) <==> Open(Step(m, es[0]).lock, es[1..][..j]))
  {
    assert es[..j + 1][1..] == es[1..][..j];
  }

  /** The lock is held throughout a run exactly if before each event the number of open sections is no multiple of
      256. */
  lemma {:induction false} HeldExactly(m: Machine, es: seq<Event>)
    requires m.ring != [] && m.lock < 256
    ensures Held(m, es) <==> forall j :: 0 <= j < |es| ==> Open(m.lock, es[..j])
    decreases |es|
  {
    if es != [] {
      var n, t := Step(m, es[0]), es[1..];
      OpenNext(m, es, 0);
      HeldExactly(n, t);
      OpenAtFirst(m.lock, es);
      forall j | 0 <= j < |t|
        ensures Open(m.lock, es[..j + 1]) <==> Open(n.lock, t[..j])
      {
        OpenNext(m, es, j);
      }
      AllOpen(m.lock, n.lock, es, t);
    }
  }

  lemma AllOpen(lock: nat, next: nat, es: seq<Event>, t: seq<Event>)
    requires |es| == |t| + 1 && forall j :: 0 <= j < |t| ==> (Open(lock, es[..j + 1]) <==> Open(next, t[..j]))
    ensures (forall j :: 0 <= j < |es| ==> Open(lock, es[..j])) <==>
              Open(lock, es[..0]) && forall j :: 0 <= j < |t| ==> Open(next, t[..j])
  {
    if forall j :: 0 <= j < |es| ==> Open(lock, es[..j]) {
      forall j | 0 <= j < |t|
        ensures Open(next, t[..j])
      {
        assert Open(lock, es[..j + 1]);
      }
    }
    if Open(lock, es[..0]) && forall j :: 0 <= j < |t| ==> Open(next, t[..j]) {
      forall j | 0 <= j < |es|
        ensures Open(lock, es[..j])
      {
        if j > 0 {
          assert Open(next, t[..j - 1]) && es[..j - 1 + 1] == es[..j];
        }
      }
    }
  }

  /** As long as fewer sections are left than were entered, before the run or in it, and fewer than 256 are open,
      nothing is switched. */
  lemma OpenSections(m: Machine, es: seq<Event>)
    requires m.ring != [] && m.lock < 256
    requires forall j :: 0 <= j < |es| ==> 0 < m.lock + Depth(es[..j]) < 256
    ensures Held(m, es) && Run(m, es).ring[0].pid == m.ring[0].pid && Undisturbed(m, es)
  {
    forall j | 0 <= j < |es|
      ensures Open(m.lock, es[..j])
    {
    }
    HeldExactly(m, es);
    LockedRun(m, es);
  }

  function Unlocks(n: nat): (es: seq<Event>)
    ensures |es| == n
  {
    seq(n, _ => Unlock)
  }

  lemma {:induction false} LeftSections(m: Machine, k: nat)
    requires m.ring != [] && m.lock < 256
    ensures Run(m, Unlocks(k)) == m.(lock := (m.lock - k) % 256)
    decreases k
  {
    if k > 0 {
      assert Unlocks(k)[1..] == Unlocks(k - 1);
      LeftSections(Step(m, Unlock), k - 1);
    }
  }

  lemma Modular(l: nat, n: nat, k: nat)
    requires l < 256
    ensures ((l + n) % 256 - k) % 256 == (l + n - k) % 256 && (n == k ==> (l + n - k) % 256 == l)
  {
  }

  lemma ThenRun(m: Machine, a: seq<Event>, b: seq<Event>, n: Machine, o: Machine)
    requires m.ring != [] && n.ring != [] && Run(m, a) == n && Run(n, b) == o
    ensures Run(m, a + b) == o
  {
    RunBoth(m, a, b);
  }

  lemma EnteredTo(m: Machine, n: nat) returns (a: Machine)
    requires m.ring != [] && m.lock < 256
    ensures a.ring != [] && a == m.(lock := a.lock) && a.lock == (m.lock + n) % 256 && Run(m, Locks(n)) == a
  {
    NestedSections(m, n);
    a := Run(m, Locks(n));
  }

  lemma LeftTo(m: Machine, k: nat) returns (a: Machine)
    requires m.ring != [] && m.lock < 256
    ensures a == m.(lock := a.lock) && a.lock == (m.lock - k) % 256 && Run(m, Unlocks(k)) == a
  {
    LeftSections(m, k);
    a := Run(m, Unlocks(k));
  }

  /** n sections entered and k left. As many left as entered is nothing at all, from every value of the lock. */
  lemma EnteredAndLeft(m: Machine, n: nat, k: nat) returns (r: Machine)
    requires m.ring != [] && m.lock < 256
    ensures r == Run(m, Locks(n) + Unlocks(k)) && r == m.(lock := r.lock) && r.lock == (m.lock + n - k) % 256
    ensures n == k ==> r == m
  {
    var a := EnteredTo(m, n);
    r := LeftTo(a, k);
    ThenRun(m, Locks(n), Unlocks(k), a, r);
    Modular(m.lock, n, k);
  }

  // ------------------------------------------------------------------ decisions

  /** Every due tick is a decision, whatever the lock and the ring are: after it the next QUANTUM ticks switch
      nothing. */
  lemma EveryDueTickDecides(m: Machine, frame: Regs, es: seq<Event>)
    requires m.ring != [] && m.ticks < WORDS && Due(m) && Next(m.ticks) + QUANTUM < WORDS
    requires TicksIn(es) <= QUANTUM
    ensures var n := Step(m, Tick(frame)); Run(n, es).ring[0].pid == n.ring[0].pid
  {
    var n := Step(m, Tick(frame));
    QuantumExactly(n.ticks);
    Quiet(n, es);
  }

  /** And it is no more than that: a section that was open at a due tick costs its processes exactly one quantum. If it
      is left before the next tick, the switch comes at tick QUANTUM + 1. */
  lemma HeldBack(m: Machine, frame: Regs)
    requires |m.ring| > 1 && !m.ring[1].dead && m.lock == 1 && m.ticks < WORDS && Due(m) && Next(m.ticks) + QUANTUM + 1 < WORDS
    ensures var n := Run(m, [Tick(frame), Unlock]);
      && n.ring == m.ring && n.lock == 0
      && Run(n, Ticks(QUANTUM + 1, frame)).ring[0].pid == m.ring[1].pid
      && forall k :: 0 <= k <= QUANTUM ==> Run(n, Ticks(k, frame)).ring == m.ring
  {
    var a := Step(m, Tick(frame));
    var n := Step(a, Unlock);
    OneEvent(m, Tick(frame));
    OneEvent(a, Unlock);
    RunBoth(m, [Tick(frame)], [Unlock]);
    assert [Tick(frame)] + [Unlock] == [Tick(frame), Unlock];
    OneTurn(n, frame);
    assert Reap(n.ring) == n.ring;
    forall k | 0 <= k <= QUANTUM
      ensures Run(n, Ticks(k, frame)).ring == m.ring
    {
      Waits(n, k, frame);
    }
  }

  // ------------------------------------------------------------------ on and off

  lemma ToggledTwice(m: Machine)
    requires m.ring != []
    ensures Run(m, [Toggle]) != m && Run(m, [Toggle, Toggle]) == m
  {
    OneEvent(m, Toggle);
    OneEvent(Step(m, Toggle), Toggle);
    RunBoth(m, [Toggle], [Toggle]);
    assert [Toggle] + [Toggle] == [Toggle, Toggle];
  }

  /** A scheduler that is off leaves the current process alone. */
  lemma {:induction false} OffRun(m: Machine, es: seq<Event>)
    requires m.ring != [] && !m.on && forall j :: 0 <= j < |es| ==> es[j] != Toggle
    ensures Run(m, es).ring[0].pid == m.ring[0].pid && Undisturbed(m, es) && Run(m, es).last == m.last
    decreases |es|
  {
    if es != [] {
      OffRun(Step(m, es[0]), es[1..]);
    }
  }

  /** A process that is alone is never interrupted for good, and its TCB stays as it is. */
  lemma AloneStays(m: Machine, frame: Regs)
    requires |m.ring| == 1
    ensures Step(m, Tick(frame)).ring == m.ring && Resumed(m, frame) == frame
  {
  }

  // ------------------------------------------------------------------ the dead

  /** Nobody who is alive has this pid, and nobody will get it. */
  ghost predicate Gone(m: Machine, pid: nat) {
    pid < m.nextPid && forall k :: 0 <= k < |m.ring| && m.ring[k].pid == pid ==> m.ring[k].dead
  }

  lemma StepGone(m: Machine, e: Event, pid: nat)
    requires Sound(m) && Gone(m, pid)
    ensures Gone(Step(m, e), pid)
    ensures m.ring[0].pid != pid ==> Step(m, e).ring[0].pid != pid
  {
    if e.Tick? && Switches(m) {
      var d := SwitchShifts(m, e.frame);
      NeverResumesTheDead(m, e.frame);
    } else if e.Spawn? {
      SpawnGone(m, e.first, e.pages, e.frame, pid);
    }
  }

  lemma SpawnGone(m: Machine, first: nat, pages: nat, frame: Regs, pid: nat)
    requires Sound(m) && Gone(m, pid)
    ensures Gone(Spawned(m, first, pages, frame), pid) && Spawned(m, first, pages, frame).ring[0] == m.ring[0]
  {
    var j, p := IndexOf(m.ring, m.lst), Proc(m.nextPid, false, first, pages, frame);
    if j < |m.ring| {
      var r := m.ring[..j + 1] + [p] + m.ring[j + 1..];
      forall i | 0 <= i < |r|
        ensures r[i] == if i <= j then m.ring[i] else if i == j + 1 then p else m.ring[i - 1]
      {
      }
    }
  }

  lemma {:induction false} GoneForGood(m: Machine, es: seq<Event>, pid: nat)
    requires Sound(m) && Gone(m, pid) && m.ring[0].pid != pid
    ensures Run(m, es).ring[0].pid != pid
    decreases |es|
  {
    if es != [] {
      StepGone(m, es[0], pid);
      StepSound(m, es[0]);
      GoneForGood(Step(m, es[0]), es[1..], pid);
    }
  }

  /** A process that has returned from its function is not resumed, ever, once another one is current. */
  lemma NeverRunsAgain(m: Machine, frame: Regs, es: seq<Event>)
    requires Sound(m) && m.ring[0].pid != m.kernel && Switches(m)
    ensures Run(m, [Die, Tick(frame)] + es).ring[0].pid != m.ring[0].pid
  {
    var a := Step(m, Die);
    var b := Step(a, Tick(frame));
    OneEvent(m, Die);
    OneEvent(a, Tick(frame));
    RunBoth(m, [Die], [Tick(frame)]);
    assert [Die] + [Tick(frame)] == [Die, Tick(frame)];
    RunBoth(m, [Die, Tick(frame)], es);
    StepSound(m, Die);
    StepSound(a, Tick(frame));
    assert Gone(a, m.ring[0].pid);
    StepGone(a, Tick(frame), m.ring[0].pid);
    NeverResumesTheDead(a, frame);
    GoneForGood(b, es, m.ring[0].pid);
  }
}
