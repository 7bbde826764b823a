/** kernel/src/ctx.c: the circular list of TCBs, each owning a run of the pages that the bitmap marks. */
module Processes {
  import opened Common
  import opened Scheduling
  import opened Paging

  const STUB := 0  // the address of __stub, where every spawned process starts

  class Tcb {
    const pid: nat
    const pages: nat
    const first: nat
    var dead: bool
    var next: Tcb?
    var regs: Regs

    constructor (pid: nat, first: nat, pages: nat, regs: Regs)
      ensures this.pid == pid && this.first == first && this.pages == pages && this.regs == regs
      ensures !dead && next == null
    {
      this.pid, this.first, this.pages, this.regs := pid, first, pages, regs;
      dead, next := false, null;
    }

    function Value(): Proc
      reads this
    {
      Proc(pid, dead, first, pages, regs)
    }

    predicate Holds(page: nat) { Within(page, first / PAGE_SIZE, pages) }

    /** A run of pages that starts at an existing user page. */
    predicate OwnsARun() {
      first % PAGE_SIZE == 0 && FIRST_USER_PAGE <= first / PAGE_SIZE < TOTAL_PAGES
    }
  }

  ghost predicate PidsDistinct(ring: seq<Tcb>) {
    forall i, j :: 0 <= i < j < |ring| ==> ring[i].pid != ring[j].pid
  }

  ghost predicate Linked(ring: seq<Tcb>)
    reads ring
  {
    forall i :: 0 <= i < |ring| ==> ring[i].next == ring[if i + 1 < |ring| then i + 1 else 0]
  }

  ghost function Members(ring: seq<Tcb>): set<Tcb> { set t | t in ring }

  /** The runs are pairwise disjoint, as far as the pages exist. */
  ghost predicate Disjoint(owners: set<Tcb>) {
    forall s, t, b: nat :: s in owners && t in owners && s != t && b < TOTAL_PAGES && s.Holds(b) ==> !t.Holds(b)
  }

  ghost predicate NobodyHolds(owners: set<Tcb>, b: nat) {
    forall t :: t in owners ==> !t.Holds(b)
  }

  /** The user pages marked in the bitmap are exactly those of the owners' runs. */
  ghost predicate Accounted(owners: set<Tcb>, pages: PageMap)
    requires pages.Holds(TOTAL_PAGES)
    reads pages.words
  {
    forall b :: FIRST_USER_PAGE <= b < TOTAL_PAGES ==> (pages.IsFree(b) <==> NobodyHolds(owners, b))
  }

  /** The bits of every run are in the bitmap or in the memory behind it. */
  ghost predicate InReach(owners: set<Tcb>, pages: PageMap) {
    forall t :: t in owners ==> pages.Holds(t.first / PAGE_SIZE + t.pages)
  }

  ghost function Values(ring: seq<Tcb>): (vs: seq<Proc>)
    reads ring
    ensures |vs| == |ring|
  {
    seq(|ring|, i requires 0 <= i < |ring| reads ring => ring[i].Value())
  }

  ghost function Rotated(ring: seq<Tcb>): seq<Tcb>
    requires ring != []
  {
    ring[1..] + [ring[0]]
  }

  lemma RotatedRing(ring: seq<Tcb>)
    requires ring != [] && PidsDistinct(ring) && Linked(ring)
    ensures PidsDistinct(Rotated(ring)) && Linked(Rotated(ring))
    ensures Members(Rotated(ring)) == Members(ring)
  {
    var r := Rotated(ring);
    assert forall i :: 0 <= i < |r| ==> r[i] == if i + 1 < |ring| then ring[i + 1] else ring[0];
    assert ring == [ring[0]] + ring[1..];
  }

  ghost function Unlinked(ring: seq<Tcb>): seq<Tcb>
    requires |ring| > 1
  {
    [ring[0]] + ring[2..]
  }

  lemma UnlinkedRing(ring: seq<Tcb>)
    requires |ring| > 1 && PidsDistinct(ring)
    requires ring[0].next == ring[if 2 < |ring| then 2 else 0]
    requires forall i :: 1 <= i < |ring| ==> ring[i].next == ring[if i + 1 < |ring| then i + 1 else 0]
    ensures PidsDistinct(Unlinked(ring)) && Linked(Unlinked(ring))
  {
    var r := Unlinked(ring);
    assert forall i :: 1 <= i < |r| ==> r[i] == ring[i + 1];
  }

  lemma UnlinkedValues(ring: seq<Tcb>)
    requires |ring| > 1
    ensures Values(Unlinked(ring)) == [Values(ring)[0]] + Values(ring)[2..]
  {
  }

  lemma RotatedValues(ring: seq<Tcb>)
    requires |ring| > 0
    ensures Values(Rotated(ring)) == Values(ring)[1..] + [Values(ring)[0]]
  {
  }

  lemma UnlinkedMembers(ring: seq<Tcb>)
    requires |ring| > 1 && PidsDistinct(ring)
    ensures Members(Unlinked(ring)) == Members(ring) - {ring[1]}
  {
    assert ring == [ring[0], ring[1]] + ring[2..];
  }

  /** Once the pages of the unlinked TCB are free again, the bitmap is right for the other owners. */
  lemma UnlinkedPages(owners: set<Tcb>, pages: PageMap, t: Tcb)
    requires pages.Holds(TOTAL_PAGES) && t in owners && Disjoint(owners)
    requires forall b :: FIRST_USER_PAGE <= b < TOTAL_PAGES ==>
      (pages.IsFree(b) <==> t.Holds(b) || NobodyHolds(owners, b))
    ensures Disjoint(owners - {t}) && Accounted(owners - {t}, pages)
  {
  }

  /** The position of t in the ring. */
  ghost function Place(ring: seq<Tcb>, t: Tcb): (j: nat)
    requires t in ring
    ensures j < |ring| && ring[j] == t
  {
    if ring[0] == t then 0 else 1 + Place(ring[1..], t)
  }

  /** t goes right behind place j. */
  ghost function Inserted(ring: seq<Tcb>, j: nat, t: Tcb): seq<Tcb>
    requires j < |ring|
  {
    ring[..j + 1] + [t] + ring[j + 1..]
  }

  lemma InsertedMembers(ring: seq<Tcb>, j: nat, t: Tcb)
    requires j < |ring|
    ensures Members(Inserted(ring, j, t)) == Members(ring) + {t}
    ensures Inserted(ring, j, t)[0] == ring[0]
  {
    assert ring == ring[..j + 1] + ring[j + 1..];
  }

  ghost function After(ring: seq<Tcb>, i: nat): Tcb
    requires i < |ring|
  {
    if i + 1 < |ring| then ring[i + 1] else ring[0]
  }

  lemma InsertedAt(ring: seq<Tcb>, j: nat, t: Tcb, i: nat)
    requires j < |ring| && i <= |ring|
    ensures Inserted(ring, j, t)[i] == if i <= j then ring[i] else if i == j + 1 then t else ring[i - 1]
  {
  }

  lemma InsertedPids(ring: seq<Tcb>, j: nat, t: Tcb)
    requires j < |ring| && PidsDistinct(ring) && forall s :: s in ring ==> s.pid != t.pid
    ensures PidsDistinct(Inserted(ring, j, t))
  {
    var r := Inserted(ring, j, t);
    forall i, k | 0 <= i < k < |r|
      ensures r[i].pid != r[k].pid
    {
      InsertedAt(ring, j, t, i);
      InsertedAt(ring, j, t, k);
    }
  }

  lemma InsertedLinks(ring: seq<Tcb>, j: nat, t: Tcb)
    requires j < |ring| && ring[j].next == t && t.next == After(ring, j)
    requires forall i :: 0 <= i < |ring| && i != j ==> ring[i].next == After(ring, i)
    ensures Linked(Inserted(ring, j, t))
  {
    var r := Inserted(ring, j, t);
    forall i | 0 <= i < |r|
      ensures r[i].next == r[if i + 1 < |r| then i + 1 else 0]
    {
      InsertedAt(ring, j, t, i);
      InsertedAt(ring, j, t, if i + 1 < |r| then i + 1 else 0);
      if i > j + 1 {
        assert ring[i - 1].next == After(ring, i - 1);
      } else if i < j {
        assert ring[i].next == After(ring, i);
      }
    }
  }

  lemma InsertedValues(ring: seq<Tcb>, j: nat, t: Tcb)
    requires j < |ring| && PidsDistinct(ring)
    ensures Values(Inserted(ring, j, t)) == Values(ring)[..j + 1] + [t.Value()] + Values(ring)[j + 1..]
    ensures IndexOf(Values(ring), ring[j].pid) == j
  {
    var k := IndexOf(Values(ring), ring[j].pid);
    assert Values(ring)[j].pid == ring[j].pid;
  }

  /** The freshly marked run makes the bitmap right for one more owner. */
  lemma InsertedPages(owners: set<Tcb>, t: Tcb, pages: PageMap)
    requires pages.Holds(TOTAL_PAGES) && Disjoint(owners)
    requires forall b: nat :: b < TOTAL_PAGES && t.Holds(b) ==> NobodyHolds(owners, b)
    requires forall b :: FIRST_USER_PAGE <= b < TOTAL_PAGES ==>
      (pages.IsFree(b) <==> !t.Holds(b) && NobodyHolds(owners, b))
    ensures Disjoint(owners + {t}) && Accounted(owners + {t}, pages)
  {
  }

  /** The frame a spawned process starts with: the segments and flags of its creator, and __stub. */
  function FirstFrame(rs: Regs, ebp: nat, esp: nat): Regs {
    rs.(edi := 0, esi := 0, ebp := ebp, esp := esp, ebx := 0, edx := 0, ecx := 0, eax := 0, eip := STUB)
  }

  /** The first turn of a spawned process, whatever happens before: it starts at __stub with its own stack, with its
      creator's segments and flags, and with empty registers. */
  lemma StartsAtStub(m: Machine, first: nat, pages: nat, rs: Regs, ebp: nat, esp: nat, es: seq<Event>, frame: Regs)
    requires Sound(m) && IndexOf(m.ring, m.lst) < |m.ring|
    requires var n := Step(m, Spawn(first, pages, FirstFrame(rs, ebp, esp)));
      && (forall j :: 0 <= j <= |es| ==> Run(n, es[..j]).ring[0].pid != m.nextPid)
      && AfterTick(Run(n, es), frame).ring[0].pid == m.nextPid
    ensures var r := Resumed(Run(Step(m, Spawn(first, pages, FirstFrame(rs, ebp, esp))), es), frame);
      && r.eip == STUB && r.esp == esp && r.ebp == ebp
      && r.edi == r.esi == r.ebx == r.edx == r.ecx == r.eax == 0
      && r.gs == rs.gs && r.fs == rs.fs && r.es == rs.es && r.ds == rs.ds && r.cs == rs.cs && r.eflags == rs.eflags
      && r.intNo == rs.intNo && r.errNo == rs.errNo
  {
    var e := Spawn(first, pages, FirstFrame(rs, ebp, esp));
    var n, k := Step(m, e), IndexOf(m.ring, m.lst) + 1;
    StepSound(m, e);
    assert n.ring[k] == Proc(m.nextPid, false, first, pages, FirstFrame(rs, ebp, esp));
    ResumesTheSavedFrame(n, es, k, frame);
  }

  ghost predicate AllOwn(ring: seq<Tcb>, fst: Tcb, lst: Tcb, nextPid: nat) {
    && fst.pages == 0 && lst.pid < nextPid
    && (forall t :: t in ring ==> t.pid < nextPid && (t.pid == lst.pid ==> t == lst) && (t != fst ==> t.OwnsARun()))
  }

  lemma FewerOwn(ring: seq<Tcb>, shorter: seq<Tcb>, fst: Tcb, lst: Tcb, nextPid: nat)
    requires AllOwn(ring, fst, lst, nextPid) && Members(shorter) <= Members(ring)
    ensures AllOwn(shorter, fst, lst, nextPid)
  {
    assert forall s :: s in shorter ==> s in Members(shorter);
  }

  lemma OneMoreOwns(ring: seq<Tcb>, longer: seq<Tcb>, fst: Tcb, lst: Tcb, t: Tcb)
    requires AllOwn(ring, fst, lst, t.pid) && t.OwnsARun() && Members(longer) == Members(ring) + {t}
    ensures AllOwn(longer, fst, t, t.pid + 1)
  {
    assert forall s :: s in longer <==> s in Members(longer);
    assert forall s :: s in ring <==> s in Members(ring);
  }

  lemma FreeBefore(ws: seq<bv32>, i: nat, n: nat)
    requires 1 <= i < TOTAL_PAGES && TOTAL_PAGES + n <= 32 * |ws| && CandidateIn(ws, i, n)
    ensures forall b: nat :: b < TOTAL_PAGES && Within(b, i, n) ==> FreeIn(ws, b)
  {
  }

  /** The ring with t in it, behind l at place j. */
  lemma InsertedRing(ring: seq<Tcb>, j: nat, l: Tcb, t: Tcb, fst: Tcb)
    requires PidsDistinct(ring) && j < |ring| && ring[j].next == t && t.next == After(ring, j)
    requires forall i :: 0 <= i < |ring| && i != j ==> ring[i].next == After(ring, i)
    requires AllOwn(ring, fst, l, t.pid) && t.OwnsARun()
    ensures var r := Inserted(ring, j, t);
      && PidsDistinct(r) && Linked(r) && AllOwn(r, fst, t, t.pid + 1) && r[0] == ring[0]
      && Members(r) == Members(ring) + {t} && forall s :: s in r <==> s in ring || s == t
  {
    var r := Inserted(ring, j, t);
    InsertedMembers(ring, j, t);
    assert forall s :: s in r <==> s in Members(r);
    assert forall s :: s in ring <==> s in Members(ring);
    OneMoreOwns(ring, r, fst, l, t);
    InsertedPids(ring, j, t);
    InsertedLinks(ring, j, t);
  }

  class Kernel {
    const pages: PageMap
    var fst: Tcb
    var lst: Tcb
    var curr: Tcb
    var nextPid: nat
    var on: bool
    var lock: nat
    var ticks: nat
    var last: nat
    /** The TCBs in the order of their links, the current one first. */
    ghost var ring: seq<Tcb>
    /** The TCBs that were linked to a reaped one, and so to nothing. Their pages are never given back. */
    ghost var lost: set<Tcb>

    ghost function View(): Machine
      reads this, ring
    {
      Machine(Values(ring), fst.pid, lst.pid, nextPid, on, lock, ticks, last)
    }

    /** The list is a ring with the current process first; lst_proc, unless reaped, is linked to fst_proc. */
    ghost predicate Shape()
      reads this, ring
    {
      && |ring| > 0 && curr == ring[0] && PidsDistinct(ring) && Linked(ring)
      && fst in ring && !fst.dead && (lst in ring ==> lst.next == fst)
    }

    /** Pids are unique, and all processes but the kernel own a run of user pages. */
    ghost predicate Owners()
      reads this
    {
      AllOwn(ring, fst, lst, nextPid)
    }

    /** Lost processes own runs too, and are not in the ring. */
    ghost predicate Losses()
      reads this
    {
      forall t :: t in lost ==> t !in ring && t.OwnsARun()
    }

    ghost function Holders(): set<Tcb>
      reads this
    {
      Members(ring) + lost
    }

    /** The runs of all holders are disjoint, and the marked user pages are exactly their union. */
    ghost predicate PagesRight(owners: set<Tcb>)
      reads pages.words
    {
      pages.Holds(TOTAL_PAGES) && Disjoint(owners) && Accounted(owners, pages) && InReach(owners, pages)
    }

    ghost predicate Valid()
      reads this, ring, pages.words
    {
      Shape() && Owners() && Losses() && PagesRight(Holders())
    }

    /** spawn_kernel_process, with the bitmap as paging_setup leaves it. */
    constructor (map0: PageMap, rs: Regs)
      requires map0.Holds(TOTAL_PAGES)
      requires forall b :: FIRST_USER_PAGE <= b < TOTAL_PAGES ==> map0.IsFree(b)
      ensures Valid() && pages == map0 && View() == Initial(rs) && fresh(ring) && lost == {}
    {
      var t := new Tcb(0, 0, 0, rs);
      t.next := t;
      pages := map0;
      fst, lst, curr, ring, lost := t, t, t, [t], {};
      nextPid, on, lock, ticks, last := 1, false, 0, 0, 0;
    }

    /** What the class keeps is what the machine's invariant says. */
    lemma ValidIsSound()
      requires Valid()
      ensures Sound(View())
    {
      var k :| 0 <= k < |ring| && ring[k] == fst;
      assert View().ring[k] == fst.Value();
    }

    /** Line 122 */
    method SaveFrame(rs: Regs)
      requires Valid()
      modifies curr`regs
      ensures Valid() && curr.regs == rs
      ensures Values(ring) == old(Values(ring))[0 := old(Values(ring))[0].(frame := rs)]
    {
      assert Linked(ring);
      curr.regs := rs;
    }

    /** switch_ctx */
    method SwitchCtx(rs: Regs) returns (r: Regs)
      requires Valid()
      modifies this`curr, this`ring, curr`regs
      ensures Valid()
      ensures View() == old(View()).(ring := Switched(old(View().ring), rs)) && r == View().ring[0].frame
    {
      SaveFrame(rs);
      r := NextProcess();
    }

    /** Lines 123-124 */
    method NextProcess() returns (r: Regs)
      requires Valid()
      modifies this`curr, this`ring
      ensures Valid() && r == Values(ring)[0].frame
      ensures Values(ring) == old(Values(ring))[1..] + [old(Values(ring))[0]]
    {
      ghost var was := ring;
      RotatedRing(was);
      RotatedValues(was);
      assert was[0].next == was[if 1 < |was| then 1 else 0];
      curr := curr.next;
      ring := Rotated(was);
      assert forall t :: t in ring <==> t in Members(ring);
      r := curr.regs;
    }

    /** Line 141: the run of the TCB behind the current one is given back. */
    method GiveBack(tmp: Tcb, ghost owners: set<Tcb>)
      requires PagesRight(owners) && tmp in owners && tmp.OwnsARun()
      modifies pages.words
      ensures PagesRight(owners - {tmp})
    {
      pages.FreePages(tmp.first, tmp.pages);
      UnlinkedPages(owners, pages, tmp);
    }

    /** Line 142. */
    method Unlink(tmp: Tcb)
      requires Shape() && Owners() && Losses() && |ring| > 1 && tmp == ring[1] && tmp != fst
      modifies this`ring, curr`next
      ensures Shape() && Owners() && Losses() && ring == Unlinked(old(ring)) && Members(ring) == old(Members(ring)) - {tmp}
      ensures Values(ring) == [old(Values(ring)[0])] + old(Values(ring)[2..])
    {
      assert ring[0].next == ring[1];
      SkipNext(tmp);
      Drop(tmp);
    }

    /** The ring without the TCB that is skipped now. */
    ghost method Drop(tmp: Tcb)
      requires PidsDistinct(ring) && |ring| > 1 && curr == ring[0] && tmp == ring[1] && tmp != fst
      requires ring[0].next == ring[if 2 < |ring| then 2 else 0]
      requires forall i :: 1 <= i < |ring| ==> ring[i].next == ring[if i + 1 < |ring| then i + 1 else 0]
      requires fst in ring && !fst.dead && Owners() && Losses() && (lst in ring ==> lst != curr && lst.next == fst)
      modifies this`ring
      ensures Shape() && Owners() && Losses() && ring == Unlinked(old(ring)) && Members(ring) == old(Members(ring)) - {tmp}
      ensures Values(ring) == [old(Values(ring)[0])] + old(Values(ring)[2..])
    {
      ghost var was := ring;
      UnlinkedMembers(was);
      FewerOwn(was, Unlinked(was), fst, lst, nextPid);
      UnlinkedRing(was);
      UnlinkedValues(was);
      ring := Unlinked(was);
      assert forall t :: t in ring <==> t in Members(ring);
      assert forall t :: t in was <==> t in Members(was);
    }

    method SkipNext(tmp: Tcb)
      requires PidsDistinct(ring) && Linked(ring) && |ring| > 1 && curr == ring[0] && tmp == ring[1]
      modifies curr`next
      ensures ring[0].next == ring[if 2 < |ring| then 2 else 0]
      ensures forall i :: 1 <= i < |ring| ==> ring[i].next == ring[if i + 1 < |ring| then i + 1 else 0]
      ensures forall t :: t in ring && t != curr ==> t.next == old(t.next)
      ensures Values(ring) == old(Values(ring))
    {
      assert ring[0].next == ring[1] && ring[1].next == ring[if 2 < |ring| then 2 else 0];
      curr.next := tmp.next;
    }

    /** Lines 140-143: the TCB behind the current one gives its pages back and is unlinked. */
    method ReapOne(tmp: Tcb)
      requires Valid() && |ring| > 1 && tmp == ring[1] && tmp.dead
      modifies this`ring, curr`next, pages.words
      ensures Valid() && ring == Unlinked(old(ring))
      ensures View() == old(View()).(ring := [old(View().ring[0])] + old(View().ring[2..]))
    {
      ghost var owners := Holders();
      assert tmp in Members(ring) && tmp !in lost;
      GiveBack(tmp, owners);
      Unlink(tmp);
      assert Holders() == owners - {tmp};
    }

    /** The current process is alone exactly if its link leads back to itself. */
    lemma AloneExactly()
      requires Shape()
      ensures curr.next != null && curr.next in ring && (curr.next == curr <==> |ring| == 1)
      ensures |ring| > 1 ==> curr.next == ring[1]
      ensures |ring| == 1 ==> !curr.dead
    {
      assert ring[0].next == ring[if 1 < |ring| then 1 else 0];
    }

    /** Lines 139-144. The loop ends at the latest at fst_proc, and never frees the current process. */
    method ReapAll()
      requires Valid()
      modifies this`ring, curr`next, pages.words
      ensures Valid() && View() == old(View()).(ring := Reap(old(View().ring)))
    {
      AloneExactly();
      while curr.next.dead
        invariant Valid() && curr.next != null && curr.next in ring
        invariant |ring| > 1 ==> curr.next == ring[1]
        invariant |ring| == 1 ==> curr.next == curr && !curr.dead
        invariant View() == old(View()).(ring := View().ring) && Reap(View().ring) == old(Reap(View().ring))
        decreases |ring|
      {
        ReapOne(curr.next);
        AloneExactly();
      }
    }

    /** curr_proc->next == curr_proc */
    method IsAlone() returns (alone: bool)
      requires Valid()
      ensures alone <==> |ring| == 1
    {
      AloneExactly();
      alone := curr.next == curr;
    }

    /** timer_handler */
    method TimerHandler(rs: Regs) returns (r: Regs)
      requires Valid()
      modifies this, curr`regs, curr`next, pages.words
      ensures Valid() && lost == old(lost)
      ensures View() == Step(old(View()), Tick(rs)) && r == Resumed(old(View()), rs)
    {
      ghost var m := View();
      ticks := Scheduling.Next(ticks);
      r := Scheduler(rs, m);
    }

    /** Line 136 */
    method Decide()
      requires Valid()
      modifies this`last
      ensures Valid() && View() == old(View()).(last := ticks)
    {
      last := ticks;
    }

    /** scheduler, at the tick after m */
    method Scheduler(rs: Regs, ghost m: Machine) returns (r: Regs)
      requires Valid() && m.ring != [] && View() == m.(ticks := Scheduling.Next(m.ticks))
      modifies this`last, this`curr, this`ring, curr`regs, curr`next, pages.words
      ensures Valid()
      ensures View() == AfterTick(m, rs) && r == Resumed(m, rs)
    {
      r := rs;
      if on && ticks > Later(last) {
        Decide();
        var alone := IsAlone();
        if lock == 0 && !alone {
          r := ReapAndSwitch(rs);
        }
      }
    }

    method ReapAndSwitch(rs: Regs) returns (r: Regs)
      requires Valid()
      modifies this`curr, this`ring, curr`regs, curr`next, pages.words
      ensures Valid()
      ensures View() == old(View()).(ring := Switched(Reap(old(View().ring)), rs)) && r == View().ring[0].frame
    {
      ReapAll();
      r := SwitchCtx(rs);
    }

    /** Line 64: a spawned process has returned from its function. */
    method Exit()
      requires Valid() && curr != fst
      modifies curr`dead
      ensures Valid() && View() == Step(old(View()), Die)
    {
      ghost var was := ring;
      curr.dead := true;
      assert Linked(was);
      assert Values(was) == old(Values(ring))[0 := old(Values(ring))[0].(dead := true)];
    }

    /** Line 197: scheduler_on = !scheduler_on */
    method Toggle()
      requires Valid()
      modifies this`on
      ensures Valid() && View() == Step(old(View()), Scheduling.Toggle)
    {
      on := !on;
    }

    /** CRITICAL_SECTION_START */
    method EnterSection()
      requires Valid()
      modifies this`lock
      ensures Valid() && View() == Step(old(View()), Scheduling.Lock)
    {
      lock := if lock == 255 then 0 else lock + 1;
    }

    /** CRITICAL_SECTION_END */
    method LeaveSection()
      requires Valid()
      modifies this`lock
      ensures Valid() && View() == Step(old(View()), Scheduling.Unlock)
    {
      lock := if lock == 0 then 255 else lock - 1;
    }

    // ---------------------------------------------------------------- spawn_process

    /** spawn_process. NULL from alloc_pages is the only error. Whatever became of lst_proc, all runs stay disjoint,
        and the marked user pages stay exactly the union of the runs of the ring and of the lost processes. */
    method SpawnProcess(rs: Regs, pageCount: nat, ebp: nat, esp: nat) returns (err: int)
      requires Valid() && pages.Holds(TOTAL_PAGES + pageCount) && TOTAL_PAGES + pageCount <= WORDS
      modifies this`lst, this`nextPid, this`ring, this`lost, lst`next, pages.words
      ensures Valid()
      ensures err == if old(NoneFound(pages.words[..], pageCount)) then 1 else 0
      ensures err == 1 ==> View() == old(View()) && ring == old(ring) && lost == old(lost)
      ensures err == 0 ==> fresh(lst) && lst.pages == pageCount
      ensures err == 0 ==> var i := lst.first / PAGE_SIZE; old(pages.Lowest(i, pageCount))
      ensures err == 0 ==> View() == Spawned(old(View()), lst.first, pageCount, FirstFrame(rs, ebp, esp))
      ensures err == 0 && old(lst in ring) ==> lst in ring && lost == old(lost)
      ensures err == 0 && old(lst !in ring) ==> lst !in ring && ring == old(ring) && lost == old(lost) + {lst}
      ensures err == 0 && pageCount > 0 && old(lost) == {} ==>
                (Accounted(Members(ring), pages) <==> old(lst in ring))
    {
      var p := AllocRun(pageCount);
      if p.None? {
        return 1;
      }
      Adopt(p.value, pageCount, FirstFrame(rs, ebp, esp));
      AccountedExactly();
      err := 0;
    }

    /** The ring alone accounts for the marked pages exactly if no process with pages is lost. */
    lemma AccountedExactly()
      requires Valid()
      ensures Accounted(Members(ring), pages) <==> forall t :: t in lost ==> t.pages == 0
    {
      if t :| t in lost && t.pages != 0 {
        var b := t.first / PAGE_SIZE;
        assert t.Holds(b) && t in Holders();
        assert !NobodyHolds(Holders(), b);
        forall s | s in Members(ring)
          ensures !s.Holds(b)
        {
          assert s in Holders() && s != t;
        }
        assert NobodyHolds(Members(ring), b);
      } else {
        forall b: nat
          ensures NobodyHolds(Members(ring), b) <==> NobodyHolds(Holders(), b)
        {
        }
      }
    }

    /** Pages no process holds, marked in the bitmap. */
    ghost predicate Unowned(page: nat, n: nat)
      requires pages.Holds(TOTAL_PAGES)
      reads this, pages.words
    {
      var i := page / PAGE_SIZE;
      && page == i * PAGE_SIZE && FIRST_USER_PAGE <= i < TOTAL_PAGES && pages.Holds(i + n)
      && (forall b: nat :: b < TOTAL_PAGES && Within(b, i, n) ==> NobodyHolds(Holders(), b))
      && forall b :: FIRST_USER_PAGE <= b < TOTAL_PAGES ==>
           (pages.IsFree(b) <==> !Within(b, i, n) && NobodyHolds(Holders(), b))
    }

    /** alloc_pages, seen from the processes: as far as they exist, the pages it marks are nobody else's. */
    method AllocRun(n: nat) returns (p: Option<nat>)
      requires Valid() && pages.Holds(TOTAL_PAGES + n) && TOTAL_PAGES + n <= WORDS
      modifies pages.words
      ensures p.None? <==> old(NoneFound(pages.words[..], n))
      ensures Shape() && Owners() && Losses() && View() == old(View()) && pages.Holds(TOTAL_PAGES)
      ensures Disjoint(Holders()) && InReach(Holders(), pages)
      ensures p.None? ==> Valid()
      ensures p.Some? ==> old(pages.Lowest(p.value / PAGE_SIZE, n)) && Unowned(p.value, n)
    {
      p := TakePages(n);
    }

    method TakePages(n: nat) returns (p: Option<nat>)
      requires PagesRight(Holders()) && pages.Holds(TOTAL_PAGES + n) && TOTAL_PAGES + n <= WORDS
      modifies pages.words
      ensures p.None? <==> old(NoneFound(pages.words[..], n))
      ensures p.None? ==> PagesRight(Holders())
      ensures p.Some? ==> old(pages.Lowest(p.value / PAGE_SIZE, n)) && Unowned(p.value, n)
    {
      ghost var was := pages.words[..];
      p := pages.AllocPages(n);
      if p.Some? {
        ghost var i := p.value / PAGE_SIZE;
        FreeBefore(was, i, n);
        assert forall b: nat :: b < TOTAL_PAGES && Within(b, i, n) ==> old(pages.IsFree(b));
      }
    }

    /** Lines 74-112: a TCB for the run is made and linked in. */
    method Adopt(page: nat, n: nat, frame: Regs)
      requires Shape() && Owners() && Losses() && pages.Holds(TOTAL_PAGES)
      requires Disjoint(Holders()) && InReach(Holders(), pages) && Unowned(page, n)
      modifies this`lst, this`nextPid, this`ring, this`lost, lst`next
      ensures Valid() && fresh(lst) && lst.pages == n && lst.first == page
      ensures View() == Spawned(old(View()), page, n, frame)
      ensures old(lst in ring) ==> lst in ring && lost == old(lost)
      ensures old(lst !in ring) ==> lst !in ring && ring == old(ring) && lost == old(lost) + {lst}
    {
      ghost var owners := Holders();
      var t := MakeTcb(page, n, frame);
      Append(t);
      assert Holders() == owners + {t};
    }

    /** Lines 74-108: the TCB of a process that will own the run. */
    method MakeTcb(page: nat, n: nat, frame: Regs) returns (t: Tcb)
      requires pages.Holds(TOTAL_PAGES) && Disjoint(Holders()) && InReach(Holders(), pages) && Unowned(page, n)
      ensures fresh(t) && t.Value() == Proc(nextPid, false, page, n, frame) && t.OwnsARun()
      ensures PagesRight(Holders() + {t})
    {
      t := new Tcb(nextPid, page, n, frame);
      InsertedPages(Holders(), t, pages);
    }

    /** Lines 110-112: the new TCB goes behind lst_proc. If that was reaped, the link is written into memory that
        is no part of the ring. */
    method Append(t: Tcb)
      requires Shape() && Owners() && Losses() && t !in ring && t !in lost && t.pid == nextPid && !t.dead && t.OwnsARun()
      modifies this`lst, this`nextPid, this`ring, this`lost, lst`next, t`next
      ensures Shape() && Owners() && Losses() && lst == t && Holders() == old(Holders()) + {t}
      ensures View() == Spawned(old(View()), t.first, t.pages, t.regs)
      ensures old(lst in ring) ==> t in ring && lost == old(lost)
      ensures old(lst !in ring) ==> t !in ring && ring == old(ring) && lost == old(lost) + {t}
    {
      ghost var l := lst;
      Link(t);
      if l in ring {
        JoinSpawned(l, t, Place(ring, l));
      } else {
        Lose(l, t);
      }
    }

    method Link(t: Tcb)
      requires t !in ring && t != lst && t.pid == nextPid
      modifies this`lst, this`nextPid, lst`next, t`next
      ensures old(lst).next == t && t.next == fst && lst == t && nextPid == t.pid + 1
      ensures forall s :: s in ring && s != old(lst) ==> s.next == old(s.next)
      ensures Values(ring) == old(Values(ring))
    {
      lst.next := t;
      lst := t;
      t.next := fst;
      nextPid := nextPid + 1;
    }

    /** lst_proc is in the ring, so the new TCB is in it now, right behind. */
    ghost method Join(l: Tcb, t: Tcb, j: nat)
      requires PidsDistinct(ring) && j < |ring| && l == ring[j] && l.next == t && t.next == fst == After(ring, j)
      requires forall i :: 0 <= i < |ring| && i != j ==> ring[i].next == After(ring, i)
      requires curr == ring[0] && fst in ring && !fst.dead && lst == t && nextPid == t.pid + 1 && !t.dead
      requires AllOwn(ring, fst, l, t.pid) && Losses() && t !in lost && t !in ring && t.OwnsARun()
      modifies this`ring
      ensures Shape() && Owners() && Losses() && t in ring && Members(ring) == old(Members(ring)) + {t}
      ensures Values(ring) == old(Values(ring))[..j + 1] + [t.Value()] + old(Values(ring))[j + 1..]
      ensures IndexOf(old(Values(ring)), l.pid) == j
    {
      ghost var was := ring;
      InsertedValues(was, j, t);
      InsertedRing(was, j, l, t, fst);
      ring := Inserted(was, j, t);
    }

    ghost method JoinSpawned(l: Tcb, t: Tcb, j: nat)
      requires PidsDistinct(ring) && j < |ring| && l == ring[j] && l.next == t && t.next == fst == After(ring, j)
      requires forall i :: 0 <= i < |ring| && i != j ==> ring[i].next == After(ring, i)
      requires curr == ring[0] && fst in ring && !fst.dead && lst == t && nextPid == t.pid + 1 && !t.dead
      requires AllOwn(ring, fst, l, t.pid) && Losses() && t !in lost && t !in ring && t.OwnsARun()
      modifies this`ring
      ensures Shape() && Owners() && Losses() && t in ring && Members(ring) == old(Members(ring)) + {t}
      ensures View() == Spawned(old(View()).(lst := l.pid, nextPid := t.pid), t.first, t.pages, t.regs)
    {
      Join(l, t, j);
    }

    /** lst_proc is not in the ring, so the new TCB is not either. */
    ghost method Lose(l: Tcb, t: Tcb)
      requires PidsDistinct(ring) && Linked(ring) && |ring| > 0 && l !in ring && t !in ring
      requires curr == ring[0] && fst in ring && !fst.dead && lst == t && nextPid == t.pid + 1 && !t.dead
      requires AllOwn(ring, fst, l, t.pid) && Losses() && t.OwnsARun()
      modifies this`lost
      ensures Shape() && Owners() && Losses() && lost == old(lost) + {t}
      ensures View() == Spawned(old(View()).(lst := l.pid, nextPid := t.pid), t.first, t.pages, t.regs)
    {
      forall i | 0 <= i < |ring|
        ensures Values(ring)[i].pid != l.pid
      {
        assert ring[i] in ring;
      }
      lost := lost + {t};
    }
  }
}
