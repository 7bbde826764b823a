/** kernel/src/virtio_net.c: the driver's side of a split virtqueue. */
module Virtqueue {
  import opened Arithmetic
  import opened Common

  const IDX := 65536  // avail->idx is 16 bits wide

  const F_NEXT: bv16 := 1

  predicate HasNext(f: bv16) { f & F_NEXT != 0 }

  function WithNext(f: bv16): bv16 { f | F_NEXT }

  function WithoutNext(f: bv16): bv16 { f & !F_NEXT }

  lemma NextIsSet(f: bv16)
    ensures HasNext(WithNext(f))
  {
  }

  lemma NothingToClear(f: bv16)
    requires !HasNext(f)
    ensures WithoutNext(f) == f
  {
  }

  lemma SetAndCleared(f: bv16)
    requires !HasNext(f)
    ensures WithoutNext(WithNext(f)) == f
  {
  }

  /** What the caller wants to send: a buffer with its flags. */
  datatype Buffer = Buffer(addr: nat, len: nat, flags: bv16)

  /** An entry of the descriptor table. */
  datatype Desc = Desc(addr: nat, len: nat, flags: bv16, next: nat)

  /** j modulo num, for a counter that never wraps. */
  function Slot(j: nat, num: nat): (s: nat)
    requires num > 0
    ensures s < num
    decreases j
  {
    if j < num then j else Slot(j - num, num)
  }

  lemma {:induction false} SlotNext(j: nat, num: nat)
    requires num > 0
    ensures Slot(j + 1, num) == if Slot(j, num) + 1 == num then 0 else Slot(j, num) + 1
    decreases j
  {
    if j >= num {
      SlotNext(j - num, num);
    }
  }

  /** Counters less than num apart have different slots. */
  lemma {:induction false} SlotDistinct(i: nat, j: nat, num: nat)
    requires num > 0 && i < j < i + num
    ensures Slot(i, num) != Slot(j, num)
    decreases j
  {
    if i >= num {
      SlotDistinct(i - num, j - num, num);
    }
  }

  lemma {:induction false} SlotIsMod(j: nat, num: nat)
    requires num > 0
    ensures j % num == Slot(j, num)
    decreases j
  {
    if j >= num {
      SlotIsMod(j - num, num);
      ModStep(j, num);
    }
  }

  lemma ModStep(j: nat, num: nat)
    requires num > 0 && j >= num
    ensures j % num == (j - num) % num
  {
    var q, r := (j - num) / num, (j - num) % num;
    assert j == num * (q + 1) + r;
    DivideUnique(j, num, q + 1, r);
  }

  /** Counting in 16 bits and then modulo num is counting modulo num, exactly if num divides 2^16. */
  lemma {:induction false} WrapsExactly(num: nat)
    requires num > 0
    ensures (forall n :: 0 <= n ==> Slot(Slot(n, IDX), num) == Slot(n, num)) <==> Slot(IDX, num) == 0
  {
    if Slot(IDX, num) == 0 {
      forall n: nat
        ensures Slot(Slot(n, IDX), num) == Slot(n, num)
      {
        WrapsTwice(n, num);
      }
    } else {
      assert Slot(0, num) == 0 && Slot(0, IDX) == 0;
      assert Slot(IDX, IDX) == Slot(0, IDX);
      assert Slot(Slot(IDX, IDX), num) != Slot(IDX, num);
    }
  }

  lemma {:induction false} WrapsTwice(n: nat, num: nat)
    requires num > 0 && Slot(IDX, num) == 0
    ensures Slot(Slot(n, IDX), num) == Slot(n, num)
    decreases n
  {
    if n >= IDX {
      WrapsTwice(n - IDX, num);
      SlotSum(n - IDX, IDX, num);
    }
  }

  lemma {:induction false} SlotSum(a: nat, b: nat, num: nat)
    requires num > 0 && Slot(b, num) == 0
    ensures Slot(a + b, num) == Slot(a, num)
    decreases b
  {
    if b >= num {
      SlotSum(a, b - num, num);
      assert Slot(a + b, num) == Slot(a + b - num, num);
    }
  }

  // ------------------------------------------------------------------ what was sent

  /** Buffers whose flags leave the NEXT bit to the driver. */
  predicate Sendable(bs: seq<Buffer>, num: nat) {
    1 <= |bs| <= num && forall i :: 0 <= i < |bs| ==> !HasNext(bs[i].flags)
  }

  /** The table entry for buffer i of a send that starts at counter start. */
  function Entry(bs: seq<Buffer>, i: nat, start: nat, num: nat): Desc
    requires i < |bs| && num > 0
  {
    Desc(bs[i].addr, bs[i].len, if i + 1 < |bs| then WithNext(bs[i].flags) else bs[i].flags, Slot(start + i + 1, num))
  }

  function Entries(bs: seq<Buffer>, start: nat, num: nat): (ds: seq<Desc>)
    requires num > 0
    ensures |ds| == |bs|
  {
    seq(|bs|, i requires 0 <= i < |bs| => Entry(bs, i, start, num))
  }

  /** All the entries ever written, in order. */
  function Written(sent: seq<seq<Buffer>>, num: nat): seq<Desc>
    requires num > 0
  {
    if sent == [] then []
    else
      var before := Written(sent[..|sent| - 1], num);
      before + Entries(sent[|sent| - 1], |before|, num)
  }

  /** The counter at which send k starts. */
  function Start(sent: seq<seq<Buffer>>, k: nat, num: nat): nat
    requires num > 0 && k <= |sent|
  {
    |Written(sent[..k], num)|
  }

  lemma {:induction false} WrittenAt(sent: seq<seq<Buffer>>, k: nat, i: nat, num: nat)
    requires num > 0 && k < |sent| && i < |sent[k]|
    ensures Start(sent, k, num) + |sent[k]| == Start(sent, k + 1, num) <= |Written(sent, num)|
    ensures Written(sent, num)[Start(sent, k, num) + i] == Entry(sent[k], i, Start(sent, k, num), num)
    decreases |sent|
  {
    var n := |sent| - 1;
    var s := sent[..n];
    assert sent[..|sent|] == sent;
    if k < n {
      WrittenAt(s, k, i, num);
      assert s[..k] == sent[..k] && s[..k + 1] == sent[..k + 1];
    } else {
      assert sent[..k] == s && sent[..k + 1] == sent;
    }
  }

  lemma {:induction false} StartGrows(sent: seq<seq<Buffer>>, k: nat, l: nat, num: nat)
    requires num > 0 && k <= l <= |sent| && forall j :: k <= j < l ==> sent[j] != []
    ensures Start(sent, k, num) + (l - k) <= Start(sent, l, num)
    decreases l - k
  {
    if k < l {
      WrittenAt(sent, l - 1, 0, num);
      StartGrows(sent, k, l - 1, num);
    }
  }

  lemma {:induction false} StartOrder(sent: seq<seq<Buffer>>, k: nat, l: nat, num: nat)
    requires num > 0 && k <= l <= |sent|
    ensures Start(sent, k, num) <= Start(sent, l, num)
    decreases l - k
  {
    if k < l {
      StartOrder(sent, k, l - 1, num);
      assert sent[..l][..l - 1] == sent[..l - 1];
    }
  }

  /** The table holds the last num elements of all, each at its counter modulo num. */
  ghost predicate Recent<T>(table: seq<T>, all: seq<T>, num: nat) {
    num > 0 && |table| == num &&
    forall j {:trigger all[j]} :: 0 <= j < |all| && |all| <= j + num ==> table[Slot(j, num)] == all[j]
  }

  lemma RecentStep<T>(table: seq<T>, all: seq<T>, num: nat, e: T)
    requires Recent(table, all, num)
    ensures Recent(table[Slot(|all|, num) := e], all + [e], num)
  {
    forall j | 0 <= j < |all| && |all| + 1 <= j + num
      ensures Slot(j, num) != Slot(|all|, num)
    {
      SlotDistinct(j, |all|, num);
    }
  }

  /** The entries written after i buffers of the next send. */
  function Partial(bs: seq<Buffer>, all: seq<Desc>, i: nat, num: nat): (p: seq<Desc>)
    requires num > 0 && i <= |bs|
  {
    all + Entries(bs, |all|, num)[..i]
  }

  lemma PartialEnds(bs: seq<Buffer>, all: seq<Desc>, num: nat)
    requires num > 0
    ensures Partial(bs, all, 0, num) == all
    ensures Partial(bs, all, |bs|, num) == all + Entries(bs, |all|, num)
  {
    var es := Entries(bs, |all|, num);
    assert es[..|bs|] == es;
  }

  lemma PartialStep(bs: seq<Buffer>, all: seq<Desc>, i: nat, num: nat)
    requires num > 0 && i < |bs|
    ensures |Partial(bs, all, i, num)| == |all| + i
    ensures Partial(bs, all, i + 1, num) == Partial(bs, all, i, num) + [Entry(bs, i, |all|, num)]
  {
    var es := Entries(bs, |all|, num);
    assert es[..i + 1] == es[..i] + [es[i]];
  }

  /** The heads of all sends, in order. */
  function Heads(sent: seq<seq<Buffer>>, num: nat): (hs: seq<nat>)
    requires num > 0
    ensures |hs| == |sent|
  {
    seq(|sent|, k requires 0 <= k < |sent| => Slot(Start(sent, k, num), num))
  }

  lemma SendAppends(sent: seq<seq<Buffer>>, bs: seq<Buffer>, num: nat)
    requires num > 0
    ensures Written(sent + [bs], num) == Written(sent, num) + Entries(bs, |Written(sent, num)|, num)
    ensures Heads(sent + [bs], num) == Heads(sent, num) + [Slot(|Written(sent, num)|, num)]
  {
    var after := sent + [bs];
    assert after[..|sent|] == sent;
    forall k | 0 <= k < |sent|
      ensures Heads(after, num)[k] == Heads(sent, num)[k]
    {
      assert after[..k] == sent[..k];
    }
  }

  // ------------------------------------------------------------------ the device's side

  /** One step of the device through the table: the entry it read. */
  datatype Visit = Visit(index: nat, buffer: Buffer)

  /** The chain that the device reads from head on, as section 2.7.5 of VirtIO 1.3 says: entry after entry while
      the NEXT flag is set. None if it does not end within fuel entries or leaves the table. */
  function Walk(desc: seq<Desc>, head: nat, fuel: nat): Option<seq<Visit>>
    decreases fuel
  {
    if fuel == 0 || head >= |desc| then None
    else
      var d := desc[head];
      var v := Visit(head, Buffer(d.addr, d.len, WithoutNext(d.flags)));
      if !HasNext(d.flags) then Some([v])
      else
        match Walk(desc, d.next, fuel - 1)
        case None => None
        case Some(vs) => Some([v] + vs)
  }

  lemma EntryFlags(bs: seq<Buffer>, i: nat, start: nat, num: nat)
    requires num > 0 && Sendable(bs, num) && i < |bs|
    ensures HasNext(Entry(bs, i, start, num).flags) <==> i + 1 < |bs|
    ensures WithoutNext(Entry(bs, i, start, num).flags) == bs[i].flags
  {
    NextIsSet(bs[i].flags);
    NothingToClear(bs[i].flags);
    SetAndCleared(bs[i].flags);
  }

  /** What the device should read for a send. */
  function Expected(bs: seq<Buffer>, start: nat, num: nat): seq<Visit>
    requires num > 0
  {
    seq(|bs|, i requires 0 <= i < |bs| => Visit(Slot(start + i, num), bs[i]))
  }

  lemma {:induction false} WalkFrom(desc: seq<Desc>, bs: seq<Buffer>, i: nat, start: nat, num: nat)
    requires |desc| == num > 0 && Sendable(bs, num) && i < |bs|
    requires forall j :: i <= j < |bs| ==> desc[Slot(start + j, num)] == Entry(bs, j, start, num)
    ensures Walk(desc, Slot(start + i, num), num - i) == Some(Expected(bs, start, num)[i..])
    decreases |bs| - i
  {
    EntryFlags(bs, i, start, num);
    assert desc[Slot(start + i, num)] == Entry(bs, i, start, num);
    var e := Expected(bs, start, num);
    if i + 1 < |bs| {
      WalkFrom(desc, bs, i + 1, start, num);
      assert e[i..] == [e[i]] + e[i + 1..];
    } else {
      assert e[i..] == [e[i]];
    }
  }

  lemma SentRecent(desc: seq<Desc>, ring: seq<nat>, sent: seq<seq<Buffer>>, bs: seq<Buffer>, num: nat)
    requires num > 0
    requires var all := Written(sent, num); Recent(desc, all + Entries(bs, |all|, num), num)
    requires Recent(ring, Heads(sent, num) + [Slot(|Written(sent, num)|, num)], num)
    ensures Recent(desc, Written(sent + [bs], num), num) && Recent(ring, Heads(sent + [bs], num), num)
    ensures |Written(sent + [bs], num)| == |Written(sent, num)| + |bs|
  {
    SendAppends(sent, bs, num);
  }

  class Vring {
    const num: nat
    const desc: array<Desc>
    const ring: array<nat>
    var idx: nat
    var descNextIdx: nat
    ghost var sent: seq<seq<Buffer>>

    /** The table holds the last num entries written, the ring the last num heads, and the two indices are the
        counters, one modulo num and one modulo 2^16. */
    ghost predicate Valid()
      reads this, desc, ring
    {
      && num > 0 && Slot(IDX, num) == 0 && desc.Length == num && ring.Length == num
      && Recent(desc[..], Written(sent, num), num) && Recent(ring[..], Heads(sent, num), num)
      && descNextIdx == Slot(|Written(sent, num)|, num) && idx == Slot(|sent|, IDX)
    }

    /** A fresh queue: calloc has cleared everything. */
    constructor (num: nat, desc: array<Desc>, ring: array<nat>)
      requires num > 0 && Slot(IDX, num) == 0 && desc.Length == num && ring.Length == num
      ensures Valid() && sent == [] && this.num == num && this.desc == desc && this.ring == ring
    {
      this.num, this.desc, this.ring := num, desc, ring;
      idx, descNextIdx, sent := 0, 0, [];
    }

    /** Lines 191-203 for buffer i: one entry of the table is written, field by field. */
    method WriteEntry(d: nat, b: Buffer, more: bool) returns (next: nat)
      requires num > 0 && d < num == desc.Length
      modifies desc
      ensures next == if d + 1 == num then 0 else d + 1
      ensures desc[..] == old(desc[..])[d := Desc(b.addr, b.len, if more then WithNext(b.flags) else b.flags, next)]
    {
      next := (d + 1) % num;
      SlotIsMod(d + 1, num);
      SlotNext(d, num);
      desc[d] := desc[d].(flags := b.flags);
      if more {
        desc[d] := desc[d].(flags := WithNext(desc[d].flags));
      }
      desc[d] := desc[d].(next := next);
      desc[d] := desc[d].(len := b.len);
      desc[d] := desc[d].(addr := b.addr);
    }

    /** Lines 189-204: the buffers fill the table from where the last send ended. */
    method WriteChain(buffers: seq<Buffer>, ghost all: seq<Desc>) returns (d: nat)
      requires num > 0 && desc.Length == num && descNextIdx == Slot(|all|, num) && Recent(desc[..], all, num)
      modifies desc
      ensures d == Slot(|all| + |buffers|, num) && Recent(desc[..], all + Entries(buffers, |all|, num), num)
    {
      d := descNextIdx;
      PartialEnds(buffers, all, num);
      for i := 0 to |buffers|
        invariant d == Slot(|all| + i, num)
        invariant Recent(desc[..], Partial(buffers, all, i, num), num)
      {
        PartialStep(buffers, all, i, num);
        d := WriteNext(d, buffers[i], i != |buffers| - 1, Partial(buffers, all, i, num), Entry(buffers, i, |all|, num));
      }
    }

    method WriteNext(d: nat, b: Buffer, more: bool, ghost all: seq<Desc>, ghost e: Desc) returns (next: nat)
      requires num > 0 && desc.Length == num && d == Slot(|all|, num) && Recent(desc[..], all, num)
      requires e == Desc(b.addr, b.len, if more then WithNext(b.flags) else b.flags, Slot(|all| + 1, num))
      modifies desc
      ensures next == Slot(|all| + 1, num) && Recent(desc[..], all + [e], num)
    {
      SlotNext(|all|, num);
      RecentStep(desc[..], all, num, e);
      next := WriteEntry(d, b, more);
    }

    /** virtio_send_descriptor */
    method Send(buffers: seq<Buffer>)
      requires Valid()
      modifies this`idx, this`descNextIdx, this`sent, desc, ring
      ensures Valid() && sent == old(sent) + [buffers]
    {
      ghost var was, all, heads := sent, Written(sent, num), Heads(sent, num);
      Place(buffers, all, heads);
      SentRecent(desc[..], ring[..], was, buffers, num);
      SlotNext(|was|, IDX);
      idx := if idx + 1 == IDX then 0 else idx + 1;
      sent := was + [buffers];
    }

    /** Lines 188-206: the ring and the table after the send. */
    method Place(buffers: seq<Buffer>, ghost all: seq<Desc>, ghost heads: seq<nat>)
      requires num > 0 && Slot(IDX, num) == 0 && desc.Length == num && ring.Length == num
      requires Recent(desc[..], all, num) && Recent(ring[..], heads, num)
      requires descNextIdx == Slot(|all|, num) && idx == Slot(|heads|, IDX)
      modifies this`descNextIdx, desc, ring
      ensures Recent(desc[..], all + Entries(buffers, |all|, num), num)
      ensures Recent(ring[..], heads + [Slot(|all|, num)], num)
      ensures descNextIdx == Slot(|all| + |buffers|, num)
    {
      OfferHead(heads);
      descNextIdx := WriteChain(buffers, all);
    }

    /** Line 188: the head of the next chain goes into the available ring. */
    method OfferHead(ghost heads: seq<nat>)
      requires num > 0 && Slot(IDX, num) == 0 && ring.Length == num
      requires Recent(ring[..], heads, num) && idx == Slot(|heads|, IDX)
      modifies ring
      ensures Recent(ring[..], heads + [descNextIdx], num)
    {
      SlotIsMod(idx, num);
      WrapsTwice(|heads|, num);
      RecentStep(ring[..], heads, num, descNextIdx);
      ghost var was := ring[..];
      ring[idx % num] := descNextIdx;
      assert ring[..] == was[Slot(|heads|, num) := descNextIdx];
    }

    /** A send is outstanding at most as long as it and all later ones together have no more than num buffers.
        Then its slot of the available ring names a head from which the device reads exactly its buffers, in
        order, and stops, however often the table and the 16-bit index have wrapped. */
    lemma Readable(k: nat)
      requires Valid() && k < |sent| && Sendable(sent[k], num) && |Written(sent, num)| <= Start(sent, k, num) + num
      requires |sent| <= k + num || forall m :: k <= m < |sent| ==> sent[m] != []
      ensures ring[Slot(k, num)] == Slot(Start(sent, k, num), num)
      ensures Walk(desc[..], ring[Slot(k, num)], num) == Some(Expected(sent[k], Start(sent, k, num), num))
    {
      HeadInRing(ring[..], sent, k, num);
      ChainInTable(desc[..], sent, k, num);
    }
  }

  lemma HeadInRing(ring: seq<nat>, sent: seq<seq<Buffer>>, k: nat, num: nat)
    requires num > 0 && k < |sent| && |Written(sent, num)| <= Start(sent, k, num) + num
    requires |sent| <= k + num || forall m :: k <= m < |sent| ==> sent[m] != []
    requires Recent(ring, Heads(sent, num), num)
    ensures ring[Slot(k, num)] == Slot(Start(sent, k, num), num)
  {
    if |sent| > k + num {
      StartGrows(sent, k, |sent|, num);
    }
    assert sent[..|sent|] == sent;
    assert Heads(sent, num)[k] == Slot(Start(sent, k, num), num);
  }

  lemma ChainInTable(desc: seq<Desc>, sent: seq<seq<Buffer>>, k: nat, num: nat)
    requires num > 0 && k < |sent| && |Written(sent, num)| <= Start(sent, k, num) + num
    requires Sendable(sent[k], num) && Recent(desc, Written(sent, num), num)
    ensures Walk(desc, Slot(Start(sent, k, num), num), num) == Some(Expected(sent[k], Start(sent, k, num), num))
  {
    var bs, start := sent[k], Start(sent, k, num);
    forall j | 0 <= j < |bs|
      ensures desc[Slot(start + j, num)] == Entry(bs, j, start, num)
    {
      WrittenAt(sent, k, j, num);
    }
    WalkFrom(desc, bs, 0, start, num);
    var e := Expected(bs, start, num);
    assert e[0..] == e;
  }

  /** The table entries of two outstanding sends are all different. */
  lemma ChainsDisjoint(sent: seq<seq<Buffer>>, k: nat, l: nat, i: nat, j: nat, num: nat)
    requires num > 0 && k < l < |sent| && i < |sent[k]| && j < |sent[l]|
    requires |Written(sent, num)| <= Start(sent, k, num) + num
    ensures Expected(sent[k], Start(sent, k, num), num)[i].index != Expected(sent[l], Start(sent, l, num), num)[j].index
  {
    WrittenAt(sent, k, i, num);
    WrittenAt(sent, l, j, num);
    StartOrder(sent, k + 1, l, num);
    SlotDistinct(Start(sent, k, num) + i, Start(sent, l, num) + j, num);
  }

  // ------------------------------------------------------------------ how long an entry stays

  /** n sends of one buffer each, all different. */
  function Singles(n: nat): (sent: seq<seq<Buffer>>)
    ensures |sent| == n
  {
    seq(n, j requires 0 <= j < n => [Buffer(j, 0, 0)])
  }

  function Single(j: nat, num: nat): Desc
    requires num > 0
  {
    Desc(j, 0, 0, Slot(j + 1, num))
  }

  /** A table of num entries after those sends. */
  function Filled(n: nat, num: nat): (table: seq<Desc>)
    requires num > 0
    ensures |table| == num
    decreases n, num
  {
    if n == 0 then seq(num, _ => Desc(0, 0, 0, 0)) else Filled(n - 1, num)[Slot(n - 1, num) := Single(n - 1, num)]
  }

  lemma {:induction false} SinglesWritten(n: nat, num: nat)
    requires num > 0
    ensures |Written(Singles(n), num)| == n
    ensures n > 0 ==> Written(Singles(n), num) == Written(Singles(n - 1), num) + [Single(n - 1, num)]
    decreases n, num
  {
    if n > 0 {
      SinglesWritten(n - 1, num);
      assert Singles(n)[..n - 1] == Singles(n - 1);
      assert Entries([Buffer(n - 1, 0, 0)], n - 1, num) == [Single(n - 1, num)];
    }
  }

  lemma {:induction false} SinglesAt(n: nat, num: nat, i: nat)
    requires num > 0 && i < n
    ensures |Written(Singles(n), num)| == n && Written(Singles(n), num)[i].addr == i
    decreases n, num
  {
    SinglesWritten(n, num);
    SinglesWritten(n - 1, num);
    if i < n - 1 {
      SinglesAt(n - 1, num, i);
    }
  }

  lemma {:induction false} FilledRecent(n: nat, num: nat)
    requires num > 0
    ensures Recent(Filled(n, num), Written(Singles(n), num), num)
    decreases n, num
  {
    SinglesWritten(n, num);
    if n > 0 {
      FilledRecent(n - 1, num);
      SinglesWritten(n - 1, num);
      RecentStep(Filled(n - 1, num), Written(Singles(n - 1), num), num, Single(n - 1, num));
    }
  }

  lemma {:induction false} FilledOver(n: nat, num: nat, i: nat)
    requires num > 0 && i + num < n
    ensures Filled(n, num)[Slot(i, num)].addr != i
    decreases n
  {
    if Slot(n - 1, num) != Slot(i, num) {
      assert n - 1 != i + num;
      FilledOver(n - 1, num, i);
    }
  }

  ghost predicate AllSendable(sent: seq<seq<Buffer>>, num: nat) {
    forall k :: 0 <= k < |sent| ==> Sendable(sent[k], num)
  }

  /** The table as n entries leave it. */
  ghost predicate Reachable(sent: seq<seq<Buffer>>, table: seq<Desc>, n: nat, num: nat)
    requires num > 0
  {
    AllSendable(sent, num) && |Written(sent, num)| == n && Recent(table, Written(sent, num), num)
  }

  /** What Readable asks for is needed: when n entries have been written, by whatever sends, entry i is sure to be in
      the table exactly if no more than num of them were written from it on. */
  lemma {:induction false} StaysExactly(n: nat, num: nat, i: nat)
    requires num > 0 && i < n
    ensures (forall sent, table :: Reachable(sent, table, n, num) ==> table[Slot(i, num)] == Written(sent, num)[i])
       <==> n <= i + num
  {
    if i + num < n {
      FilledRecent(n, num);
      FilledOver(n, num, i);
      SinglesAt(n, num, i);
      assert Reachable(Singles(n), Filled(n, num), n, num);
    }
  }

  // ------------------------------------------------------------------ vring_need_event

  type Index = i: int | 0 <= i < IDX  // uint16_t

  /** Subtraction in 16 bits. */
  function Minus(a: Index, b: Index): Index {
    if b <= a then a - b else a - b + IDX
  }

  /** vring_need_event */
  predicate NeedEvent(event: Index, now: Index, before: Index) {
    Minus(Minus(now, event), 1) < Minus(now, before)
  }

  /** The index j places behind i. */
  function Later(i: Index, j: Index): Index {
    if i + j < IDX then i + j else i + j - IDX
  }

  /** When the index has moved on by n places, the other side is to be notified exactly if one of the places
      passed is the one it waits for, whether or not the 16 bits have wrapped in between. */
  lemma NeedEventExactly(event: Index, before: Index, n: Index)
    ensures NeedEvent(event, Later(before, n), before) <==> exists j: Index :: j < n && Later(before, j) == event
  {
    var k := Minus(event, before);
    assert Later(before, k) == event;
  }
}
