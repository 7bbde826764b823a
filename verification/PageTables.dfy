/** kernel/src/paging.c: the page directory and the page tables, as words of physical memory. */
module PageTables {
  import opened Common

  const ENTRIES := 1024
  const TABLES := 32
  const MEMORY_SIZE := 134217728
  const MEMORY_WORDS := 33554432
  const DIRECTORY := 0x300000
  const FIRST_TABLE := 0x301000

  /** What the processor finds for a virtual address: the physical one, and whether both entries allow writes. */
  datatype Mapping = Mapping(physical: nat, writable: bool)

  /** Entries are words: bit 0 is present, bit 1 is read/write, bits 12 to 31 are a page address. */
  predicate Present(e: nat) { e % 2 == 1 }

  predicate Writable(e: nat) { e / 2 % 2 == 1 }

  function Base(e: nat): nat { e - e % PAGE_SIZE }

  /** OR-ing 3 into a page-aligned address sets present and read/write. */
  function PresentWritable(address: nat): nat
    requires address % PAGE_SIZE == 0
  {
    address + 3
  }

  /** The word at a physical address. */
  function WordOf(mem: seq<nat>, address: nat): nat
    requires address / 4 < |mem|
  {
    mem[address / 4]
  }

  /** The two-level walk for 4 KB pages: directory index t, table index i, offset f. An entry that points
      outside physical memory maps nothing. */
  function WalkBy(mem: seq<nat>, t: nat, i: nat, f: nat): Option<Mapping>
    requires |mem| == MEMORY_WORDS && t < ENTRIES && i < ENTRIES
  {
    var pde := WordOf(mem, DIRECTORY + 4 * t);
    if !Present(pde) || Base(pde) + PAGE_SIZE > MEMORY_SIZE then None
    else
      var pte := WordOf(mem, Base(pde) + 4 * i);
      if !Present(pte) then None
      else Some(Mapping(Base(pte) + f, Writable(pde) && Writable(pte)))
  }

  /** The physical address behind a 32-bit virtual one. */
  function Walk(mem: seq<nat>, a: nat): Option<Mapping>
    requires |mem| == MEMORY_WORDS && a < ENTRIES * ENTRIES * PAGE_SIZE
  {
    WalkBy(mem, a / (ENTRIES * PAGE_SIZE), a / PAGE_SIZE % ENTRIES, a % PAGE_SIZE)
  }

  const DIRECTORY_START := DIRECTORY / 4
  const TABLES_START := FIRST_TABLE / 4
  const TABLES_END := TABLES_START + TABLES * ENTRIES

  /** The directory entry at word w once the first t tables exist. */
  function DirectoryEntry(w: nat, t: nat): nat
    requires DIRECTORY_START <= w
  {
    if w - DIRECTORY_START < t then FIRST_TABLE + (w - DIRECTORY_START) * PAGE_SIZE + 3 else 2
  }

  /** The table entry at word w: the tables lie one behind the other. */
  function TableEntry(w: nat): nat
    requires TABLES_START <= w
  {
    (w - TABLES_START) * PAGE_SIZE + 3
  }

  /** What paging_setup leaves in memory. */
  ghost predicate SetUp(mem: seq<nat>) {
    && |mem| == MEMORY_WORDS
    && (forall w :: DIRECTORY_START <= w < DIRECTORY_START + ENTRIES ==> mem[w] == DirectoryEntry(w, TABLES))
    && forall w :: TABLES_START <= w < TABLES_END ==> mem[w] == TableEntry(w)
  }

  /** An address has a directory index, a table index and an offset. */
  lemma Split(a: nat, t: nat, i: nat, f: nat)
    requires a == (t * ENTRIES + i) * PAGE_SIZE + f && i < ENTRIES && f < PAGE_SIZE
    ensures a / (ENTRIES * PAGE_SIZE) == t && a / PAGE_SIZE % ENTRIES == i && a % PAGE_SIZE == f
  {
    PageSplit(a, t * ENTRIES + i, f);
    EntrySplit(a / PAGE_SIZE, t, i);
    TableSplit(a, t, i * PAGE_SIZE + f);
  }

  lemma PageSplit(a: nat, k: nat, f: nat)
    requires a == k * PAGE_SIZE + f && f < PAGE_SIZE
    ensures a / PAGE_SIZE == k && a % PAGE_SIZE == f
  {
  }

  lemma EntrySplit(k: nat, t: nat, i: nat)
    requires k == t * ENTRIES + i && i < ENTRIES
    ensures k % ENTRIES == i
  {
  }

  lemma TableSplit(a: nat, t: nat, f: nat)
    requires a == t * (ENTRIES * PAGE_SIZE) + f && f < ENTRIES * PAGE_SIZE
    ensures a / (ENTRIES * PAGE_SIZE) == t
  {
  }

  lemma Odd(e: nat, q: nat)
    requires e == 4 * q + 3
    ensures Present(e) && Writable(e)
  {
    var h := 2 * q + 1;
    assert e == 2 * h + 1 && e / 2 == h;
  }

  lemma Aligned(e: nat, k: nat)
    requires e == PAGE_SIZE * k + 3
    ensures Base(e) == PAGE_SIZE * k
  {
  }

  lemma EntryFields(k: nat)
    ensures Present(k * PAGE_SIZE + 3) && Writable(k * PAGE_SIZE + 3) && Base(k * PAGE_SIZE + 3) == k * PAGE_SIZE
  {
    Odd(k * PAGE_SIZE + 3, k * 1024);
    Aligned(k * PAGE_SIZE + 3, k);
  }

  lemma WalkSetUp(mem: seq<nat>, t: nat, i: nat, f: nat)
    requires SetUp(mem) && t < ENTRIES && i < ENTRIES && f < PAGE_SIZE
    ensures WalkBy(mem, t, i, f) == if t < TABLES then Some(Mapping((t * ENTRIES + i) * PAGE_SIZE + f, true)) else None
  {
    assert mem[DIRECTORY_START + t] == DirectoryEntry(DIRECTORY_START + t, TABLES);
    if t < TABLES {
      EntryFields(FIRST_TABLE / PAGE_SIZE + t);
      var k := t * ENTRIES + i;
      assert (FIRST_TABLE + t * PAGE_SIZE + 4 * i) / 4 == TABLES_START + k;
      assert mem[TABLES_START + k] == TableEntry(TABLES_START + k);
      EntryFields(k);
    }
  }

  /** Every address of memory is mapped to itself, writable; every higher address is not present. */
  lemma IdentityMap(mem: seq<nat>, a: nat)
    requires SetUp(mem) && a < ENTRIES * ENTRIES * PAGE_SIZE
    ensures Walk(mem, a) == if a < MEMORY_SIZE then Some(Mapping(a, true)) else None
  {
    var p, f := a / PAGE_SIZE, a % PAGE_SIZE;
    var t, i := p / ENTRIES, p % ENTRIES;
    Split(a, t, i, f);
    WalkSetUp(mem, t, i, f);
  }

  /** The words of one page, and only they, differ. */
  ghost predicate WrittenPage(a: seq<nat>, b: seq<nat>, page: nat) {
    |a| == |b| && forall w :: 0 <= w < |a| && !(page * ENTRIES <= w < (page + 1) * ENTRIES) ==> a[w] == b[w]
  }

  /** Whatever is written to user pages other than the first keeps the identity map. */
  lemma UserWritesKeepTheMap(a: seq<nat>, b: seq<nat>, page: nat)
    requires SetUp(a) && WrittenPage(a, b, page) && FIRST_USER_PAGE < page < TOTAL_PAGES
    ensures SetUp(b)
  {
  }

  /** The first user page is page table 31: a single zero written to its start unmaps 124 MB. */
  lemma FirstUserPageIsATable(a: seq<nat>)
    requires SetUp(a)
    ensures FIRST_TABLE + 31 * PAGE_SIZE == FIRST_USER_PAGE * PAGE_SIZE
    ensures var b := a[FIRST_USER_PAGE * ENTRIES := 0];
      WrittenPage(a, b, FIRST_USER_PAGE) && Walk(b, 31 * ENTRIES * PAGE_SIZE) == None
  {
    var b := a[FIRST_USER_PAGE * ENTRIES := 0];
    Split(31 * ENTRIES * PAGE_SIZE, 31, 0, 0);
    assert b[DIRECTORY_START + 31] == DirectoryEntry(DIRECTORY_START + 31, TABLES);
    EntryFields(FIRST_TABLE / PAGE_SIZE + 31);
  }

  /** Every address of memory, and no other, is mapped, to itself and writable. */
  ghost predicate Identity(mem: seq<nat>) {
    |mem| == MEMORY_WORDS &&
    forall a :: 0 <= a < ENTRIES * ENTRIES * PAGE_SIZE ==>
      Walk(mem, a) == if a < MEMORY_SIZE then Some(Mapping(a, true)) else None
  }

  lemma SetUpIsIdentity(mem: seq<nat>)
    requires SetUp(mem)
    ensures Identity(mem)
  {
    forall a | 0 <= a < ENTRIES * ENTRIES * PAGE_SIZE
      ensures Walk(mem, a) == if a < MEMORY_SIZE then Some(Mapping(a, true)) else None
    {
      IdentityMap(mem, a);
    }
  }

  /** Exactly the first of the pages handed out to users is unsafe to write. */
  lemma {:induction false} SafeExactlyBehindTheFirst(a: seq<nat>, page: nat)
    requires SetUp(a) && FIRST_USER_PAGE <= page < TOTAL_PAGES
    ensures (forall b :: WrittenPage(a, b, page) ==> Identity(b)) <==> page != FIRST_USER_PAGE
  {
    if page == FIRST_USER_PAGE {
      FirstUserPageIsATable(a);
      var b := a[FIRST_USER_PAGE * ENTRIES := 0];
      assert WrittenPage(a, b, page) && Walk(b, 31 * ENTRIES * PAGE_SIZE) == None;
    } else {
      forall b | WrittenPage(a, b, page)
        ensures Identity(b)
      {
        UserWritesKeepTheMap(a, b, page);
        SetUpIsIdentity(b);
      }
    }
  }

  /** Lines 25-38 of paging_setup. */
  method Setup(mem: array<nat>)
    requires mem.Length == MEMORY_WORDS
    modifies mem
    ensures SetUp(mem[..])
    ensures forall w :: 0 <= w < MEMORY_WORDS && !(DIRECTORY_START <= w < TABLES_END) ==> mem[w] == old(mem[w])
  {
    for i := 0 to ENTRIES
      invariant forall w :: DIRECTORY_START <= w < DIRECTORY_START + i ==> mem[w] == DirectoryEntry(w, 0)
      invariant forall w :: 0 <= w < MEMORY_WORDS && !(DIRECTORY_START <= w < DIRECTORY_START + i) ==> mem[w] == old(mem[w])
    {
      mem[DIRECTORY_START + i] := 2;
    }
    for t := 0 to TABLES
      invariant forall w :: DIRECTORY_START <= w < DIRECTORY_START + ENTRIES ==> mem[w] == DirectoryEntry(w, t)
      invariant forall w :: TABLES_START <= w < TABLES_START + t * ENTRIES ==> mem[w] == TableEntry(w)
      invariant forall w :: 0 <= w < MEMORY_WORDS && !(DIRECTORY_START <= w < TABLES_START + t * ENTRIES) ==> mem[w] == old(mem[w])
    {
      FillTable(mem, t);
      mem[DIRECTORY_START + t] := PresentWritable(FIRST_TABLE + t * PAGE_SIZE);
    }
  }

  /** Lines 31-35: one page table. */
  method FillTable(mem: array<nat>, t: nat)
    requires mem.Length == MEMORY_WORDS && t < TABLES
    modifies mem
    ensures forall w :: TABLES_START + t * ENTRIES <= w < TABLES_START + (t + 1) * ENTRIES ==> mem[w] == TableEntry(w)
    ensures forall w :: 0 <= w < MEMORY_WORDS && !(TABLES_START + t * ENTRIES <= w < TABLES_START + (t + 1) * ENTRIES)
              ==> mem[w] == old(mem[w])
  {
    var table := TABLES_START + t * ENTRIES;
    for i := 0 to ENTRIES
      invariant forall w :: table <= w < table + i ==> mem[w] == TableEntry(w)
      invariant forall w :: 0 <= w < MEMORY_WORDS && !(table <= w < table + i) ==> mem[w] == old(mem[w])
    {
      mem[table + i] := PresentWritable(t * ENTRIES * PAGE_SIZE + i * PAGE_SIZE);
    }
  }
}
