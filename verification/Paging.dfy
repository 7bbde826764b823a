/** kernel/src/paging.c: the bitmap of physical pages. */
module Paging {
  import opened Common

  /** k as a bit vector. */
  function Bits(k: nat): bv32 {
    if k == 0 then 0 else Bits(k - 1) + 1
  }

  lemma BitsBounded(k: nat)
    requires k < 32
    ensures Bits(k) < 32
  {
    assert Bits(8) == 8 && Bits(16) == 16 && Bits(24) == 24 && Bits(31) == 31;
  }

  lemma {:induction false} BitsOrdered(a: nat, b: nat)
    requires a < b < 32
    ensures Bits(a) < Bits(b) < 32
    decreases b
  {
    BitsBounded(b);
    BitsBounded(b - 1);
    if a < b - 1 {
      BitsOrdered(a, b - 1);
    }
  }

  function One(k: bv32): bv32
    requires k < 32
  {
    (1 as bv32) << k
  }

  predicate Clear(w: bv32, k: bv32)
    requires k < 32
  {
    w & One(k) == 0
  }

  function Put(w: bv32, k: bv32): bv32
    requires k < 32
  {
    w | One(k)
  }

  function Drop(w: bv32, k: bv32): bv32
    requires k < 32
  {
    w & !One(k)
  }

  lemma SameBitAfter(w: bv32, a: bv32)
    requires a < 32
    ensures !Clear(Put(w, a), a)
    ensures Clear(Drop(w, a), a)
  {
  }

  lemma OtherBitAfter(w: bv32, a: bv32, b: bv32)
    requires a < 32 && b < 32 && a != b
    ensures Put(w, a) & One(b) == w & One(b)
    ensures Drop(w, a) & One(b) == w & One(b)
  {
  }

  lemma BitsDistinct(a: nat, b: nat)
    requires a < 32 && b < 32
    ensures Bits(a) < 32 && Bits(b) < 32 && (Bits(a) == Bits(b) <==> a == b)
  {
    BitsBounded(a);
    BitsBounded(b);
    if a < b { BitsOrdered(a, b); } else if b < a { BitsOrdered(b, a); }
  }

  /** bit & 31 */
  function Low(bit: nat): (k: bv32)
    ensures k < 32
  {
    BitsBounded(bit % 32);
    Bits(bit % 32)
  }

  lemma SameBit(a: nat, b: nat)
    ensures a == b <==> a / 32 == b / 32 && Low(a) == Low(b)
  {
    BitsDistinct(a % 32, b % 32);
  }

  /** The bits i, ..., i + n - 1. */
  predicate Within(b: nat, i: nat, n: nat) { i <= b < i + n }

  // ------------------------------------------------------------------ bits in words

  /** Bit b of a bitmap is clear: the page is free. */
  predicate FreeIn(ws: seq<bv32>, b: nat)
    requires b < 32 * |ws|
  {
    Clear(ws[b / 32], Low(b))
  }

  /** What lines 70-78 test for page i: it and page i + n - 1 are free, and those between, up to the last page. */
  predicate CandidateIn(ws: seq<bv32>, i: nat, n: nat)
    requires 1 <= i < TOTAL_PAGES && TOTAL_PAGES + n <= 32 * |ws|
  {
    FreeIn(ws, i) && FreeIn(ws, i + n - 1) && forall j :: i < j < TOTAL_PAGES && j < i + n ==> FreeIn(ws, j)
  }

  /** n free pages from i on, all of them existing. */
  ghost predicate RunIn(ws: seq<bv32>, i: nat, n: nat)
    requires TOTAL_PAGES <= 32 * |ws|
  {
    FIRST_USER_PAGE <= i && i + n <= TOTAL_PAGES && forall j :: i <= j < i + n ==> FreeIn(ws, j)
  }

  /** alloc_pages returns NULL. */
  ghost predicate NoneFound(ws: seq<bv32>, n: nat)
    requires TOTAL_PAGES + n <= 32 * |ws|
  {
    forall i :: FIRST_USER_PAGE <= i < TOTAL_PAGES ==> !CandidateIn(ws, i, n)
  }

  /** Lines 69-82 lack the check that the run ends inside memory. Where page_bitmap has no run of n pages, NULL
      is nevertheless returned, whatever the memory behind the bitmap holds, exactly if one page is wanted or
      the very last page is taken. */
  lemma NullExactly(map0: seq<bv32>, n: nat)
    requires 32 * |map0| == TOTAL_PAGES && 1 <= n
    requires forall i :: FIRST_USER_PAGE <= i < TOTAL_PAGES ==> !RunIn(map0, i, n)
    ensures (forall behind: seq<bv32> :: TOTAL_PAGES + n <= 32 * |map0 + behind| ==> NoneFound(map0 + behind, n))
       <==> (n == 1 || !FreeIn(map0, TOTAL_PAGES - 1))
  {
    if n == 1 || !FreeIn(map0, TOTAL_PAGES - 1) {
      forall behind: seq<bv32> | TOTAL_PAGES + n <= 32 * |map0 + behind|
        ensures NoneFound(map0 + behind, n)
      {
        LastPageTaken(map0, behind, n);
      }
    } else {
      var behind := seq(n, _ => 0 as bv32);
      LastPageFree(map0, behind, n);
      assert !NoneFound(map0 + behind, n);
    }
  }

  /** A candidate is a run of existing pages, or it reaches past the last page, which it has found free. */
  lemma CandidateMeans(ws: seq<bv32>, i: nat, n: nat)
    requires FIRST_USER_PAGE <= i < TOTAL_PAGES && 1 <= n && TOTAL_PAGES + n <= 32 * |ws|
    ensures i + n <= TOTAL_PAGES ==> (CandidateIn(ws, i, n) <==> RunIn(ws, i, n))
    ensures i + n > TOTAL_PAGES && CandidateIn(ws, i, n) ==> n > 1 && FreeIn(ws, TOTAL_PAGES - 1)
  {
  }

  lemma LastPageTaken(map0: seq<bv32>, behind: seq<bv32>, n: nat)
    requires 32 * |map0| == TOTAL_PAGES && 1 <= n && TOTAL_PAGES + n <= 32 * |map0 + behind|
    requires n == 1 || !FreeIn(map0, TOTAL_PAGES - 1)
    requires forall i :: FIRST_USER_PAGE <= i < TOTAL_PAGES ==> !RunIn(map0, i, n)
    ensures NoneFound(map0 + behind, n)
  {
    var ws := map0 + behind;
    SameBits(map0, behind);
    forall i | FIRST_USER_PAGE <= i < TOTAL_PAGES
      ensures !CandidateIn(ws, i, n)
    {
      CandidateMeans(ws, i, n);
      assert RunIn(ws, i, n) <==> RunIn(map0, i, n);
    }
  }

  lemma SameBits(map0: seq<bv32>, behind: seq<bv32>)
    ensures forall b :: 0 <= b < 32 * |map0| ==> FreeIn(map0 + behind, b) == FreeIn(map0, b)
  {
  }

  lemma LastPageFree(map0: seq<bv32>, behind: seq<bv32>, n: nat)
    requires 32 * |map0| == TOTAL_PAGES && 2 <= n <= |behind| && FreeIn(map0, TOTAL_PAGES - 1)
    requires forall w :: 0 <= w < |behind| ==> behind[w] == 0
    ensures CandidateIn(map0 + behind, TOTAL_PAGES - 1, n)
  {
    var ws, b := map0 + behind, TOTAL_PAGES + n - 2;
    SameBits(map0, behind);
    assert ws[b / 32] == 0;
  }

  // ------------------------------------------------------------------ the bitmap

  class PageMap {
    /** page_bitmap, and the memory behind it that a run past its end would reach. */
    const words: array<bv32>

    predicate Holds(bits: nat) { bits <= 32 * words.Length }

    /** __is_page_free */
    predicate IsFree(bit: nat)
      requires Holds(bit + 1)
      reads words
    {
      FreeIn(words[..], bit)
    }

    /** page_bitmap is zero when the kernel starts; lines 40-46 mark everything below the user pages. */
    constructor (memory: array<bv32>)
      requires memory.Length >= TOTAL_PAGES / 32
      requires forall w :: 0 <= w < TOTAL_PAGES / 32 ==> memory[w] == 0
      modifies memory
      ensures words == memory && Holds(TOTAL_PAGES)
      ensures forall b :: 0 <= b < TOTAL_PAGES ==> (IsFree(b) <==> b >= FIRST_USER_PAGE)
      ensures forall w :: TOTAL_PAGES / 32 <= w < memory.Length ==> memory[w] == old(memory[w])
    {
      words := memory;
      new;
      for i := 0 to TOTAL_PAGES / PAGE_SIZE
        invariant forall w :: 0 <= w < TOTAL_PAGES / 32 ==> memory[w] == 0
        invariant forall w :: TOTAL_PAGES / 32 <= w < memory.Length ==> memory[w] == old(memory[w])
      {
        words[i] := 0;
      }
      forall b | 0 <= b < TOTAL_PAGES
        ensures IsFree(b)
      {
        assert words[b / 32] == 0;
      }
      for i := 0 to FIRST_USER_PAGE
        invariant forall b :: 0 <= b < TOTAL_PAGES ==> (IsFree(b) <==> b >= i)
        invariant forall w :: TOTAL_PAGES / 32 <= w < memory.Length ==> memory[w] == old(memory[w])
      {
        MarkPage(i);
      }
    }

    /** __alloc_page */
    method MarkPage(bit: nat)
      requires Holds(bit + 1)
      modifies words
      ensures forall b :: 0 <= b && Holds(b + 1) ==> (IsFree(b) <==> b != bit && old(IsFree(b)))
      ensures forall w :: 0 <= w < words.Length && w != bit / 32 ==> words[w] == old(words[w])
    {
      ghost var before := words[..];
      words[bit / 32] := Put(words[bit / 32], Low(bit));
      forall b: nat | Holds(b + 1)
        ensures IsFree(b) <==> b != bit && old(IsFree(b))
      {
        SameBit(b, bit);
        if b == bit {
          SameBitAfter(before[bit / 32], Low(b));
        } else if b / 32 == bit / 32 {
          OtherBitAfter(before[bit / 32], Low(bit), Low(b));
        }
      }
    }

    /** __free_page */
    method ClearPage(bit: nat)
      requires Holds(bit + 1)
      modifies words
      ensures forall b :: 0 <= b && Holds(b + 1) ==> (IsFree(b) <==> b == bit || old(IsFree(b)))
      ensures forall w :: 0 <= w < words.Length && w != bit / 32 ==> words[w] == old(words[w])
    {
      ghost var before := words[..];
      words[bit / 32] := Drop(words[bit / 32], Low(bit));
      forall b: nat | Holds(b + 1)
        ensures IsFree(b) <==> b == bit || old(IsFree(b))
      {
        SameBit(b, bit);
        if b == bit {
          SameBitAfter(before[bit / 32], Low(b));
        } else if b / 32 == bit / 32 {
          OtherBitAfter(before[bit / 32], Low(bit), Low(b));
        }
      }
    }

    predicate Candidate(i: nat, n: nat)
      requires 1 <= i < TOTAL_PAGES && Holds(TOTAL_PAGES + n)
      reads words
    {
      CandidateIn(words[..], i, n)
    }

    ghost predicate FreeRun(i: nat, n: nat)
      requires Holds(TOTAL_PAGES)
      reads words
    {
      RunIn(words[..], i, n)
    }

    lemma CandidateIs(i: nat, n: nat)
      requires 1 <= i < TOTAL_PAGES && Holds(TOTAL_PAGES + n)
      ensures Candidate(i, n) <==>
                IsFree(i) && IsFree(i + n - 1) && forall j :: i < j < TOTAL_PAGES && j < i + n ==> IsFree(j)
    {
      forall j | i < j < TOTAL_PAGES && j < i + n
        ensures IsFree(j) <==> FreeIn(words[..], j)
      {
      }
    }

    lemma RunIsCandidate(i: nat, n: nat)
      requires 1 <= n && FIRST_USER_PAGE <= i < TOTAL_PAGES && Holds(TOTAL_PAGES + n)
      ensures FreeRun(i, n) <==> Candidate(i, n) && i + n <= TOTAL_PAGES
    {
    }

    /** The lowest candidate. */
    ghost predicate Lowest(i: nat, n: nat)
      requires Holds(TOTAL_PAGES + n)
      reads words
    {
      FIRST_USER_PAGE <= i < TOTAL_PAGES && Candidate(i, n) && forall k :: FIRST_USER_PAGE <= k < i ==> !Candidate(k, n)
    }

    /** If some run of n free pages exists, the lowest candidate is the lowest such run. */
    lemma LowestRun(i: nat, n: nat, r: nat)
      requires 1 <= n && Holds(TOTAL_PAGES + n) && Lowest(i, n) && FreeRun(r, n)
      ensures i <= r && FreeRun(i, n) && forall k :: 0 <= k < i ==> !FreeRun(k, n)
    {
      RunIsCandidate(r, n);
      RunIsCandidate(i, n);
      forall k: nat | k < i
        ensures !FreeRun(k, n)
      {
        if k >= FIRST_USER_PAGE { RunIsCandidate(k, n); }
      }
    }

    /** The check lines 69-82 lack: no free tail of memory is shorter than n and has, n - 1 bits on, a clear
        bit behind the bitmap. A caller can make sure of it by LastPageDecides. */
    ghost predicate NoOverrun(n: nat)
      requires 1 <= n && Holds(TOTAL_PAGES + n)
      reads words
    {
      forall i :: FIRST_USER_PAGE <= i < TOTAL_PAGES && TOTAL_PAGES < i + n ==> !Candidate(i, n)
    }

    /** The bits behind the bitmap do not matter if one page is wanted or the last page is taken. */
    lemma LastPageDecides(n: nat)
      requires 1 <= n && Holds(TOTAL_PAGES + n)
      ensures n == 1 || !IsFree(TOTAL_PAGES - 1) ==> NoOverrun(n)
      ensures n >= 2 && IsFree(TOTAL_PAGES - 1) && IsFree(TOTAL_PAGES + n - 2) ==> !NoOverrun(n)
    {
      forall i | FIRST_USER_PAGE <= i < TOTAL_PAGES && TOTAL_PAGES < i + n && Candidate(i, n)
        ensures n > 1 && IsFree(TOTAL_PAGES - 1)
      {
        assert i == TOTAL_PAGES - 1 || IsFree(TOTAL_PAGES - 1);
      }
      assert Candidate(TOTAL_PAGES - 1, n) <==> IsFree(TOTAL_PAGES - 1) && IsFree(TOTAL_PAGES + n - 2);
    }

    /** With only the last page free and clear memory behind the bitmap, a request for two pages finds no run
        but does not return NULL: it hands out the last page and marks a bit behind the bitmap. */
    lemma LastPageOverrun()
      requires Holds(TOTAL_PAGES + 2)
      requires forall b :: FIRST_USER_PAGE <= b <= TOTAL_PAGES ==> (IsFree(b) <==> b >= TOTAL_PAGES - 1)
      ensures Lowest(TOTAL_PAGES - 1, 2)
      ensures forall i :: 0 <= i < TOTAL_PAGES ==> !FreeRun(i, 2)
    {
      forall i | 0 <= i < TOTAL_PAGES
        ensures !FreeRun(i, 2)
      {
        if i >= FIRST_USER_PAGE && i + 2 <= TOTAL_PAGES { assert !IsFree(i); }
      }
      forall k | FIRST_USER_PAGE <= k < TOTAL_PAGES - 1
        ensures !Candidate(k, 2)
      {
        assert !IsFree(k);
      }
      CandidateIs(TOTAL_PAGES - 1, 2);
    }

    /** alloc_pages never leaves the bitmap if some run is long enough, or if the missing check would pass. */
    lemma LowestFits(n: nat)
      requires 1 <= n && Holds(TOTAL_PAGES + n)
      requires NoOverrun(n) || exists r :: 0 <= r < TOTAL_PAGES && FreeRun(r, n)
      ensures forall i :: 0 <= i && Lowest(i, n) ==> FreeRun(i, n)
    {
      forall i: nat | Lowest(i, n)
        ensures FreeRun(i, n)
      {
        if !NoOverrun(n) {
          var r :| 0 <= r < TOTAL_PAGES && FreeRun(r, n);
          LowestRun(i, n, r);
        }
        RunIsCandidate(i, n);
      }
    }

    /** No candidate, no run. */
    lemma NoCandidateNoRun(n: nat)
      requires 1 <= n && Holds(TOTAL_PAGES + n)
      requires forall i :: FIRST_USER_PAGE <= i < TOTAL_PAGES ==> !Candidate(i, n)
      ensures forall r :: 0 <= r < TOTAL_PAGES ==> !FreeRun(r, n)
    {
      forall r | 0 <= r < TOTAL_PAGES
        ensures !FreeRun(r, n)
      {
        if r >= FIRST_USER_PAGE { RunIsCandidate(r, n); }
      }
    }

    /** alloc_page */
    method AllocPage() returns (r: Option<nat>)
      requires Holds(TOTAL_PAGES)
      modifies words
      ensures r.None? ==> forall b :: FIRST_USER_PAGE <= b < TOTAL_PAGES ==> !old(IsFree(b))
      ensures r.None? ==> forall b :: 0 <= b && Holds(b + 1) ==> (IsFree(b) <==> old(IsFree(b)))
      ensures r.Some? ==> var i := r.value / PAGE_SIZE;
        && r.value == i * PAGE_SIZE && FIRST_USER_PAGE <= i < TOTAL_PAGES && old(IsFree(i))
        && (forall k :: FIRST_USER_PAGE <= k < i ==> !old(IsFree(k)))
        && forall b :: 0 <= b && Holds(b + 1) ==> (IsFree(b) <==> b != i && old(IsFree(b)))
    {
      for i := FIRST_USER_PAGE to TOTAL_PAGES
        invariant forall k :: FIRST_USER_PAGE <= k < i ==> !IsFree(k)
        invariant forall b :: 0 <= b && Holds(b + 1) ==> (IsFree(b) <==> old(IsFree(b)))
      {
        if IsFree(i) {
          MarkPage(i);
          return Some(i * PAGE_SIZE);
        }
      }
      return None;
    }

    /** Lines 81-83. */
    method MarkRun(i: nat, n: nat)
      requires Holds(i + n)
      modifies words
      ensures forall b :: 0 <= b && Holds(b + 1) ==> (IsFree(b) <==> !Within(b, i, n) && old(IsFree(b)))
    {
      for j := i to i + n
        invariant forall b :: 0 <= b && Holds(b + 1) ==> (IsFree(b) <==> !(i <= b < j) && old(IsFree(b)))
      {
        MarkPage(j);
      }
    }

    /** Lines 71-78: are the pages behind i free too? */
    method RunBehind(i: nat, n: nat) returns (b: bool)
      requires i < TOTAL_PAGES && Holds(TOTAL_PAGES + n)
      ensures b <==> forall j :: i < j < TOTAL_PAGES && j < i + n ==> IsFree(j)
    {
      b := true;
      var j := i + 1;
      while j < TOTAL_PAGES && j < i + n
        invariant i < j
        invariant b ==> forall k :: i < k < j && k < TOTAL_PAGES && k < i + n ==> IsFree(k)
        invariant !b ==> j > TOTAL_PAGES && exists k :: i < k < TOTAL_PAGES && k < i + n && !IsFree(k)
      {
        if !IsFree(j) {
          j := TOTAL_PAGES;
          b := false;
        }
        j := j + 1;
      }
    }

    /** Lines 70-78 */
    method Test(i: nat, n: nat) returns (b: bool)
      requires 1 <= i < TOTAL_PAGES && Holds(TOTAL_PAGES + n)
      ensures b == Candidate(i, n)
    {
      b := IsFree(i) && IsFree(i + n - 1);
      if b {
        b := RunBehind(i, n);
        if !b {
          var j :| i < j < TOTAL_PAGES && j < i + n && !IsFree(j);
          assert !FreeIn(words[..], j);
        }
      }
      CandidateIs(i, n);
    }

    /** alloc_pages: the lowest candidate is marked, and nothing else. */
    method AllocPages(n: nat) returns (r: Option<nat>)
      requires Holds(TOTAL_PAGES + n) && TOTAL_PAGES + n <= WORDS
      modifies words
      ensures r.None? <==> old(NoneFound(words[..], n))
      ensures r.None? ==> forall b :: 0 <= b && Holds(b + 1) ==> (IsFree(b) <==> old(IsFree(b)))
      ensures r.Some? ==> var i := r.value / PAGE_SIZE;
        && r.value == i * PAGE_SIZE && old(Lowest(i, n))
        && forall b :: 0 <= b && Holds(b + 1) ==> (IsFree(b) <==> !Within(b, i, n) && old(IsFree(b)))
    {
      var i := FindRun(n);
      if i.None? {
        return None;
      }
      MarkRun(i.value, n);
      return Some(i.value * PAGE_SIZE);
    }

    /** Lines 69-80: the search */
    method FindRun(n: nat) returns (r: Option<nat>)
      requires Holds(TOTAL_PAGES + n)
      ensures r.None? <==> NoneFound(words[..], n)
      ensures r.Some? ==> Lowest(r.value, n)
    {
      for i := FIRST_USER_PAGE to TOTAL_PAGES
        invariant forall k :: FIRST_USER_PAGE <= k < i ==> !Candidate(k, n)
      {
        var b := Test(i, n);
        if b {
          return Some(i);
        }
      }
      forall k | FIRST_USER_PAGE <= k < TOTAL_PAGES
        ensures !CandidateIn(words[..], k, n)
      {
        assert !Candidate(k, n);
      }
      return None;
    }

    /** free_page */
    method FreePage(page: nat)
      requires Holds(page / PAGE_SIZE + 1)
      modifies words
      ensures forall b :: 0 <= b && Holds(b + 1) ==>
        (IsFree(b) <==> old(IsFree(b)) || (page >= FIRST_USER_PAGE * PAGE_SIZE && b == page / PAGE_SIZE))
    {
      if page < FIRST_USER_PAGE * PAGE_SIZE {
        return;
      }
      ClearPage(page / PAGE_SIZE);
    }

    /** free_pages */
    method FreePages(page: nat, n: nat)
      requires Holds(page / PAGE_SIZE + n)
      modifies words
      ensures forall b :: 0 <= b && Holds(b + 1) ==>
        (IsFree(b) <==> old(IsFree(b)) || (page >= FIRST_USER_PAGE * PAGE_SIZE && Within(b, page / PAGE_SIZE, n)))
    {
      if page < FIRST_USER_PAGE * PAGE_SIZE {
        return;
      }
      var idx := page / PAGE_SIZE;
      for i := idx to idx + n
        invariant forall b :: 0 <= b && Holds(b + 1) ==> (IsFree(b) <==> old(IsFree(b)) || idx <= b < i)
      {
        ClearPage(i);
      }
    }

    /** Freeing what alloc_pages handed out restores the bitmap. */
    method AllocAndFree(n: nat)
      requires 1 <= n && Holds(TOTAL_PAGES + n) && TOTAL_PAGES + n <= WORDS
      requires NoOverrun(n) || exists r :: 0 <= r < TOTAL_PAGES && FreeRun(r, n)
      modifies words
      ensures forall b :: 0 <= b && Holds(b + 1) ==> (IsFree(b) <==> old(IsFree(b)))
    {
      LowestFits(n);
      var p := AllocPages(n);
      if p.Some? {
        assert old(FreeRun(p.value / PAGE_SIZE, n));
        FreePages(p.value, n);
      }
    }
  }

  /** The first page a fresh kernel hands out is page 0x320. */
  method FirstPage(memory: array<bv32>) returns (page: Option<nat>)
    requires memory.Length >= TOTAL_PAGES / 32
    requires forall w :: 0 <= w < TOTAL_PAGES / 32 ==> memory[w] == 0
    modifies memory
    ensures page == Some(0x320 * PAGE_SIZE)
  {
    var map0 := new PageMap(memory);
    page := map0.AllocPage();
    assert map0.IsFree(FIRST_USER_PAGE) || !map0.IsFree(FIRST_USER_PAGE);
  }
}
