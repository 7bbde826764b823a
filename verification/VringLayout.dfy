/** kernel/include/virtio_net.h and the allocation in kernel/src/virtio_net.c: where the three areas of a
    virtqueue lie in the block that is allocated for them. Addresses are numbers. */
module VringLayout {
  import opened Arithmetic
  import opened Common

  const DESC_SIZE := 16       // sizeof(vring_desc)
  const AVAIL_HEADER := 4     // flags and idx of vring_avail
  const AVAIL_SIZE := 2       // an entry of vring_avail.ring
  const USED_HEADER := 4      // flags and idx of vring_used
  const USED_SIZE := 8        // sizeof(vring_used_elem)

  /** ALIGN: the least multiple of 4096 that is not below x. */
  function RoundUp(x: nat): (r: nat)
    ensures x <= r < x + PAGE_SIZE && r % PAGE_SIZE == 0
  {
    (x + (PAGE_SIZE - 1)) / PAGE_SIZE * PAGE_SIZE
  }

  lemma RoundUpOnly(x: nat, u: nat)
    requires x <= u < x + PAGE_SIZE && u % PAGE_SIZE == 0
    ensures u == RoundUp(x)
  {
  }

  predicate PowerOfTwo(a: nat) {
    a == 1 || (a > 0 && a % 2 == 0 && PowerOfTwo(a / 2))
  }

  lemma PageIsPower()
    ensures PowerOfTwo(PAGE_SIZE)
  {
    assert PowerOfTwo(64);
    assert PowerOfTwo(512);
  }

  /** The least multiple of align that is not below x. */
  function RoundTo(x: nat, align: nat): (r: nat)
    requires align > 0
    ensures x <= r < x + align && r % align == 0
  {
    var q := (x + align - 1) / align;
    RoundToMeans(x, align, q);
    align * q
  }

  lemma RoundToMeans(x: nat, align: nat, q: nat)
    requires align > 0 && q == (x + align - 1) / align
    ensures x <= align * q < x + align && (align * q) % align == 0
  {
    var r := (x + align - 1) % align;
    assert x + align - 1 == align * q + r;
    ProductIsNat(align, q);
    DivideUnique(align * q, align, q, 0);
  }

  /** The macro's bit arithmetic, on 32 bits, rounds up to a page in the same sense. */
  lemma AlignBits(x: bv32)
    requires x <= 0xFFFF_F000
    ensures x <= (x + 4095) & !4095
    ensures ((x + 4095) & !4095) - x <= 4095
    ensures ((x + 4095) & !4095) & 4095 == 0
  {
  }

  /** vring_size */
  function Size(q: nat): nat {
    RoundUp(DESC_SIZE * q + AVAIL_SIZE * (2 + q)) + RoundUp(USED_SIZE * q)
  }

  /** The used entries do not fill whole pages. */
  predicate FillsNoPage(q: nat) { q % 512 != 0 }

  class Areas {
    var num: nat
    var desc: nat
    var avail: nat
    var used: nat

    /** The first address behind each area. */
    function DescEnd(): nat
      reads this
    {
      desc + DESC_SIZE * num
    }

    function AvailEnd(): nat
      reads this
    {
      avail + AVAIL_HEADER + AVAIL_SIZE * num
    }

    function UsedEnd(): nat
      reads this
    {
      used + USED_HEADER + USED_SIZE * num
    }

    /** vring_init: the areas come one after the other, and the used area starts at the next multiple of align,
        which the mask finds if align is a power of two. */
    method Init(num: nat, p: nat, align: nat)
      requires PowerOfTwo(align)
      modifies this
      ensures this.num == num && desc == p && DescEnd() == avail
      ensures AvailEnd() <= used < AvailEnd() + align && used % align == 0
    {
      this.num := num;
      desc := p;
      avail := p + num * DESC_SIZE;
      used := RoundTo(avail + AVAIL_HEADER + AVAIL_SIZE * num, align);
    }

    /** virtio_init_queue, with c the address of the cleared block of Size(q) + 4095 bytes, or 0. */
    method InitQueue(c: nat, q: nat) returns (ok: bool)
      modifies this
      ensures ok <==> c != 0
      ensures ok ==> num == q && c <= desc && DescEnd() <= avail && AvailEnd() <= used
      ensures ok ==> desc % PAGE_SIZE == 0 && avail % 16 == 0 && used % PAGE_SIZE == 0
      ensures ok ==> (UsedEnd() <= desc + Size(q) <==> FillsNoPage(q))
      ensures ok ==> (UsedEnd() <= c + Size(q) + 4095 <==> FillsNoPage(q) || desc - c <= 4091)
      ensures !ok ==> unchanged(this)
    {
      var p := RoundUp(c);
      if p == 0 {
        return false;
      }
      PageIsPower();
      Init(q, p, PAGE_SIZE);
      RoundUpOnly(AvailEnd(), used);
      Even(p, q);
      UsedArea(c, p, q, used);
      return true;
    }
  }

  lemma Even(p: nat, q: nat)
    requires p % PAGE_SIZE == 0
    ensures (p + DESC_SIZE * q) % 16 == 0
  {
  }

  /** Line 126 leaves out the header of the used area. The round-up makes up for it except when the entries
      alone fill whole pages. */
  lemma UsedArea(c: nat, p: nat, q: nat, used: nat)
    requires p == RoundUp(c) && used == RoundUp(p + DESC_SIZE * q + AVAIL_HEADER + AVAIL_SIZE * q)
    ensures used + USED_HEADER + USED_SIZE * q <= p + Size(q) <==> FillsNoPage(q)
    ensures used + USED_HEADER + USED_SIZE * q <= c + Size(q) + 4095 <==> FillsNoPage(q) || p - c <= 4091
  {
    FromPage(p, DESC_SIZE * q + AVAIL_SIZE * (2 + q));
    Slack(q);
  }

  lemma FromPage(p: nat, x: nat)
    requires p % PAGE_SIZE == 0
    ensures RoundUp(p + x) == p + RoundUp(x)
  {
    var k := p / PAGE_SIZE;
    assert p == PAGE_SIZE * k;
  }

  lemma Slack(q: nat)
    ensures q % 512 == 0 ==> RoundUp(USED_SIZE * q) == USED_SIZE * q
    ensures q % 512 != 0 ==> RoundUp(USED_SIZE * q) >= USED_SIZE * q + 8
  {
    var k, r := q / 512, q % 512;
    assert USED_SIZE * q == PAGE_SIZE * k + USED_SIZE * r;
  }
}
