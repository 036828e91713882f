/**
 Blocks of page frames.  A physical address is modelled by its frame number (the address divided by
 PAGE_SIZE), and a size by its number of pages.  A block of order k is 2^k frames starting at a
 multiple of 2^k.
 */
module Blocks {

  const PAGE_SIZE: nat := 4096

  const FRAME_ORDERS: nat := 8
  const TOP_ORDER: nat := 7
  const TOP_PAGES: nat := 128

  /** g_frame_order_sizes, in pages: 1, doubled once per order. */
  function Size(order: nat): (s: nat)
    ensures s > 0
  {
    if order == 0 then 1 else 2 * Size(order - 1)
  }

  /** How many top-order blocks fit into so many pages. */
  function WholeTops(pages: nat): (tops: nat)
    ensures tops == pages / TOP_PAGES
  {
    pages / 128
  }

  lemma TopSize()
    ensures Size(TOP_ORDER) == TOP_PAGES
  {
    assert Size(3) == 8;
    assert Size(5) == 32;
  }

  lemma {:induction false} SizeGrows(low: nat, high: nat)
    requires low <= high
    ensures Size(low) <= Size(high)
    decreases high
  {
    if low < high {
      SizeGrows(low, high - 1);
    }
  }

  /** How far into its block of the given order a frame lies. */
  function Offset(addr: nat, order: nat): (r: nat)
    ensures r < Size(order) && r <= addr
  {
    if order == 0 then 0 else 2 * Offset(addr / 2, order - 1) + addr % 2
  }

  /** The source computes the offset as addr % g_frame_order_sizes[order]. */
  lemma {:induction false} OffsetIsRemainder(addr: nat, order: nat)
    ensures Offset(addr, order) == addr % Size(order)
  {
    if order > 0 {
      OffsetIsRemainder(addr / 2, order - 1);
      var s, q := Size(order - 1), addr / 2 / Size(order - 1);
      QuotientTimesDivisor(addr / 2, s);
      Regroup(s, q);
      RemainderIsUnique(addr, 2 * s, q, Offset(addr, order));
    }
  }

  lemma QuotientTimesDivisor(x: nat, s: nat)
    requires s > 0
    ensures x == s * (x / s) + x % s
  {
  }

  lemma Regroup(s: int, q: int)
    ensures 2 * (s * q) == (2 * s) * q
  {
  }

  lemma RemainderIsUnique(x: nat, s: nat, q: nat, r: nat)
    requires x == s * q + r && r < s
    ensures x % s == r
  {
    var d := x / s - q;
    QuotientTimesDivisor(x, s);
    assert s * d == r - x % s;
    if d != 0 {
      NonZeroMultiple(s, d);
    }
  }

  lemma NonZeroMultiple(s: nat, d: int)
    requires d != 0
    ensures s * d >= s || s * d + s <= 0
  {
    if d > 0 {
      assert s * (d - 1) >= 0;
    } else {
      assert s * (-d - 1) >= 0;
    }
  }

  datatype Block = Block(order: nat, addr: nat)

  predicate Aligned(b: Block) {
    Offset(b.addr, b.order) == 0
  }

  function EndOf(b: Block): nat {
    b.addr + Size(b.order)
  }

  /** A naturally aligned block of one of the eight orders, inside the first `limit` frames. */
  predicate WellFormed(b: Block, limit: nat) {
    b.order < FRAME_ORDERS && Aligned(b) && EndOf(b) <= limit
  }

  predicate Holds(b: Block, p: nat) {
    b.addr <= p < EndOf(b)
  }

  predicate Within(b: Block, c: Block) {
    c.addr <= b.addr && EndOf(b) <= EndOf(c)
  }

  predicate Apart(b: Block, c: Block) {
    EndOf(b) <= c.addr || EndOf(c) <= b.addr
  }

  /** The other half of the block one order up. */
  function BuddyOf(b: Block): Block
    requires Aligned(b)
  {
    if Offset(b.addr, b.order + 1) == 0 then Block(b.order, b.addr + Size(b.order))
    else OffsetsOfHalves(b.order, b.addr); Block(b.order, b.addr - Size(b.order))
  }

  function ParentOf(b: Block): Block {
    Block(b.order + 1, b.addr - Offset(b.addr, b.order + 1))
  }

  function LeftHalf(b: Block): Block
    requires 0 < b.order
  {
    Block(b.order - 1, b.addr)
  }

  function RightHalf(b: Block): Block
    requires 0 < b.order
  {
    Block(b.order - 1, b.addr + Size(b.order - 1))
  }

  /** Everything about alignment reduces to these facts. */
  lemma {:induction false} OffsetsOfHalves(order: nat, a: nat)
    ensures Offset(a, order + 1) == 0 ==>
              Offset(a, order) == 0 && Offset(a + Size(order), order) == 0
              && Offset(a + Size(order), order + 1) == Size(order)
    ensures Offset(a, order) == 0 && Offset(a, order + 1) != 0 ==>
              Offset(a, order + 1) == Size(order) && a >= Size(order) && Offset(a - Size(order), order + 1) == 0
  {
    if order > 0 {
      OffsetsOfHalves(order - 1, a / 2);
      assert (a + Size(order)) / 2 == a / 2 + Size(order - 1);
    }
  }

  /** Multiples of a block size that differ, differ by at least that size. */
  lemma {:induction false} MultiplesStep(order: nat, x: nat, y: nat)
    requires Offset(x, order) == Offset(y, order) == 0 && x < y
    ensures x + Size(order) <= y
  {
    if order > 0 {
      MultiplesStep(order - 1, x / 2, y / 2);
    }
  }

  lemma {:induction false} BaseIsAligned(order: nat, x: nat)
    ensures Offset(x - Offset(x, order), order) == 0
  {
    if order > 0 {
      BaseIsAligned(order - 1, x / 2);
      assert (x - Offset(x, order)) / 2 == x / 2 - Offset(x / 2, order - 1);
    }
  }

  lemma {:induction false} AlignedBelow(low: nat, high: nat, x: nat)
    requires low <= high && Offset(x, high) == 0
    ensures Offset(x, low) == 0
  {
    if low > 0 {
      AlignedBelow(low - 1, high - 1, x / 2);
    }
  }

  /** Two aligned blocks are nested or apart. */
  lemma {:induction false} Nested(b: Block, c: Block)
    requires b.order <= c.order && Aligned(b) && Aligned(c)
    ensures Within(b, c) || Apart(b, c)
    decreases c.order
  {
    if b.order == c.order {
      if b.addr < c.addr {
        MultiplesStep(b.order, b.addr, c.addr);
      } else if c.addr < b.addr {
        MultiplesStep(b.order, c.addr, b.addr);
      }
    } else {
      OffsetsOfHalves(c.order - 1, c.addr);
      Nested(b, LeftHalf(c));
      Nested(b, RightHalf(c));
    }
  }

  lemma HalvesOf(b: Block)
    requires 0 < b.order && Aligned(b)
    ensures Aligned(LeftHalf(b)) && Aligned(RightHalf(b))
    ensures BuddyOf(LeftHalf(b)) == RightHalf(b) && BuddyOf(RightHalf(b)) == LeftHalf(b)
    ensures ParentOf(LeftHalf(b)) == b == ParentOf(RightHalf(b))
    ensures EndOf(LeftHalf(b)) == RightHalf(b).addr && EndOf(RightHalf(b)) == EndOf(b)
  {
    OffsetsOfHalves(b.order - 1, b.addr);
  }

  lemma BuddiesMakeParent(b: Block)
    requires Aligned(b)
    ensures Aligned(ParentOf(b)) && Aligned(BuddyOf(b)) && BuddyOf(BuddyOf(b)) == b
    ensures ParentOf(BuddyOf(b)) == ParentOf(b)
    ensures if Offset(b.addr, b.order + 1) == 0
            then b == LeftHalf(ParentOf(b)) && BuddyOf(b) == RightHalf(ParentOf(b))
            else b == RightHalf(ParentOf(b)) && BuddyOf(b) == LeftHalf(ParentOf(b))
  {
    OffsetsOfHalves(b.order, b.addr);
    BaseIsAligned(b.order + 1, b.addr);
    HalvesOf(ParentOf(b));
  }
}
