/**
 The virtual range allocator of an address space: a current address below which everything has been
 handed out once, and a first-fit list of ranges handed back.  Addresses are page numbers.
 */
module VirtualRanges {
  import opened Intervals
  import opened Lists
  import opened PageTables

  const SLOT_PAGES: nat := 0x800_0000
  const ADDRESS_PAGES: nat := 0x10_0000_0000

  datatype FreeRange = FreeRange(addr: nat, pages: nat)

  predicate InRange(r: FreeRange, p: nat) {
    InRun(r.addr, r.pages, p)
  }

  ghost function RangePages(r: FreeRange): set<nat> {
    Range(r.addr, r.pages)
  }

  ghost predicate InSomeRange(free: seq<FreeRange>, p: nat) {
    exists i :: 0 <= i < |free| && InRange(free[i], p)
  }

  predicate Below(current: nat, p: nat) {
    p < current
  }

  /** The pages handed out and not handed back. */
  ghost function LivePages(start: nat, current: nat, free: seq<FreeRange>): set<nat> {
    set p | start <= p < current && Below(current, p) && !InSomeRange(free, p)
  }

  /** Ranges handed back lie between the start and the current address and do not overlap. */
  ghost predicate Partitioned(start: nat, current: nat, free: seq<FreeRange>) {
    && start <= current
    && (forall i :: 0 <= i < |free| ==> start <= free[i].addr && free[i].addr + free[i].pages <= current)
    && (forall i, j :: 0 <= i < j < |free| ==> RangePages(free[i]) !! RangePages(free[j]))
  }

  /** The first range large enough, or the length of the list. */
  function FirstFit(free: seq<FreeRange>, pages: nat): (i: nat)
    ensures i <= |free|
    ensures forall j :: 0 <= j < i ==> free[j].pages < pages
    ensures i < |free| ==> pages <= free[i].pages
  {
    if free == [] then 0 else if pages <= free[0].pages then 0 else 1 + FirstFit(free[1..], pages)
  }

  /** Whether a request is served from the front of a larger range. */
  predicate Carves(free: seq<FreeRange>, pages: nat) {
    var i := FirstFit(free, pages);
    i < |free| && pages < free[i].pages
  }

  lemma NothingToCarve(free: seq<FreeRange>, pages: nat)
    requires FirstFit(free, pages) == |free|
    ensures !Carves(free, pages)
  {
  }

  /** The entry after its front has been handed out: the source adds to the page count where it should subtract. */
  function Carved(r: FreeRange, pages: nat, subtracts: bool): FreeRange
    requires pages <= r.pages
  {
    FreeRange(r.addr + pages, if subtracts then r.pages - pages else r.pages + pages)
  }

  // ----- what each step does to the partition

  /** A step hands out exactly the pages of `r`. */
  ghost predicate HandsOut(start: nat, current: nat, free: seq<FreeRange>, current': nat, free': seq<FreeRange>,
      r: FreeRange) {
    && Partitioned(start, current', free')
    && RangePages(r) !! LivePages(start, current, free)
    && LivePages(start, current', free') == LivePages(start, current, free) + RangePages(r)
  }

  lemma IntendedCarveHandsOut(start: nat, current: nat, free: seq<FreeRange>, i: nat, pages: nat)
    requires Partitioned(start, current, free) && i < |free| && pages <= free[i].pages
    ensures HandsOut(start, current, free, current, free[i := Carved(free[i], pages, true)],
            FreeRange(free[i].addr, pages))
  {
    var after := free[i := Carved(free[i], pages, true)];
    var r := FreeRange(free[i].addr, pages);
    assert RangePages(after[i]) <= RangePages(free[i]) && RangePages(r) <= RangePages(free[i]);
    forall p: nat ensures InSomeRange(after, p) <==> InSomeRange(free, p) && !InRange(r, p) {
      if InSomeRange(after, p) {
        var j :| 0 <= j < |after| && InRange(after[j], p);
        assert InRange(free[j], p) && p in RangePages(free[j]);
      }
      if InSomeRange(free, p) && !InRange(r, p) {
        var j :| 0 <= j < |free| && InRange(free[j], p);
        assert InRange(after[j], p);
      }
    }
  }

  /** Carving as written hands out the right pages only when there is nothing to carve. */
  lemma WrittenCarve(start: nat, current: nat, free: seq<FreeRange>, i: nat, pages: nat)
    requires Partitioned(start, current, free) && i < |free| && pages < free[i].pages
    ensures HandsOut(start, current, free, current, free[i := Carved(free[i], pages, false)],
            FreeRange(free[i].addr, pages))
        <==> pages == 0
  {
    var after := free[i := Carved(free[i], pages, false)];
    if pages == 0 {
      IntendedCarveHandsOut(start, current, free, i, 0);
    } else {
      var q := free[i].addr + free[i].pages;
      assert InRange(after[i], q) && q in RangePages(after[i]);
      if q < current {
        if InSomeRange(free, q) {
          var j :| 0 <= j < |free| && InRange(free[j], q);
          assert after[j] == free[j] && q in RangePages(after[j]);
        } else {
          assert q in LivePages(start, current, free);
        }
      }
    }
  }

  /** Carving as written lists, behind the end of the range, twice as many pages as it hands out. */
  lemma WrittenCarveReaches(start: nat, current: nat, free: seq<FreeRange>, i: nat, pages: nat)
    requires Partitioned(start, current, free) && i < |free| && pages <= free[i].pages
    ensures var r := free[i];
            LivePages(start, current, free[i := Carved(r, pages, false)]) ==
            LivePages(start, current, free) + Range(r.addr, pages) - Range(r.addr + r.pages, 2 * pages)
  {
    var r, after := free[i], free[i := Carved(free[i], pages, false)];
    forall p: nat
      ensures InSomeRange(after, p) <==>
              (InSomeRange(free, p) && !InRun(r.addr, pages, p)) || InRun(r.addr + r.pages, 2 * pages, p)
    {
      if InSomeRange(after, p) {
        var j :| 0 <= j < |after| && InRange(after[j], p);
        assert j != i ==> p in RangePages(free[j]);
        assert InRun(r.addr, pages, p) ==> p in RangePages(r);
        assert InRange(r, p) || InRange(free[j], p) || InRun(r.addr + r.pages, 2 * pages, p);
      }
      if InSomeRange(free, p) && !InRun(r.addr, pages, p) {
        var j :| 0 <= j < |free| && InRange(free[j], p);
        assert InRange(after[j], p);
      }
      if InRun(r.addr + r.pages, 2 * pages, p) {
        assert InRange(after[i], p);
      }
    }
  }

  lemma ExactFitHandsOut(start: nat, current: nat, free: seq<FreeRange>, i: nat)
    requires Partitioned(start, current, free) && i < |free|
    ensures HandsOut(start, current, free, current, Without(free, i), free[i])
  {
    hide Without;
    WithoutAt(free, i);
    forall p: nat ensures InSomeRange(Without(free, i), p) <==> InSomeRange(free, p) && !InRange(free[i], p) {
      UnlinkedRange(start, current, free, i, p);
    }
  }

  /** Unlinking a range takes exactly its pages out of those handed back. */
  lemma UnlinkedRange(start: nat, current: nat, free: seq<FreeRange>, i: nat, p: nat)
    requires Partitioned(start, current, free) && i < |free|
    ensures InSomeRange(Without(free, i), p) <==> InSomeRange(free, p) && !InRange(free[i], p)
  {
    hide Without;
    var after := Without(free, i);
    WithoutAt(free, i);
    if InSomeRange(after, p) {
      var j :| 0 <= j < |after| && InRange(after[j], p);
      var k := if j < i then j else j + 1;
      assert after[j] == free[k] && p in RangePages(free[k]);
    }
    if InSomeRange(free, p) && !InRange(free[i], p) {
      var j :| 0 <= j < |free| && InRange(free[j], p);
      assert InRange(after[if j < i then j else j - 1], p);
    }
  }

  lemma BumpHandsOut(start: nat, current: nat, free: seq<FreeRange>, pages: nat)
    requires Partitioned(start, current, free)
    ensures HandsOut(start, current, free, current + pages, free, FreeRange(current, pages))
  {
  }

  lemma HandBack(start: nat, current: nat, free: seq<FreeRange>, r: FreeRange)
    requires Partitioned(start, current, free) && RangePages(r) <= LivePages(start, current, free)
    requires start <= r.addr && r.addr + r.pages <= current
    ensures Partitioned(start, current, [r] + free)
    ensures LivePages(start, current, [r] + free) == LivePages(start, current, free) - RangePages(r)
  {
    var after := [r] + free;
    forall p: nat ensures InSomeRange(after, p) <==> InRange(r, p) || InSomeRange(free, p) {
      if InSomeRange(free, p) {
        var j :| 0 <= j < |free| && InRange(free[j], p);
        assert InRange(after[j + 1], p);
      }
      if InRange(r, p) {
        assert InRange(after[0], p);
      }
      if InSomeRange(after, p) {
        var j :| 0 <= j < |after| && InRange(after[j], p);
        assert j > 0 ==> InRange(free[j - 1], p);
      }
    }
    forall j | 0 <= j < |free| ensures RangePages(r) !! RangePages(free[j]) {
      forall p | p in RangePages(free[j]) ensures p !in RangePages(r) {
        assert InSomeRange(free, p);
      }
    }
  }

  /** Where a request is served from, and what becomes of the list and the current address. */
  predicate ServedFrom(current: nat, free: seq<FreeRange>, pages: nat, subtracts: bool,
                       addr: nat, current': nat, free': seq<FreeRange>) {
    var i := FirstFit(free, pages);
    if i == |free| then addr == current && current' == current + pages && free' == free
    else addr == free[i].addr && current' == current
         && free' == if pages < free[i].pages then free[i := Carved(free[i], pages, subtracts)] else Without(free, i)
  }

  // ----- the allocator itself

  datatype RangeResult = RangeAt(addr: nat) | OutOfAddresses | RangeFault

  class VirtualRanges {
    /** pdp_index */
    const slot: nat
    /** Whether carving subtracts, as it should, or adds, as the source has it. */
    const subtracts: bool
    const start: nat
    /** current_address */
    var current: nat
    /** free_list, head first */
    var free: seq<FreeRange>
    /** Whether the head pointer was stored without its sign extension; following it then faults. */
    var headLost: bool

    ghost predicate Valid()
      reads this
    {
      && Partitioned(start, current, free)
      && slot <= KERNEL_SLOT && slot * SLOT_PAGES <= start && current <= (slot + 1) * SLOT_PAGES
    }

    /** A request of so many pages is served with exactly the pages it returns. */
    predicate Fair(pages: nat)
      reads this
    {
      subtracts || pages == 0 || !Carves(free, pages)
    }

    ghost function Live(): set<nat>
      reads this
    {
      LivePages(start, current, free)
    }

    /** The part of new_address_space that sets up the addresses; page 0 is never used. */
    constructor (slot: nat, subtracts: bool)
      requires slot < KERNEL_SLOT
      ensures Valid() && Live() == {} && this.slot == slot && !headLost && this.subtracts == subtracts
      ensures start == (if slot == 0 then 1 else slot * SLOT_PAGES) && current == start && free == []
    {
      this.slot, this.subtracts := slot, subtracts;
      start := if slot * SLOT_PAGES == 0 then 1 else slot * SLOT_PAGES;
      current := if slot * SLOT_PAGES == 0 then 1 else slot * SLOT_PAGES;
      free := [];
      headLost := false;
    }

    /** The addresses of the kernel, of which the boot code has handed out the first so many pages. */
    constructor Kernel(booted: nat, subtracts: bool)
      requires booted <= SLOT_PAGES
      ensures Valid() && Live() == Range(start, booted) && slot == KERNEL_SLOT && !headLost
      ensures this.subtracts == subtracts
      ensures 4096 * start == 0xF000_0000_0000 && current == start + booted && free == []
    {
      this.slot, this.subtracts := KERNEL_SLOT, subtracts;
      start, current := KERNEL_SLOT * SLOT_PAGES, KERNEL_SLOT * SLOT_PAGES + booted;
      free, headLost := [], false;
    }

    /** Serves a request from the first range that is large enough: carves its front off, or unlinks it. */
    method ServeFromList(i: nat, pages: nat) returns (addr: nat)
      requires Valid() && i < |free| && i == FirstFit(free, pages) && !headLost
      modifies this
      ensures start <= addr && addr + pages <= current && current == old(current)
      ensures RangePages(FreeRange(addr, pages)) !! old(Live())
      ensures HandsOut(start, current, old(free), current, free, FreeRange(addr, pages)) <==> old(Fair(pages))
      ensures old(Fair(pages)) ==> Valid()
      ensures ServedFrom(current, old(free), pages, subtracts, addr, current, free)
      ensures !subtracts ==> old(pages < free[i].pages) ==>
                Live() == old(Live()) + Range(addr, pages) - Range(addr + old(free[i].pages), 2 * pages)
      ensures headLost <==> i == 0 && old(|free| > 1 && free[0].pages == pages)
    {
      hide Partitioned, LivePages, InSomeRange, Range;
      RangeInside(i);
      addr := free[i].addr;
      if pages < free[i].pages {
        WrittenCarve(start, current, free, i, pages);
        WrittenCarveReaches(start, current, free, i, pages);
        IntendedCarveHandsOut(start, current, free, i, pages);
        free := free[i := Carved(free[i], pages, subtracts)];
      } else {
        ExactFitHandsOut(start, current, free, i);
        headLost := i == 0 && |free| > 1;
        free := Without(free, i);
      }
    }

    /**
     alloc_addr_space: the first range handed back that is large enough, or fresh addresses.  It hands
     out exactly the pages it returns unless it carves a nonempty piece off a larger range with an addition.
     */
    method AllocAddrSpace(pages: nat) returns (r: RangeResult)
      requires Valid()
      modifies this
      ensures r.RangeFault? <==> old(headLost && free != [])
      ensures r.RangeFault? ==> unchanged(this)
      ensures r.OutOfAddresses? <==> !r.RangeFault? && FirstFit(old(free), pages) == old(|free|)
                                     && old(current) + pages >= (slot + 1) * SLOT_PAGES
      ensures r.RangeAt? ==> slot * SLOT_PAGES <= r.addr && r.addr + pages <= (slot + 1) * SLOT_PAGES
      ensures r.RangeAt? ==> RangePages(FreeRange(r.addr, pages)) !! old(Live())
      ensures r.RangeAt? ==>
                (HandsOut(start, old(current), old(free), current, free, FreeRange(r.addr, pages))
                 <==> old(Fair(pages)))
      ensures r.RangeAt? && old(Fair(pages)) ==> Valid()
      ensures r.RangeAt? ==> ServedFrom(old(current), old(free), pages, subtracts, r.addr, current, free)
      ensures !r.RangeFault? ==> (headLost <==> old(|free| > 1 && free[0].pages == pages))
    {
      hide Partitioned, LivePages, InSomeRange, Range, Carves, Carved;
      if headLost && free != [] {
        return RangeFault;
      }
      headLost := false;
      var i := 0;
      while i < |free|
        invariant i <= |free| && FirstFit(free, pages) == i + FirstFit(free[i..], pages)
        invariant unchanged(`free, `current) && !headLost
      {
        assert free[i..][0] == free[i] && free[i..][1..] == free[i + 1..];
        if pages <= free[i].pages {
          var addr := ServeFromList(i, pages);
          return RangeAt(addr);
        }
        i := i + 1;
      }
      assert !Carves(free, pages) by {
        NothingToCarve(free, pages);
      }
      BumpHandsOut(start, current, free, pages);
      StartInside();
      var addr := current;
      if addr + pages >= (slot + 1) * SLOT_PAGES {
        return OutOfAddresses;
      }
      current := current + pages;
      r := RangeAt(addr);
    }

    lemma RangeInside(i: nat)
      requires Valid() && i < |free|
      ensures start <= free[i].addr && free[i].addr + free[i].pages <= current
    {
    }

    lemma StartInside()
      requires Valid()
      ensures start <= current
    {
    }

    /** add_range_to_free_list */
    method AddRange(addr: nat, pages: nat)
      requires Valid() && start <= addr && addr + pages <= current && RangePages(FreeRange(addr, pages)) <= Live()
      modifies this
      ensures Valid() && Live() == old(Live()) - RangePages(FreeRange(addr, pages))
      ensures current == old(current) && free == [FreeRange(addr, pages)] + old(free) && !headLost
    {
      HandBack(start, current, free, FreeRange(addr, pages));
      free := [FreeRange(addr, pages)] + free;
      headLost := false;
    }

    /** claim_virt_range, for a range that ends inside the 64-bit address space */
    method ClaimVirtRange(addr: nat, pages: nat) returns (ok: bool)
      requires Valid() && addr + pages < 0x10_0000_0000_0000
      modifies this
      ensures ok <==> 4096 * old(current) <= 4096 * addr % 0x1_0000_0000_0000 && addr + pages <= (slot + 1) * SLOT_PAGES
      ensures ok ==> Valid() && HandsOut(start, old(current), old(free), current, free, FreeRange(addr, pages))
      ensures ok ==> old(current) <= addr && current == addr + pages && !headLost
      ensures ok ==> free == [FreeRange(old(current), addr - old(current))] + old(free)
      ensures !ok ==> unchanged(this)
    {
      if current <= addr % ADDRESS_PAGES {
        if addr + pages > (slot + 1) * SLOT_PAGES {
          return false;
        }
        assert addr % ADDRESS_PAGES == addr && (addr + pages) % ADDRESS_PAGES == addr + pages;
        var gap := FreeRange(current, addr - current);
        BumpHandsOut(start, current, free, gap.pages);
        HandBack(start, addr, free, gap);
        BumpHandsOut(start, addr, [gap] + free, pages);
        free := [gap] + free;
        headLost := false;
        current := (addr + pages) % ADDRESS_PAGES;
        ok := true;
      } else {
        ok := false;
      }
    }
  }

  /** After carving 1 page off [10, 12), a request for 3 pages is served with [11, 14), and so with the live page 12. */
  lemma CarveGivesPageAwayTwice()
    ensures Partitioned(1, 20, [FreeRange(10, 2)]) && 12 in LivePages(1, 20, [FreeRange(10, 2)])
    ensures var after := [Carved(FreeRange(10, 2), 1, false)];
            FirstFit(after, 3) == 0 && after[0].pages == 3 && InRange(after[0], 12)
  {
  }

  /** After an exact fit at the head of two ranges, any request at all follows the lost pointer. */
  method LostHeadIsFollowed(slot: nat, subtracts: bool, pages: nat) returns (r: RangeResult)
    requires slot < KERNEL_SLOT
    ensures r.RangeFault?
  {
    var ranges := new VirtualRanges(slot, subtracts);
    var one := ranges.AllocAddrSpace(1);
    var two := ranges.AllocAddrSpace(2);
    ranges.AddRange(one.addr, 1);
    ranges.AddRange(two.addr, 2);
    var again := ranges.AllocAddrSpace(2);
    r := ranges.AllocAddrSpace(pages);
  }
}
