/**
 The kernel's page allocator: frames from the buddy allocator, mapped at addresses from the virtual
 range allocator.
 */
module Memory {
  import opened Blocks
  import opened FreeSets
  import opened FreeLists
  import opened FrameAllocator
  import opened Intervals
  import opened Lists
  import opened PageTables
  import opened AddressSpace
  import opened VirtualRanges
  import opened FrameScan
  import opened Holdings
  import FrameRuns
  import Processor

  /** A mapped address, the null pointer, or a stop: a fault or a failed "out of" assertion. */
  datatype Result = At(virt: nat) | Null | Stop

  /** A range at a given address: mapped there, refused, or stopped by an assertion. */
  datatype Claim = Claimed | Refused | ClaimStop

  class Memory {
    const frames: FrameAllocator
    const space: AddressSpace
    const ranges: VirtualRanges
    /** The live results of the page allocator, by the page they start at. */
    ghost var held: map<nat, Holding>

    ghost predicate Valid()
      reads this, frames.lists, frames.buddies.words, space, space.mem, ranges
    {
      && frames.Valid() && space.Valid() && ranges.Valid() && ranges.slot == space.slot
      && AllHeld(space.State(), space.slot, ranges.Live(), frames.FreePages(), held)
      && TablesApart(space.tableFrames, frames.FreePages(), held)
    }

    constructor (frames: FrameAllocator, space: AddressSpace, ranges: VirtualRanges)
      requires frames.Valid() && space.Valid() && ranges.Valid() && ranges.slot == space.slot
      requires forall v: nat :: Slot(v) == space.slot && space.View(v).Some? ==> v in ranges.Live()
      requires space.tableFrames !! frames.FreePages()
      ensures Valid() && held == map[]
      ensures this.frames == frames && this.space == space && this.ranges == ranges
    {
      this.frames, this.space, this.ranges, this.held := frames, space, ranges, map[];
      new;
      assert forall v: nat {:trigger ViewOf(this.space.State(), v)} :: ViewOf(this.space.State(), v) == space.View(v);
    }

    // ----- mapping

    /** The loop of map_allocation over the blocks of an allocation. */
    method MapBlocks(virt: nat, allocation: seq<Block>, flags: Flags, loc: Location) returns (ok: bool)
      requires space.Valid() && space.Agrees(loc, virt) && space.InSpace(virt, |FrameList(allocation)|)
      requires forall b <- allocation :: b.order < FRAME_ORDERS
      modifies space, space.mem
      ensures space.Valid() && SameTables(old(space.State()), space.State())
      ensures SameOutside(old(space.State()), space.State(), space.slot, virt, virt + |FrameList(allocation)|)
      ensures ok ==> AllGood(space.State(), virt, virt + |FrameList(allocation)|,
              space.ListMapped(virt, FrameList(allocation), flags))
      ensures !ok ==> old(|space.stock|) < 2 * |FrameList(allocation)|
    {
      hide GoodTree, GoodStock, TablesIn, SameTables, SameOutside, AllGood, Leaf, PtAt, PdAt, Find, FrameList;
      ghost var before := space.State();
      ghost var list := FrameList(allocation);
      ghost var good := space.ListMapped(virt, list, flags);
      NoPageYet(before, space.slot, virt, good);
      var here := loc;
      var curr := virt;
      ghost var from: nat := virt;
      for i := 0 to |allocation|
        invariant curr == virt + TotalPages(allocation[..i]) && curr <= virt + |list|
        invariant space.Valid() && space.Agrees(here, from) && (from == curr || from + 1 == curr)
        invariant SameTables(before, space.State()) && SameOutside(before, space.State(), space.slot, virt, curr)
        invariant AllGood(space.State(), virt, curr, good)
        invariant |space.stock| >= old(|space.stock|) - 2 * (curr - virt)
      {
        var b := allocation[i];
        FrameListOfBlock(allocation, i);
        ghost var now := space.State();
        var pages := Size(b.order);
        var last := space.MapRange(curr, b.addr, pages, flags, here, from);
        if last.None? {
          StoppedMidway(before, now, space.State(), space.slot, virt, curr, curr + pages, virt + |list|);
          return false;
        }
        here := last.value;
        BlockIsGood(curr, b.addr, pages, virt, list, flags);
        MorePages(before, now, space.State(), space.slot, virt, curr, curr + pages, good);
        from := curr + pages - 1;
        curr := curr + pages;
      }
      assert allocation[..|allocation|] == allocation;
      FrameListLength(allocation);
      ok := true;
    }

    lemma BlockIsGood(curr: nat, addr: nat, pages: nat, virt: nat, list: seq<nat>, flags: Flags)
      requires space.Valid() && virt <= curr && curr + pages <= virt + |list|
      requires forall p :: curr - virt <= p < curr - virt + pages ==> list[p] == addr + p - (curr - virt)
      requires AllGood(space.State(), curr, curr + pages, space.Mapped(curr, addr, flags))
      ensures AllGood(space.State(), curr, curr + pages, space.ListMapped(virt, list, flags))
    {
      forall v: nat | curr <= v < curr + pages
        ensures space.ListMapped(virt, list, flags)(v, ViewOf(space.State(), v))
      {
        assert space.Mapped(curr, addr, flags)(v, ViewOf(space.State(), v));
        assert list[v - virt] == addr + v - curr;
      }
    }

    lemma GoodMapsList(virt: nat, list: seq<nat>, flags: Flags)
      requires space.Valid() && space.InSpace(virt, |list|)
      requires AllGood(space.State(), virt, virt + |list|, space.ListMapped(virt, list, flags))
      ensures MapsList(space.State(), space.slot, virt, list)
    {
      forall v: nat | virt <= v < virt + |list|
        ensures Slot(v) == space.slot && ViewOf(space.State(), v).Some?
                && ViewOf(space.State(), v).value.frame == list[v - virt]
      {
        assert space.ListMapped(virt, list, flags)(v, ViewOf(space.State(), v));
        assert space.MapsTo(ViewOf(space.State(), v), list[v - virt], flags);
      }
    }

    /** Nothing stands in the way of mapping so many pages. */
    ghost predicate HasRoom(pages: nat)
      reads space, ranges
    {
      && !(ranges.headLost && ranges.free != []) && |space.stock| >= 2 * pages + 2
      && (FirstFit(ranges.free, pages) < |ranges.free| || ranges.current + pages < (ranges.slot + 1) * SLOT_PAGES)
    }

    /** What mapping a list of frames at a new address does. */
    twostate predicate MapsNewly(virt: nat, list: seq<nat>, flags: Flags)
      requires old(space.Valid()) && space.Valid()
      reads space, space.mem, ranges
    {
      && space.InSpace(virt, |list|) && AllGood(space.State(), virt, virt + |list|, space.ListMapped(virt, list, flags))
      && SameOutside(old(space.State()), space.State(), space.slot, virt, virt + |list|)
      && Range(virt, |list|) !! old(ranges.Live())
      && (old(ranges.Fair(|list|)) ==>
            ranges.Valid() && ranges.Live() == old(ranges.Live()) + Range(virt, |list|))
    }

    /** The first step of every mapping: addresses for it, and the location of the first page. */
    method Reserve(pages: nat) returns (virt: nat, loc: Option<Location>)
      requires space.Valid() && ranges.Valid() && ranges.slot == space.slot
      modifies space, space.mem, ranges
      ensures space.Valid() && SameMap(old(space.State()), space.State()) && |space.stock| >= old(|space.stock|) - 2
      ensures loc.Some? ==> space.Agrees(loc.value, virt) && space.InSpace(virt, pages)
      ensures loc.Some? ==> Range(virt, pages) !! old(ranges.Live())
      ensures loc.Some? && old(ranges.Fair(pages)) ==>
                ranges.Valid() && ranges.Live() == old(ranges.Live()) + Range(virt, pages)
      ensures old(HasRoom(pages)) ==> loc.Some?
    {
      var r := ranges.AllocAddrSpace(pages);
      if !r.RangeAt? {
        return 0, None;
      }
      virt := r.addr;
      forall v | virt <= v < virt + pages ensures Slot(v) == space.slot {
        SlotOfAddress(space.slot, v);
      }
      loc := space.Populate(virt, true);
    }

    /** map_allocation */
    method MapAllocation(allocation: seq<Block>, flags: Flags) returns (r: Result)
      requires space.Valid() && ranges.Valid() && ranges.slot == space.slot
      requires forall b <- allocation :: b.order < FRAME_ORDERS
      modifies space, space.mem, ranges
      ensures space.Valid() && !r.Null?
      ensures r.At? ==> MapsNewly(r.virt, FrameList(allocation), flags)
      ensures old(HasRoom(TotalPages(allocation))) ==> r.At?
    {
      hide GoodTree, GoodStock, TablesIn, SameTables, SameMap, SameOutside, AllGood, Leaf, PtAt, PdAt, Find, FrameList;
      FrameListLength(allocation);
      ghost var before := space.State();
      var pages := CalculateAllocationPages(allocation);
      var virt, loc := Reserve(pages);
      if loc.None? {
        return Stop;
      }
      ghost var now := space.State();
      var ok := MapBlocks(virt, allocation, flags, loc.value);
      if !ok {
        return Stop;
      }
      NothingThenChanged(before, now, space.State(), space.slot, virt, virt + pages);
      r := At(virt);
    }

    /** map_phys_range */
    method MapPhysRange(frame: nat, pages: nat, flags: Flags) returns (r: Result)
      requires space.Valid() && ranges.Valid() && ranges.slot == space.slot
      modifies space, space.mem, ranges
      ensures space.Valid() && !r.Null?
      ensures r.At? ==> MapsNewly(r.virt, Consecutive(frame, pages), flags)
      ensures old(HasRoom(pages)) ==> r.At?
    {
      hide GoodTree, GoodStock, TablesIn, SameTables, SameMap, SameOutside, AllGood, Leaf, PtAt, PdAt, Find, FrameList;
      ghost var before := space.State();
      var virt, loc := Reserve(pages);
      if loc.None? {
        return Stop;
      }
      ghost var now := space.State();
      var last := space.MapRange(virt, frame, pages, flags, loc.value, virt);
      if last.None? {
        return Stop;
      }
      BlockIsGood(virt, frame, pages, virt, Consecutive(frame, pages), flags);
      NothingThenChanged(before, now, space.State(), space.slot, virt, virt + pages);
      r := At(virt);
    }

    /** Whether addresses that were never handed out reach from here to the end of the range. */
    ghost predicate Claimable(virt: nat, pages: nat)
      reads ranges
    {
      ranges.current <= virt % ADDRESS_PAGES && virt + pages <= (ranges.slot + 1) * SLOT_PAGES
    }

    /** The first step of mapping to a given range. */
    method ReserveAt(virt: nat, pages: nat) returns (r: Claim, loc: Option<Location>)
      requires space.Valid() && ranges.Valid() && ranges.slot == space.slot && virt + pages < PAGES_IN_64_BITS
      modifies space, space.mem, ranges
      ensures space.Valid() && SameMap(old(space.State()), space.State()) && |space.stock| >= old(|space.stock|) - 2
      ensures r.Refused? <==> !old(Claimable(virt, pages))
      ensures r.Refused? ==> unchanged(space, space.mem, ranges)
      ensures r.Claimed? ==> loc.Some? && space.Agrees(loc.value, virt) && space.InSpace(virt, pages)
      ensures r.Claimed? ==> Range(virt, pages) !! old(ranges.Live()) && ranges.Valid()
      ensures r.Claimed? ==> ranges.Live() == old(ranges.Live()) + Range(virt, pages)
      ensures r.ClaimStop? ==> old(|space.stock|) < 2
    {
      var ok := ranges.ClaimVirtRange(virt, pages);
      if !ok {
        return Refused, None;
      }
      forall v | virt <= v < virt + pages ensures Slot(v) == space.slot {
        SlotOfAddress(space.slot, v);
      }
      loc := space.Populate(virt, true);
      r := if loc.Some? then Claimed else ClaimStop;
    }

    /** map_allocation_to_range */
    method MapAllocationToRange(allocation: seq<Block>, virt: nat, flags: Flags) returns (r: Claim)
      requires space.Valid() && ranges.Valid() && ranges.slot == space.slot
               && virt + TotalPages(allocation) < PAGES_IN_64_BITS
      requires forall b <- allocation :: b.order < FRAME_ORDERS
      modifies space, space.mem, ranges
      ensures r.Refused? <==> !old(Claimable(virt, TotalPages(allocation)))
      ensures r.Refused? ==> unchanged(space, space.mem, ranges)
      ensures r.Claimed? ==> space.Valid() && ranges.Valid() && MapsNewly(virt, FrameList(allocation), flags)
      ensures r.Claimed? ==> ranges.Live() == old(ranges.Live()) + Range(virt, TotalPages(allocation))
      ensures r.ClaimStop? ==> old(|space.stock|) < 2 * TotalPages(allocation) + 2
    {
      hide GoodTree, GoodStock, TablesIn, SameTables, SameMap, SameOutside, AllGood, Leaf, PtAt, PdAt, Find, FrameList;
      FrameListLength(allocation);
      ghost var before := space.State();
      var pages := CalculateAllocationPages(allocation);
      var loc;
      r, loc := ReserveAt(virt, pages);
      if r.Claimed? {
        ghost var now := space.State();
        var ok := MapBlocks(virt, allocation, flags, loc.value);
        if !ok {
          return ClaimStop;
        }
        NothingThenChanged(before, now, space.State(), space.slot, virt, virt + pages);
      }
    }

    /** map_to_range */
    method MapToRange(frame: nat, virt: nat, pages: nat, flags: Flags) returns (r: Claim)
      requires space.Valid() && ranges.Valid() && ranges.slot == space.slot && virt + pages < PAGES_IN_64_BITS
      modifies space, space.mem, ranges
      ensures r.Refused? <==> !old(Claimable(virt, pages))
      ensures r.Refused? ==> unchanged(space, space.mem, ranges)
      ensures r.Claimed? ==> space.Valid() && ranges.Valid() && MapsNewly(virt, Consecutive(frame, pages), flags)
      ensures r.Claimed? ==> ranges.Live() == old(ranges.Live()) + Range(virt, pages)
      ensures r.ClaimStop? ==> old(|space.stock|) < 2 * pages + 2
    {
      hide GoodTree, GoodStock, TablesIn, SameTables, SameMap, SameOutside, AllGood, Leaf, PtAt, PdAt, Find;
      ghost var before := space.State();
      var loc;
      r, loc := ReserveAt(virt, pages);
      if r.Claimed? {
        ghost var now := space.State();
        var last := space.MapRange(virt, frame, pages, flags, loc.value, virt);
        if last.None? {
          return ClaimStop;
        }
        BlockIsGood(virt, frame, pages, virt, Consecutive(frame, pages), flags);
        NothingThenChanged(before, now, space.State(), space.slot, virt, virt + pages);
      }
    }

    // ----- alloc_pages and free_pages

    /** The ghost record of a new live result. */
    ghost method Record(virt: nat, list: seq<nat>, kept: set<nat>, flags: Flags, was: Tables, live: set<nat>,
        free: set<nat>)
      requires frames.Valid() && space.Valid() && ranges.Valid() && ranges.slot == space.slot
      requires GoodTree(was) && AllHeld(was, space.slot, live, free, held) && list != [] && NoRepeats(list)
      requires space.InSpace(virt, |list|)
      requires AllGood(space.State(), virt, virt + |list|, space.ListMapped(virt, list, flags))
      requires SameOutside(was, space.State(), space.slot, virt, virt + |list|)
      requires Range(virt, |list|) !! live
               && ranges.Live() == live + Range(virt, |list|)
      requires FrameSet(list) <= kept <= free && frames.FreePages() == free - kept
      requires TablesApart(space.tableFrames, free, held)
      modifies this
      ensures Valid() && virt !in old(held) && held == old(held)[virt := Holding(list, kept)]
    {
      GoodMapsList(virt, list, flags);
      HoldMore(was, space.State(), space.slot, live, free, held, virt, Holding(list, kept));
      TablesStayApart(space.tableFrames, free, held, virt, Holding(list, kept), {});
      held := held[virt := Holding(list, kept)];
    }

    /** Enough free pages, no read past the table of list heads, and room to map the pages. */
    ghost predicate CanServe(pages: nat)
      requires frames.lists.Length == FRAME_ORDERS
      reads frames.lists, space, ranges
    {
      && 0 < pages <= |frames.FreePages()| && HasRoom(pages)
      && (frames.junkPastTable ==> WholeTops(pages) <= |frames.lists[TOP_ORDER]|)
    }

    /** alloc_frames, its result seen as the list of its frames. */
    method GetFrames(pages: nat) returns (a: FrameResult)
      requires frames.Valid()
      modifies frames.lists, frames.buddies.words
      ensures a.FrameFault? <==> frames.junkPastTable && WholeTops(Wrapped(pages)) > old(|frames.lists[TOP_ORDER]|)
      ensures a.Frames? ==> frames.Valid() && (a.blocks != [] <==> 0 < Wrapped(pages) <= old(|frames.FreePages()|))
      ensures a.Frames? && a.blocks == [] ==> frames.Free() == old(frames.Free())
      ensures a.Frames? && a.blocks != [] ==>
                var list := FrameList(a.blocks);
                && (forall b <- a.blocks :: b.order < FRAME_ORDERS)
                && |list| == TotalPages(a.blocks) == Wrapped(pages) && NoRepeats(list)
                && FrameSet(list) <= old(frames.FreePages())
                && frames.FreePages() == old(frames.FreePages()) - FrameSet(list)
                && a.blocks == TakenFrom(old(frames.lists[..]), Wrapped(pages))
    {
      ghost var splits;
      a, splits := frames.AllocFrames(pages);
      if a.Frames? && a.blocks != [] {
        FrameListLength(a.blocks);
        FramesAreDistinct(a.blocks, frames.limit);
        FrameSetIsAllocated(a.blocks);
      }
    }

    /** Maps frames just taken from the allocator, and records the result. */
    method MapFrames(allocation: seq<Block>, flags: Flags, ghost free: set<nat>) returns (r: Result)
      requires frames.Valid() && space.Valid() && ranges.Valid() && ranges.slot == space.slot
      requires AllHeld(space.State(), space.slot, ranges.Live(), free, held)
      requires TablesApart(space.tableFrames, free, held)
      requires allocation != [] && forall b <- allocation :: b.order < FRAME_ORDERS
      requires FrameList(allocation) != [] && NoRepeats(FrameList(allocation))
               && FrameSet(FrameList(allocation)) <= free
      requires frames.FreePages() == free - FrameSet(FrameList(allocation))
      modifies this, space, space.mem, ranges
      ensures !r.Null? && space.Valid()
      ensures r.At? ==> MapsNewly(r.virt, FrameList(allocation), flags)
      ensures r.At? && old(ranges.Fair(|FrameList(allocation)|)) ==>
                Valid() && r.virt !in old(held)
                && held == old(held)[r.virt := Holding(FrameList(allocation), FrameSet(FrameList(allocation)))]
      ensures old(HasRoom(TotalPages(allocation))) ==> r.At?
    {
      hide GoodTree, GoodStock, TablesIn, TablesApart, SameOutside, AllGood, AllHeld, FrameList, TotalPages, NoBuddies,
           AllWellFormed, FreeSets.Disjoint, LivePages, Partitioned, Carves, FirstFit, Find, Leaf, FrameSet, HasRoom;
      ghost var list, was, live := FrameList(allocation), space.State(), ranges.Live();
      r := MapAllocation(allocation, flags);
      if r.At? && old(ranges.Fair(|list|)) {
        Record(r.virt, list, FrameSet(list), flags, was, live, free);
      }
    }

    /**
     alloc_pages.  A result maps that many pages, one after the other, to frames that were free, and
     shares neither pages nor frames with anything live; the invariant survives unless the address was
     carved off a larger range with an addition.  `list` has the frames as they are mapped.
     */
    method AllocPages(pages: nat, flags: Flags) returns (r: Result, list: seq<nat>)
      requires Valid()
      modifies this, frames.lists, frames.buddies.words, space, space.mem, ranges
      ensures r.Null? ==> Valid() && unchanged(this, space, space.mem, ranges) && frames.Free() == old(frames.Free())
      ensures r.Null? <==> !(0 < Wrapped(pages) <= old(|frames.FreePages()|))
                           && !(frames.junkPastTable && WholeTops(Wrapped(pages)) > old(|frames.lists[TOP_ORDER]|))
      ensures r.At? ==> 0 < |list| == Wrapped(pages) <= old(|frames.FreePages()|)
      ensures r.At? ==> space.Valid() && MapsNewly(r.virt, list, flags) && NoRepeats(list)
      ensures r.At? ==>
                FrameSet(list) <= old(frames.FreePages())
                && frames.FreePages() == old(frames.FreePages()) - FrameSet(list)
      ensures r.At? ==> list == FrameList(TakenFrom(old(frames.lists[..]), Wrapped(pages)))
      ensures r.At? && old(ranges.Fair(|list|)) ==>
                Valid() && r.virt !in old(held) && held == old(held)[r.virt := Holding(list, FrameSet(list))]
      ensures old(CanServe(Wrapped(pages))) ==> r.At?
    {
      hide GoodTree, GoodStock, TablesIn, TablesApart, SameOutside, AllGood, AllHeld, FrameList, TotalPages,
           NoBuddies, AllWellFormed, FreeSets.Disjoint, LivePages, Partitioned, Carves, FirstFit, Find, Leaf,
           FrameSet, HasRoom, NoRepeats, MinSizeOrder, Canonical, TakenFrom;
      list := [];
      ghost var free := frames.FreePages();
      var a := GetFrames(pages);
      if a.FrameFault? {
        return Stop, list;
      }
      if a.blocks == [] {
        return Null, list;
      }
      list := FrameList(a.blocks);
      r := MapFrames(a.blocks, flags, free);
    }

    /** alloc_pages_contiguous: the frames of the mapped pages are the front of one whole block kept for them. */
    method AllocPagesContiguous(pages: nat, flags: Flags) returns (r: Result, ghost addr: nat)
      requires Valid() && 0 < pages && MinSizeOrder(pages) < FRAME_ORDERS
      modifies this, frames.lists, frames.buddies.words, space, space.mem, ranges
      ensures r.Null? ==> Valid() && unchanged(this, space, space.mem, ranges, frames.lists, frames.buddies.words)
      ensures r.Null? <==> !old(frames.HasRun(MinSizeOrder(pages)) || frames.ContiguousFaults(MinSizeOrder(pages)))
      ensures r.At? ==>
                var b := Block(MinSizeOrder(pages), addr);
                && WellFormed(b, frames.limit) && PagesOf(b) <= old(frames.FreePages())
                && frames.FreePages() == old(frames.FreePages()) - PagesOf(b)
                && space.Valid() && MapsNewly(r.virt, Consecutive(addr, pages), flags)
                && (old(ranges.Fair(pages)) ==>
                      Valid() && r.virt !in old(held)
                      && held == old(held)[r.virt := Holding(Consecutive(addr, pages), PagesOf(b))])
      ensures r.At? ==>
                var l: ByOrder, k := old(frames.lists[..]), MinSizeOrder(pages);
                Least(l, k) < FRAME_ORDERS && addr == l[Least(l, k)][0]
      ensures old(frames.HasRun(MinSizeOrder(pages)) && !frames.ContiguousFaults(MinSizeOrder(pages))) ==>
                old(HasRoom(pages)) ==> r.At?
    {
      hide GoodTree, GoodStock, TablesIn, TablesApart, SameOutside, AllGood, AllHeld, FrameList, NoBuddies,
           AllWellFormed, FreeSets.Disjoint, LivePages, Partitioned, Carves, FirstFit, Find, Leaf, FrameSet, HasRoom,
           NoRepeats, MinSizeOrder, Least, SplitDown, Popped, FrameAllocator.HasRun, FrameAllocator.ContiguousFaults;
      addr := 0;
      ghost var was, live, free := space.State(), ranges.Live(), frames.FreePages();
      var a := frames.AllocContiguous(pages);
      if a.RunFault? {
        return Stop, addr;
      }
      if a.NoRun? {
        return Null, addr;
      }
      addr := a.addr;
      r := MapPhysRange(a.addr, pages, flags);
      if r.At? && old(ranges.Fair(pages)) {
        FrontOfBlock(addr, pages);
        Record(r.virt, Consecutive(addr, pages), PagesOf(Block(MinSizeOrder(pages), addr)), flags, was, live, free);
      }
    }

    lemma FrontOfBlock(addr: nat, pages: nat)
      requires 0 < pages && MinSizeOrder(pages) < FRAME_ORDERS
      ensures NoRepeats(Consecutive(addr, pages))
      ensures FrameSet(Consecutive(addr, pages)) <= PagesOf(Block(MinSizeOrder(pages), addr))
    {
      var b := Block(MinSizeOrder(pages), addr);
      MinSizeOrderIsLeast(pages, b.order);
      forall f | f in Consecutive(addr, pages) ensures f in PagesOf(b) {
        assert Holds(b, f);
      }
    }

    /** unmap_range, for any handed out range whose page tables exist */
    method UnmapRange(virt: nat, pages: nat)
      requires space.Valid() && ranges.Valid() && space.InSpace(virt, pages) && space.Walkable(virt, pages)
      requires ranges.start <= virt && virt + pages <= ranges.current && Range(virt, pages) <= ranges.Live()
      modifies space, space.mem, ranges
      ensures space.Valid() && ranges.Valid() && ranges.Live() == old(ranges.Live()) - Range(virt, pages)
      ensures SameOutside(old(space.State()), space.State(), space.slot, virt, virt + pages)
      ensures forall v: nat :: virt <= v < virt + pages ==> ViewOf(space.State(), v).None?
    {
      ranges.AddRange(virt, pages);
      space.ClearRange(virt, pages);
      ClearedPages(virt, pages);
    }

    /** A live result lies in its slot and in the handed out addresses, and its tables exist. */
    lemma ReadyToUnmap(virt: nat)
      requires Valid() && virt in held
      ensures var pages := |held[virt].list|;
              && space.InSpace(virt, pages) && space.Walkable(virt, pages)
              && ranges.start <= virt && virt + pages <= ranges.current
              && Range(virt, pages) <= ranges.Live()
    {
      var h := held[virt];
      assert HoldingOk(space.State(), space.slot, frames.FreePages(), virt, h);
      MappedMeansWalkable(space.State(), space.slot, virt, h.list);
      HeldPagesAreLive(space.State(), space.slot, ranges.Live(), frames.FreePages(), held, virt);
      var r := FreeRange(virt, |h.list|);
      assert InRange(r, virt) && InRange(r, virt + |h.list| - 1);
      assert virt in RangePages(r) && virt + |h.list| - 1 in RangePages(r);
    }

    /** free_pages_contiguous, with the page count of the allocation: gives back the whole block. */
    method FreePagesContiguous(virt: nat, pages: nat, ghost addr: nat)
      requires Valid() && virt in held && 0 < pages && MinSizeOrder(pages) < FRAME_ORDERS
      requires held[virt] == Holding(Consecutive(addr, pages), PagesOf(Block(MinSizeOrder(pages), addr)))
      requires WellFormed(Block(MinSizeOrder(pages), addr), frames.limit)
      modifies this, frames.lists, frames.buddies.words, space, space.mem, ranges
      ensures Valid() && held == old(held) - {virt}
      ensures frames.FreePages() == old(frames.FreePages()) + PagesOf(Block(MinSizeOrder(pages), addr))
      ensures ranges.Live() == old(ranges.Live()) - Range(virt, pages)
    {
      hide GoodTree, GoodStock, TablesIn, TablesApart, SameOutside, AllHeld, MinSizeOrder, NoBuddies, WellFormed;
      ghost var was, live, free := space.State(), ranges.Live(), frames.FreePages();
      ghost var b := Block(MinSizeOrder(pages), addr);
      var start := FirstFrame(virt);
      HeldFacts(virt);
      ReadyToUnmap(virt);
      UnmapRange(virt, pages);
      frames.FreeContiguous(start, pages);
      HoldLess(was, space.State(), space.slot, live, free, held, virt, PagesOf(b));
      TablesStayApart(space.tableFrames, free, held, virt, held[virt], PagesOf(b));
      held := held - {virt};
    }

    lemma HeldFacts(virt: nat)
      requires Valid() && virt in held
      ensures HoldingOk(space.State(), space.slot, frames.FreePages(), virt, held[virt])
    {
    }

    /** kvirt_to_phys_addr of the first page of a live result, as a frame number */
    method FirstFrame(virt: nat) returns (frame: nat)
      requires Valid() && virt in held
      ensures held[virt].list != [] && frame == held[virt].list[0]
    {
      hide Processor.Walk;
      assert HoldingOk(space.State(), space.slot, frames.FreePages(), virt, held[virt]);
      var phys := space.VirtToPhys(4096 * virt);
      assert space.View(virt) == ViewOf(space.State(), virt);
      frame := phys.value / 4096;
    }

    /**
     Frees one contiguous run of frames.  It stops at the assertion unless their number is a power of two,
     and the model stops at a power of two of frames that are no block: the source goes on and lists them.
     */
    method FreeRun(start: nat, count: nat, ghost list: seq<nat>, ghost freed: seq<FrameRun>, ghost free: set<nat>)
      returns (r: Freeing)
      requires frames.Valid() && NoRepeats(list) && AllBlocks(freed, frames.limit)
      requires freed + [FrameRun(start, count)] <= RunsOf(list)
      requires FrameSet(list) !! free && frames.FreePages() == free + FrameSet(Concat(freed))
      modifies frames.lists, frames.buddies.words
      ensures r == Judge(FrameRun(start, count), frames.limit)
      ensures !r.Freed? ==> r == JudgeAll(RunsOf(list), frames.limit)
      ensures r.Freed? ==> frames.Valid() && AllBlocks(freed + [FrameRun(start, count)], frames.limit)
      ensures r.Freed? ==> frames.FreePages() == free + FrameSet(Concat(freed + [FrameRun(start, count)]))
    {
      hide MinSizeOrder, NoBuddies, RunsOf, Concat, PopCount, JudgeAll;
      var run := FrameRun(start, count);
      r := Judge(run, frames.limit);
      if !r.Freed? {
        FirstBadRun(RunsOf(list), freed, run, frames.limit);
        return;
      }
      NextRunIsNew(list, freed, run);
      RunIsBlock(run, frames.limit);
      frames.FreeContiguous(start, count);
    }

    /** What one page of the range does to the open run: starts it, grows it, or ends it without joining one. */
    method ScanFrame(start: nat, curr: nat, count: nat, frame: nat, ghost list: seq<nat>, ghost i: nat,
        ghost free: set<nat>)
      returns (r: Freeing, start': nat, curr': nat, count': nat)
      requires frames.Valid() && NoRepeats(list) && FrameSet(list) !! free
      requires i < |list| && frame == list[i] && LoopState(ScanOf(list[..i]), start, curr, count)
      requires AllBlocks(ScanOf(list[..i]).freed, frames.limit)
      requires frames.FreePages() == free + FrameSet(Concat(ScanOf(list[..i]).freed))
      modifies frames.lists, frames.buddies.words
      ensures !r.Freed? ==> r == JudgeAll(RunsOf(list), frames.limit)
      ensures r.Freed? ==> frames.Valid() && LoopState(ScanOf(list[..i + 1]), start', curr', count')
      ensures r.Freed? ==> AllBlocks(ScanOf(list[..i + 1]).freed, frames.limit)
      ensures r.Freed? ==> frames.FreePages() == free + FrameSet(Concat(ScanOf(list[..i + 1]).freed))
    {
      hide NoBuddies, RunsOf, Concat, MinSizeOrder, AllBlocks, JudgeAll, Judge;
      ScanStep(list, i);
      r, start', curr', count' := Freed, start, curr, count;
      if count == 0 {
        start', curr', count' := frame, frame, 1;
      } else {
        curr' := curr + 1;
        if curr' != frame || count >= TOP_PAGES {
          r := FreeRun(start, count, list, ScanOf(list[..i]).freed, free);
          count' := 0;
        } else {
          count' := count + 1;
        }
      }
    }

    /** One round of the loop of unmap_and_free_frames. */
    method UnmapOne(virt: nat, i: nat, start: nat, curr: nat, count: nat, loc: Location, ghost from: nat,
                    ghost list: seq<nat>, ghost free: set<nat>)
      returns (r: Freeing, here: Location, start': nat, curr': nat, count': nat)
      requires space.Valid() && space.Agrees(loc, from) && (from == virt + i || from + 1 == virt + i)
               && Slot(virt + i) == space.slot
      requires i < |list| && space.View(virt + i).Some? && space.View(virt + i).value.frame == list[i]
      requires frames.Valid() && NoRepeats(list) && FrameSet(list) !! free
      requires LoopState(ScanOf(list[..i]), start, curr, count) && AllBlocks(ScanOf(list[..i]).freed, frames.limit)
      requires frames.FreePages() == free + FrameSet(Concat(ScanOf(list[..i]).freed))
      modifies frames.lists, frames.buddies.words, space, space.mem
      ensures !r.Freed? ==> r == JudgeAll(RunsOf(list), frames.limit)
      ensures space.Valid() && SameTables(old(space.State()), space.State())
      ensures r.Freed? ==> space.Agrees(here, virt + i) && space.View(virt + i).None?
      ensures SameOutside(old(space.State()), space.State(), space.slot, virt + i, virt + i + 1)
      ensures r.Freed? ==> frames.Valid() && LoopState(ScanOf(list[..i + 1]), start', curr', count')
      ensures r.Freed? ==> AllBlocks(ScanOf(list[..i + 1]).freed, frames.limit)
      ensures r.Freed? ==> frames.FreePages() == free + FrameSet(Concat(ScanOf(list[..i + 1]).freed))
    {
      hide GoodTree, GoodStock, TablesIn, SameTables, SameOutside, Leaf, PtAt, PdAt, Find, RunsOf, ScanOf, Concat,
           AllBlocks, LoopState, JudgeAll, Canonical, FrameAllocator.Consistent, FrameAllocator.Valid;
      var frame;
      ghost var before := space.State();
      here, frame := space.Peek(virt + i, loc, from);
      r, start', curr', count' := ScanFrame(start, curr, count, frame, list, i, free);
      if !r.Freed? {
        NothingChanged(before, space.slot, virt + i, virt + i + 1);
        return;
      }
      space.Wipe(virt + i, here);
    }

    lemma NothingChanged(t: Tables, slot: nat, low: nat, high: nat)
      requires GoodTree(t)
      ensures SameTables(t, t) && SameOutside(t, t, slot, low, high)
    {
    }

    /** The loop of unmap_and_free_frames over the pages of a live result. */
    method UnmapFrames(virt: nat, pages: nat, ghost list: seq<nat>, ghost free: set<nat>) returns (r: Freeing)
      requires pages == |list| && space.Valid() && frames.Valid() && frames.FreePages() == free
               && FrameSet(list) !! free && list != []
      requires MapsList(space.State(), space.slot, virt, list) && space.Walkable(virt, |list|) && NoRepeats(list)
      modifies frames.lists, frames.buddies.words, space, space.mem
      ensures r == JudgeAll(RunsOf(list), frames.limit)
      ensures r.Freed? ==> space.Valid() && frames.Valid()
      ensures r.Freed? ==> SameOutside(old(space.State()), space.State(), space.slot, virt, virt + |list|)
      ensures r.Freed? ==> AllGood(space.State(), virt, virt + |list|, space.Unmapped())
      ensures r.Freed? ==> frames.FreePages() == free + FrameSet(Concat(RunsOf(list)))
    {
      hide GoodTree, GoodStock, TablesIn, SameTables, SameOutside, AllGood, Leaf, PtAt, PdAt, Find, WalkableIn,
           MapsList, RunsOf, Concat, AllBlocks, LoopState, FrameSet, NoRepeats, JudgeAll,
           FrameAllocator.Consistent, FrameAllocator.Valid;
      ghost var was := space.State();
      var loc := space.Populate(virt, false);
      var here := loc.value;
      var start: nat, curr: nat, count: nat := 0, 0, 0;
      NoPageYet(was, space.slot, virt, space.Unmapped());
      NothingScanned(list, frames.limit);
      for i := 0 to pages
        invariant space.Valid() && SameTables(was, space.State())
        invariant space.Agrees(here, if i == 0 then virt else virt + i - 1)
        invariant AllGood(space.State(), virt, virt + i, space.Unmapped())
        invariant SameOutside(was, space.State(), space.slot, virt, virt + i)
        invariant frames.Valid() && LoopState(ScanOf(list[..i]), start, curr, count)
        invariant AllBlocks(ScanOf(list[..i]).freed, frames.limit)
        invariant frames.FreePages() == free + FrameSet(Concat(ScanOf(list[..i]).freed))
      {
        ghost var now := space.State();
        EntryOfList(was, now, virt, list, i);
        ghost var from := if i == 0 then virt else virt + i - 1;
        r, here, start, curr, count := UnmapOne(virt, i, start, curr, count, here, from, list, free);
        if !r.Freed? {
          return;
        }
        OnePageMore(was, now, space.State(), space.slot, virt, virt + i, space.Unmapped());
      }
      assert list[..pages] == list;
      r := FreeOpenRun(start, curr, count, list, free);
    }

    /** Frees the run still open at the end of the range. */
    method FreeOpenRun(start: nat, curr: nat, count: nat, ghost list: seq<nat>, ghost free: set<nat>)
      returns (r: Freeing)
      requires frames.Valid() && NoRepeats(list) && FrameSet(list) !! free
      requires LoopState(ScanOf(list), start, curr, count) && AllBlocks(ScanOf(list).freed, frames.limit)
      requires frames.FreePages() == free + FrameSet(Concat(ScanOf(list).freed))
      modifies frames.lists, frames.buddies.words
      ensures r == JudgeAll(RunsOf(list), frames.limit)
      ensures r.Freed? ==> frames.Valid() && frames.FreePages() == free + FrameSet(Concat(RunsOf(list)))
    {
      hide NoBuddies, Concat, ScanOf, AllBlocks, MinSizeOrder, JudgeAll, Judge;
      FreedMeansBlocks(RunsOf(list), frames.limit);
      r := Freed;
      if count != 0 {
        r := FreeRun(start, count, list, ScanOf(list).freed, free);
      }
    }

    lemma NothingScanned(list: seq<nat>, limit: nat)
      ensures ScanOf(list[..0]) == SCAN_START && LoopState(SCAN_START, 0, 0, 0)
      ensures AllBlocks([], limit) && FrameSet(Concat([])) == {}
    {
    }

    /** Pages not yet cleared still map to their frames. */
    lemma EntryOfList(was: Tables, now: Tables, virt: nat, list: seq<nat>, i: nat)
      requires GoodTree(was) && GoodTree(now) && i < |list| && MapsList(was, space.slot, virt, list)
      requires SameOutside(was, now, space.slot, virt, virt + i)
      ensures Slot(virt + i) == space.slot && ViewOf(now, virt + i).Some?
              && ViewOf(now, virt + i).value.frame == list[i]
      ensures forall w: nat :: virt <= w <= virt + i ==> Slot(w) == space.slot
    {
      OutsideIsSame(was, now, space.slot, virt, virt + i, virt + i);
    }

    /**
     free_pages, which is unmap_and_free_frames, for a live result of alloc_pages.  It ends well exactly
     when every run of the scan is a block; then all pages are unmapped, and the frames freed except those
     that end a run.  One clause says the same of the one way to cut the range, without the scan.
     */
    method FreePages(virt: nat, pages: nat) returns (r: Freeing)
      requires Valid() && virt in held && |held[virt].list| == pages && held[virt].kept == FrameSet(held[virt].list)
      modifies this, frames.lists, frames.buddies.words, space, space.mem, ranges
      ensures r == JudgeAll(RunsOf(old(held[virt].list)), frames.limit)
      ensures r.Freed? ==> Valid() && held == old(held) - {virt}
      ensures r.Freed? ==> ranges.Live() == old(ranges.Live()) - Range(virt, pages)
      ensures r.Freed? ==>
                var list := old(held[virt].list);
                frames.FreePages() == old(frames.FreePages()) + (FrameSet(list) - FrameSet(Dropped(list)))
      ensures forall runs, dropped ::
                CutsInto(old(held[virt].list), runs, dropped) ==>
                  && r == JudgeAll(runs, frames.limit)
                  && (r.Freed? ==> frames.FreePages() == old(frames.FreePages()) + FrameSet(Concat(runs)))
      ensures r.Freed? ==> SameOutside(old(space.State()), space.State(), space.slot, virt, virt + pages)
    {
      hide GoodTree, GoodStock, TablesIn, TablesApart, SameOutside, AllGood, AllHeld, Leaf, PtAt, PdAt, Find, NoBuddies,
           RunsOf, Dropped, Concat, AllBlocks, JudgeAll, CutsInto;
      ghost var was, live, free := space.State(), ranges.Live(), frames.FreePages();
      ghost var list := held[virt].list;
      HeldFacts(virt);
      ReadyToUnmap(virt);
      FreedOnce(list);
      forall runs, dropped | CutsInto(list, runs, dropped) ensures runs == RunsOf(list) {
        OneCutting(list, runs, dropped);
      }
      ranges.AddRange(virt, pages);
      r := UnmapFrames(virt, pages, list, free);
      if r.Freed? {
        ClearedPages(virt, pages);
        HoldLess(was, space.State(), space.slot, live, free, held, virt, FrameSet(list) - FrameSet(Dropped(list)));
        TablesStayApart(space.tableFrames, free, held, virt, held[virt], FrameSet(list) - FrameSet(Dropped(list)));
        held := held - {virt};
      }
    }

    lemma ClearedPages(virt: nat, pages: nat)
      requires space.Valid() && AllGood(space.State(), virt, virt + pages, space.Unmapped())
      ensures forall v: nat :: virt <= v < virt + pages ==> ViewOf(space.State(), v).None?
    {
      assert forall v: nat :: virt <= v < virt + pages ==> space.Unmapped()(v, ViewOf(space.State(), v));
    }
  }

  /**
   free_pages_contiguous undoes alloc_pages_contiguous: every free list, the handed out addresses and
   the live results are as they were, whenever the address was not carved off with an addition.
   */
  method AllocThenFreePagesContiguous(memory: Memory, pages: nat, flags: Flags) returns (r: Result)
    requires memory.Valid() && 0 < pages && MinSizeOrder(pages) < FRAME_ORDERS
    modifies memory, memory.frames.lists, memory.frames.buddies.words, memory.space, memory.space.mem, memory.ranges
    ensures !r.Stop? && old(memory.ranges.Fair(pages)) ==>
              && memory.Valid() && memory.held == old(memory.held)
              && memory.frames.Free() == old(memory.frames.Free()) && memory.ranges.Live() == old(memory.ranges.Live())
  {
    hide GoodTree, GoodStock, TablesIn, TablesApart, SameOutside, AllGood, AllHeld, MinSizeOrder;
    var fair := memory.ranges.Fair(pages);
    ghost var addr;
    r, addr := memory.AllocPagesContiguous(pages, flags);
    if r.At? && fair {
      ghost var b := Block(MinSizeOrder(pages), addr);
      memory.FreePagesContiguous(r.virt, pages, addr);
      FrameRuns.Restored(memory.frames.Free(), old(memory.frames.Free()), memory.frames.limit, PagesOf(b));
    }
  }

  /**
   free_pages on a result of alloc_pages, with nothing else allocated or freed since the free blocks were
   `was`: it ends well and brings back exactly those blocks if and only if the frames are one block.
   */
  method FreeLatest(memory: Memory, virt: nat, pages: nat, ghost was: set<Block>) returns (r: Freeing)
    requires memory.Valid() && virt in memory.held && |memory.held[virt].list| == pages
    requires memory.held[virt].kept == FrameSet(memory.held[virt].list)
    requires Canonical(was, memory.frames.limit) && FrameSet(memory.held[virt].list) <= Pages(was)
    requires memory.frames.FreePages() == Pages(was) - FrameSet(memory.held[virt].list)
    modifies memory, memory.frames.lists, memory.frames.buddies.words, memory.space, memory.space.mem, memory.ranges
    ensures r.Freed? ==> memory.Valid() && memory.held == old(memory.held) - {virt}
    ensures r.Freed? && memory.frames.Free() == was <==>
            var list := old(memory.held[virt].list);
            list != [] && SingleRun(list) && IsBlock(FrameRun(list[0], |list|), memory.frames.limit)
  {
    hide GoodTree, GoodStock, TablesIn, TablesApart, SameOutside, AllGood, AllHeld, MinSizeOrder, RunsOf, IsBlock,
         AllBlocks, JudgeAll, SingleRun, LivePages, Canonical;
    ghost var list := memory.held[virt].list;
    memory.HeldFacts(virt);
    r := memory.FreePages(virt, pages);
    RightForOneBlockOnly(list, memory.frames.limit);
    FreedMeansBlocks(RunsOf(list), memory.frames.limit);
    AllFreedMeansNoneDropped(list);
    if r.Freed? {
      FreedAllOrNot(memory, was, list);
    }
  }

  lemma FreedAllOrNot(memory: Memory, was: set<Block>, list: seq<nat>)
    requires memory.Valid() && Canonical(was, memory.frames.limit) && FrameSet(list) <= Pages(was)
    requires memory.frames.FreePages() == Pages(was) - FrameSet(list) + (FrameSet(list) - FrameSet(Dropped(list)))
    ensures memory.frames.Free() == was <==> FrameSet(list) - FrameSet(Dropped(list)) == FrameSet(list)
  {
    if FrameSet(list) - FrameSet(Dropped(list)) == FrameSet(list) {
      FrameRuns.Restored(memory.frames.Free(), was, memory.frames.limit, FrameSet(list));
    }
  }

  lemma AllFreedMeansNoneDropped(list: seq<nat>)
    requires NoRepeats(list)
    ensures FrameSet(list) - FrameSet(Dropped(list)) == FrameSet(list) <==> Dropped(list) == []
  {
    EveryFrameAccountedFor(list);
    if Dropped(list) != [] {
      var f := Dropped(list)[0];
      assert f in multiset(Dropped(list));
      assert f in multiset(list);
      assert f in FrameSet(list) && f in FrameSet(Dropped(list));
    }
  }
}
