/**
 The slab allocator on top of the kernel's page allocator: every range of pages that kalloc uses is a live
 result of alloc_pages, and kfree gives it back to free_pages.
 */
module KernelHeap {
  import opened Blocks
  import opened FreeSets
  import opened FrameAllocator
  import opened Intervals
  import opened Lists
  import opened PageTables
  import opened Processor
  import opened AddressSpace
  import opened VirtualRanges
  import opened FrameScan
  import opened Holdings
  import opened Memory
  import FreeLists
  import FrameRuns
  import MemoryRuns
  import opened FreeChain
  import opened SlabLayout
  import opened SlabStates
  import opened SlabFrames
  import opened SlabAllocator

  /** PAGING_WRITABLE */
  const WRITABLE: Flags := Flags(true, false, false, false)

  /**
   A pointer, null, or a stop: a fault, an assertion, or frames freed that are no block.  The model also
   stops where the virtual range allocator is about to carve with an addition.
   */
  datatype Outcome = Got(p: nat) | Nothing | Stopped | Carved

  /** kalloc, or kfree of one of the pointers held. */
  datatype Request = Get(size: nat) | Give(which: nat)

  // ----- ranges of pages and live results

  /** Every range of pages is the live result of alloc_pages that starts there. */
  ghost predicate Linked(mapped: map<nat, seq<nat>>, held: map<nat, Holding>) {
    forall b <- mapped :: b / 4096 in held && held[b / 4096] == Holding(mapped[b], FrameSet(mapped[b]))
  }

  ghost predicate PagesApart(held: map<nat, Holding>) {
    forall v <- held, w <- held :: v != w ==> v + |held[v].list| <= w || w + |held[w].list| <= v
  }

  /** A new live result has pages that the slab allocator does not use. */
  lemma HeldIsFresh(owner: map<nat, Owner>, mapped: map<nat, seq<nat>>, limit: nat, held: map<nat, Holding>, s: Supply)
    requires Backed(owner, mapped, limit) && Linked(mapped, held) && PagesApart(held)
    requires s.ptr % PAGE_SIZE == 0 && s.frames != [] && forall f <- s.frames :: f < limit
    requires s.ptr / 4096 in held && held[s.ptr / 4096].list == s.frames
    requires s.ptr !in mapped
    ensures FreshSupply(owner, s, |s.frames|, limit)
  {
    forall p | p in owner ensures p !in PageSet(s.ptr, |s.frames|) {
      var b := RangeOf(owner[p]);
      assert b in mapped && OnPages(b, |mapped[b]|, p);
      assert b / 4096 != s.ptr / 4096 by {
        SamePageSameStart(b, s.ptr);
      }
    }
  }

  lemma SamePageSameStart(b: nat, c: nat)
    requires b % PAGE_SIZE == 0 && c % PAGE_SIZE == 0
    ensures b / 4096 == c / 4096 <==> b == c
  {
  }

  /** Two live results have no page in common. */
  lemma TwoResultsApart(held: map<nat, Holding>, s: Supply, t: Supply)
    requires PagesApart(held) && s.ptr / 4096 in held && t.ptr / 4096 in held && s.ptr / 4096 != t.ptr / 4096
    requires held[s.ptr / 4096].list == s.frames && held[t.ptr / 4096].list == t.frames
    ensures PageSet(s.ptr, |s.frames|) !! PageSet(t.ptr, |t.frames|)
  {
    forall p | p in PageSet(s.ptr, |s.frames|) ensures p !in PageSet(t.ptr, |t.frames|) {
    }
  }

  // ----- what may be done with the pages

  /** The kernel may write there, user code may do nothing, and nothing is executed if that can be prevented. */
  predicate Usable(r: Option<PageEntry>, canDisableExecution: bool) {
    && r.Some? && r.value.write && !r.value.user && r.value.prot == 0
    && !r.value.cacheDisable && !r.value.writeThrough && r.value.executeDisable == canDisableExecution
  }

  ghost predicate AllUsable(t: Tables, m: map<nat, seq<nat>>, canDisableExecution: bool)
    requires GoodTree(t)
  {
    forall b, v: nat :: b in m && OnPages(b, |m[b]|, v) ==>
      Slot(v) == KERNEL_SLOT && Usable(ViewOf(t, v), canDisableExecution)
  }

  /** A range that has just been mapped writable. */
  lemma MappedIsUsable(space: AddressSpace, t: Tables, m: map<nat, seq<nat>>, held: map<nat, Holding>, s: Supply)
    requires space.Valid() && space.isKernel && space.slot == KERNEL_SLOT && GoodTree(t)
    requires AllUsable(t, m, space.canDisableExecution) && s.ptr % PAGE_SIZE == 0 && s.ptr !in m
    requires Linked(m[s.ptr := s.frames], held) && PagesApart(held) && forall b <- m :: b % PAGE_SIZE == 0
    requires var low, high := s.ptr / 4096, s.ptr / 4096 + |s.frames|;
             && space.InSpace(low, |s.frames|) && SameOutside(t, space.State(), space.slot, low, high)
             && AllGood(space.State(), low, high, space.ListMapped(low, s.frames, WRITABLE))
    ensures AllUsable(space.State(), m[s.ptr := s.frames], space.canDisableExecution)
  {
    hide GoodStock, Leaf, GoodLink, Unrelated, OpenLinks;
    var low, more := s.ptr / 4096, m[s.ptr := s.frames];
    forall b, v: nat | b in more && OnPages(b, |more[b]|, v)
      ensures Slot(v) == KERNEL_SLOT && Usable(ViewOf(space.State(), v), space.canDisableExecution)
    {
      if b == s.ptr {
        assert low <= v < low + |s.frames|;
        assert space.ListMapped(low, s.frames, WRITABLE)(v, ViewOf(space.State(), v));
        assert space.MapsTo(ViewOf(space.State(), v), s.frames[v - low], WRITABLE);
      } else {
        SamePageSameStart(b, s.ptr);
        assert b in m && b / 4096 in held && low in held;
        assert !(low <= v < low + |s.frames|);
        assert OnPages(b, |m[b]|, v);
      }
    }
  }

  /** A range that has been unmapped. */
  lemma OthersStayUsable(t: Tables, u: Tables, m: map<nat, seq<nat>>, held: map<nat, Holding>, b: nat, nx: bool)
    requires GoodTree(t) && GoodTree(u) && AllUsable(t, m, nx) && b in m && Linked(m, held) && PagesApart(held)
    requires SameOutside(t, u, KERNEL_SLOT, b / 4096, b / 4096 + |m[b]|) && forall c <- m :: c % PAGE_SIZE == 0
    ensures AllUsable(u, m - {b}, nx)
  {
    hide Leaf, GoodLink, Unrelated;
    forall c, v: nat | c in m - {b} && OnPages(c, |m[c]|, v)
      ensures Slot(v) == KERNEL_SLOT && Usable(ViewOf(u, v), nx)
    {
      SamePageSameStart(b, c);
      assert c / 4096 in held && b / 4096 in held;
      assert !(b / 4096 <= v < b / 4096 + |m[b]|);
    }
  }

  // ----- the books of frames

  /** The frames under these ranges of pages. */
  ghost function FramesUnder(mapped: map<nat, seq<nat>>): set<nat> {
    set b, f | b in mapped && f in mapped[b] :: f
  }

  /** No frame is in two places: free, lost, or under one of the ranges. */
  ghost predicate InOnePlace(free: set<nat>, mapped: map<nat, seq<nat>>, lost: set<nat>) {
    && free !! lost && (forall b <- mapped :: FrameSet(mapped[b]) !! free + lost)
    && (forall b <- mapped, c <- mapped :: b != c ==> FrameSet(mapped[b]) !! FrameSet(mapped[c]))
  }

  ghost function AllFrames(free: set<nat>, mapped: map<nat, seq<nat>>, lost: set<nat>): set<nat> {
    free + FramesUnder(mapped) + lost
  }

  /** Taking free frames for a range. */
  lemma TakeFrames(free: set<nat>, mapped: map<nat, seq<nat>>, lost: set<nat>, b: nat, frames: seq<nat>)
    requires InOnePlace(free, mapped, lost) && FrameSet(frames) <= free && b !in mapped
    ensures InOnePlace(free - FrameSet(frames), mapped[b := frames], lost)
    ensures AllFrames(free - FrameSet(frames), mapped[b := frames], lost) == AllFrames(free, mapped, lost)
  {
    UnderMore(mapped, b, frames);
  }

  lemma UnderMore(mapped: map<nat, seq<nat>>, b: nat, frames: seq<nat>)
    requires b !in mapped
    ensures FramesUnder(mapped[b := frames]) == FramesUnder(mapped) + FrameSet(frames)
  {
    var more := mapped[b := frames];
    forall f | f in FramesUnder(mapped) + FrameSet(frames) ensures f in FramesUnder(more) {
      if f in FrameSet(frames) {
        assert b in more && f in more[b];
      } else {
        var c :| c in mapped && f in mapped[c];
        assert c in more && f in more[c];
      }
    }
  }

  /** Giving a range back: its frames are free again, or lost. */
  lemma GiveFrames(free: set<nat>, mapped: map<nat, seq<nat>>, lost: set<nat>, b: nat)
    requires InOnePlace(free, mapped, lost) && b in mapped
    ensures var back := FrameSet(mapped[b]) - FrameSet(Dropped(mapped[b]));
            && InOnePlace(free + back, mapped - {b}, lost + LostFrom(mapped[b]))
            && AllFrames(free + back, mapped - {b}, lost + LostFrom(mapped[b])) == AllFrames(free, mapped, lost)
  {
    DroppedIsPart(mapped[b]);
    UnderMore(mapped - {b}, b, mapped[b]);
    assert (mapped - {b})[b := mapped[b]] == mapped;
  }

  lemma DroppedIsPart(list: seq<nat>)
    ensures FrameSet(Dropped(list)) <= FrameSet(list)
  {
    EveryFrameAccountedFor(list);
    forall f | f in Dropped(list) ensures f in list {
      assert f in multiset(Dropped(list));
      assert f in multiset(list);
    }
  }

  // ----- alloc_pages for the slab allocator

  lemma FramesInMemory(memory: Memory)
    requires memory.Valid()
    ensures forall f <- memory.frames.FreePages() :: f < memory.frames.limit
  {
    forall f | f in memory.frames.FreePages() ensures f < memory.frames.limit {
      memory.frames.FreeBelowLimit(f);
    }
  }

  lemma ListInSet(list: seq<nat>, free: set<nat>, limit: nat)
    requires FrameSet(list) <= free && forall f <- free :: f < limit
    ensures forall f <- list :: f < limit
  {
    assert forall f <- list :: f in FrameSet(list);
  }

  lemma NotPageZero(space: AddressSpace, virt: nat, list: seq<nat>)
    requires list != [] && space.slot == KERNEL_SLOT && space.InSpace(virt, |list|)
    ensures virt > 0
  {
    assert Slot(virt) == KERNEL_SLOT;
  }

  /** A new live result and the range of pages at its address. */
  lemma LinkMore(m: map<nat, seq<nat>>, held: map<nat, Holding>, s: Supply)
    requires Linked(m, held) && s.ptr % PAGE_SIZE == 0 && s.ptr / 4096 !in held
    ensures s.ptr !in m
    ensures Linked(m[s.ptr := s.frames], held[s.ptr / 4096 := Holding(s.frames, FrameSet(s.frames))])
  {
  }

  lemma NullIsFresh(owner: map<nat, Owner>, pages: nat, limit: nat)
    ensures FreshSupply(owner, NO_PAGES, pages, limit)
  {
  }

  lemma LinkedPart(m: map<nat, seq<nat>>, s: Supply, held: map<nat, Holding>)
    requires s.ptr !in m && Linked(m[s.ptr := s.frames], held)
    ensures Linked(m, held) && s.ptr / 4096 in held && held[s.ptr / 4096] == Holding(s.frames, FrameSet(s.frames))
  {
    var more := m[s.ptr := s.frames];
    assert s.ptr in more;
    forall b | b in m ensures b / 4096 in held && held[b / 4096] == Holding(m[b], FrameSet(m[b])) {
      assert b in more;
    }
  }

  /** alloc_pages with what it returns as the slab allocator sees it; `m` has the ranges in use so far. */
  method GetPages(memory: Memory, pages: nat, ghost m: map<nat, seq<nat>>, ghost lost: set<nat>)
    returns (o: Outcome, s: Supply)
    requires memory.Valid() && memory.space.slot == KERNEL_SLOT && memory.space.isKernel
    requires Linked(m, memory.held) && InOnePlace(memory.frames.FreePages(), m, lost)
    requires AllUsable(memory.space.State(), m, memory.space.canDisableExecution) && forall b <- m :: b % PAGE_SIZE == 0
    modifies memory, memory.frames.lists, memory.frames.buddies.words, memory.space, memory.space.mem, memory.ranges
    ensures o.Got? || o.Nothing? ==> memory.Valid()
    ensures o.Nothing? ==> s == NO_PAGES && memory.held == old(memory.held)
                           && memory.frames.FreePages() == old(memory.frames.FreePages())
                           && AllUsable(memory.space.State(), m, memory.space.canDisableExecution)
    ensures o.Got? ==> AllUsable(memory.space.State(), m[s.ptr := s.frames], memory.space.canDisableExecution)
    ensures o.Got? ==>
              && s.ptr > 0 && s.ptr % PAGE_SIZE == 0 && s.frames != [] && |s.frames| == Wrapped(pages) && s.ptr !in m
              && (forall f <- s.frames :: f < memory.frames.limit)
              && memory.held == old(memory.held)[s.ptr / 4096 := Holding(s.frames, FrameSet(s.frames))]
              && Linked(m[s.ptr := s.frames], memory.held)
              && InOnePlace(memory.frames.FreePages(), m[s.ptr := s.frames], lost)
              && AllFrames(memory.frames.FreePages(), m[s.ptr := s.frames], lost)
                 == old(AllFrames(memory.frames.FreePages(), m, lost))
    ensures memory.ranges.subtracts ==> !o.Carved?
    ensures old(memory.CanServe(Wrapped(pages)) && memory.ranges.Fair(Wrapped(pages))) ==> o.Got?
  {
    hide GoodTree, GoodStock, AllGood, SameOutside, AllHeld, TablesApart, TablesIn, Partitioned, LivePages, FirstFit,
         Canonical, NoBuddies, FrameSet, MinSizeOrder, Leaf, PtAt, PdAt, Find, Carves, FreeSets.Disjoint,
         AllWellFormed, MapsList, Wrapped, Memory.HasRoom, Memory.CanServe, FrameAllocator.HasRun, Linked, InOnePlace,
         FrameAllocator.ContiguousFaults, AllFrames, Pages, AllUsable, PagesApart, FreeLists.TakenFrom;
    s := NO_PAGES;
    if !memory.ranges.Fair(Wrapped(pages)) {
      return Carved, s;
    }
    ghost var free := memory.frames.FreePages();
    FramesInMemory(memory);
    var r, list := memory.AllocPages(pages, WRITABLE);
    match r {
      case Stop => o := Stopped;
      case Null => o := Nothing;
      case At(virt) =>
        s, o := Supply(4096 * virt, list), Got(4096 * virt);
        NotPageZero(memory.space, virt, list);
        LinkMore(m, old(memory.held), s);
        ListInSet(list, free, memory.frames.limit);
        ResultsApart(memory);
        MappedIsUsable(memory.space, old(memory.space.State()), m, memory.held, s);
        TakeFrames(free, m, lost, s.ptr, list);
    }
  }

  lemma ResultsApart(memory: Memory)
    requires memory.Valid()
    ensures PagesApart(memory.held)
  {
    hide GoodTree, GoodStock, HoldingOk, TablesApart;
    forall v, w | v in memory.held && w in memory.held && v != w
      ensures v + |memory.held[v].list| <= w || w + |memory.held[w].list| <= v
    {
      assert HoldingsApart(v, memory.held[v], w, memory.held[w]);
    }
  }

  lemma WholePagesAreFew(size: nat)
    ensures WholePages(size) < PAGES_IN_64_BITS
  {
  }

  class Heap {
    const memory: Memory
    const slabs: SlabAllocator

    constructor (memory: Memory, slabs: SlabAllocator)
      requires memory.Valid() && memory.space.slot == KERNEL_SLOT && memory.space.isKernel && slabs.Valid()
      requires slabs.limit == memory.frames.limit && slabs.mapped == map[] && slabs.lost == {}
      ensures Valid() && this.memory == memory && this.slabs == slabs
    {
      this.memory, this.slabs := memory, slabs;
    }

    ghost predicate Joined()
      reads this, memory, memory.frames.lists, memory.frames.buddies.words
      reads memory.space, memory.space.mem, memory.ranges, slabs, slabs.caches
    {
      && memory.Valid() && memory.space.slot == KERNEL_SLOT && memory.space.isKernel
      && slabs.limit == memory.frames.limit
      && slabs.caches.Length == CACHES
    }

    ghost predicate RangesUsable(m: map<nat, seq<nat>>)
      requires Joined()
      reads this, memory, memory.frames.lists, memory.frames.buddies.words
      reads memory.space, memory.space.mem, memory.ranges, slabs, slabs.caches
    {
      AllUsable(memory.space.State(), m, memory.space.canDisableExecution)
    }

    /**
     Both allocators are valid, the ranges of the one are results of the other, mapped for the kernel to read
     and write, and no frame is in two places.
     */
    ghost predicate Valid()
      reads this, memory, memory.frames.lists, memory.frames.buddies.words
      reads memory.space, memory.space.mem, memory.ranges, slabs, slabs.caches
    {
      && Joined() && slabs.Valid() && Linked(slabs.mapped, memory.held)
      && RangesUsable(slabs.mapped)
      && InOnePlace(memory.frames.FreePages(), slabs.mapped, slabs.lost)
    }

    /** Every frame that is free, under a range of pages, or lost. */
    ghost function Total(): set<nat>
      reads memory, memory.frames.lists, slabs
    {
      AllFrames(memory.frames.FreePages(), slabs.mapped, slabs.lost)
    }

    /** The ranges in use once kalloc has its pages. */
    ghost function Fetched(first: Supply, second: Supply): map<nat, seq<nat>>
      reads slabs
    {
      if first.ptr == 0 then slabs.mapped
      else if second.ptr == 0 then slabs.mapped[first.ptr := first.frames]
      else slabs.mapped[first.ptr := first.frames][second.ptr := second.frames]
    }

    /** What the calls of alloc_pages that one kalloc makes have brought. */
    twostate predicate FetchedFor(pages: nat, k: nat, first: Supply, second: Supply)
      requires slabs.caches.Length == CACHES && k <= CACHES
      reads this, memory, memory.frames.lists, memory.frames.buddies.words
      reads memory.space, memory.space.mem, memory.ranges, slabs, slabs.caches
    {
      && Joined() && slabs.Supplied(pages, first, second)
      && Linked(Fetched(first, second), memory.held)
      && RangesUsable(Fetched(first, second))
      && InOnePlace(memory.frames.FreePages(), Fetched(first, second), slabs.lost)
      && AllFrames(memory.frames.FreePages(), Fetched(first, second), slabs.lost) == old(Total())
      && (first.ptr != 0 ==> slabs.NeedsPages(k) && first.ptr !in slabs.mapped)
      && (second.ptr != 0 ==> first.ptr != 0 && slabs.NeedsRecordPages(k) && second.ptr !in slabs.mapped
                              && second.ptr != first.ptr)
    }

    /** The request needs pages, none for records, and there is memory for them. */
    ghost predicate WillBeFetched(size: nat)
      requires Valid()
      reads this, memory, memory.frames.lists, memory.frames.buddies.words
      reads memory.space, memory.space.mem, memory.ranges, slabs, slabs.caches
    {
      && slabs.NeedsPages(CacheFor(size)) && !slabs.NeedsRecordPages(CacheFor(size))
      && memory.CanServe(slabs.PagesWanted(size)) && memory.ranges.Fair(slabs.PagesWanted(size))
    }

    /** The calls of alloc_pages that one kalloc makes. */
    method Fetch(size: nat) returns (o: Outcome, first: Supply, second: Supply)
      requires Valid()
      modifies memory, memory.frames.lists, memory.frames.buddies.words, memory.space, memory.space.mem, memory.ranges
      ensures o.Got? || o.Stopped? || o.Carved?
      ensures o.Got? ==> FetchedFor(slabs.PagesWanted(size), CacheFor(size), first, second)
      ensures !slabs.NeedsPages(CacheFor(size)) ==> o.Got?
      ensures old(WillBeFetched(size)) ==> o.Got? && first.ptr != 0
      ensures memory.ranges.subtracts ==> !o.Carved?
    {
      hide FreshSupply, Linked, InOnePlace, AllFrames, AllUsable, Wrapped, WholePages, CacheFor, Good, NoLeak, Tidy,
           Backed, Memory.Valid, Memory.CanServe, VirtualRanges.Fair, FrameAllocator.FreePages;
      first, second := NO_PAGES, NO_PAGES;
      RangesAreAligned(slabs.owner, slabs.mapped, slabs.limit);
      NullIsFresh(slabs.owner, slabs.PagesWanted(size), slabs.limit);
      NullIsFresh(slabs.owner, slabs.caches[RECORD_CACHE].layout.pages, slabs.limit);
      var k := CacheFor(size);
      ghost var m, lost := slabs.mapped, slabs.lost;
      if slabs.NeedsPages(k) {
        WantedIsExact(size);
        o, first := GetPages(memory, slabs.PagesWanted(size), m, lost);
        if o.Stopped? || o.Carved? {
          return;
        }
        if o.Got? {
          ResultsApart(memory);
          LinkedPart(m, first, memory.held);
          HeldIsFresh(slabs.owner, m, slabs.limit, memory.held, first);
        }
        if o.Got? && slabs.NeedsRecordPages(k) {
          m := m[first.ptr := first.frames];
          RecordPagesAreExact();
          o, second := GetPages(memory, slabs.caches[RECORD_CACHE].layout.pages, m, lost);
          if o.Stopped? || o.Carved? {
            return;
          }
          if o.Got? {
            ResultsApart(memory);
            LinkedPart(m, second, memory.held);
            LinkedPart(slabs.mapped, first, memory.held);
            HeldIsFresh(slabs.owner, slabs.mapped, slabs.limit, memory.held, second);
            TwoResultsApart(memory.held, first, second);
          }
        }
      }
      o := Got(first.ptr);
    }

    lemma WantedIsExact(size: nat)
      requires slabs.Valid()
      ensures Wrapped(slabs.PagesWanted(size)) == slabs.PagesWanted(size)
    {
      hide WholePages;
      WholePagesAreFew(size);
      FrameRuns.WrappedIsExact(slabs.PagesWanted(size));
    }

    lemma RecordPagesAreExact()
      requires slabs.Valid()
      ensures Wrapped(slabs.caches[RECORD_CACHE].layout.pages) == slabs.caches[RECORD_CACHE].layout.pages
    {
      FrameRuns.WrappedIsExact(slabs.caches[RECORD_CACHE].layout.pages);
    }

    /** A range of pages in use, handed to free_pages. */
    method GiveBack(b: nat, pages: nat, ghost m: map<nat, seq<nat>>, ghost lost: set<nat>) returns (r: Freeing)
      requires Joined() && b in m && |m[b]| == pages && Linked(m, memory.held) && forall c <- m :: c % PAGE_SIZE == 0
      requires RangesUsable(m)
      requires InOnePlace(memory.frames.FreePages(), m, lost)
      modifies memory, memory.frames.lists, memory.frames.buddies.words, memory.space, memory.space.mem, memory.ranges
      ensures r == Verdict(m[b], memory.frames.limit)
      ensures r.Freed? ==> Joined() && Linked(m - {b}, memory.held)
      ensures r.Freed? ==> RangesUsable(m - {b})
      ensures r.Freed? ==> InOnePlace(memory.frames.FreePages(), m - {b}, lost + LostFrom(m[b]))
      ensures r.Freed? ==> AllFrames(memory.frames.FreePages(), m - {b}, lost + LostFrom(m[b]))
                           == old(AllFrames(memory.frames.FreePages(), m, lost))
    {
      hide GoodTree, GoodStock, AllHeld, TablesApart, RunsOf, JudgeAll, Dropped, AllFrames, InOnePlace, AllUsable,
           CutsInto, SameOutside;
      ghost var free := memory.frames.FreePages();
      GiveFrames(free, m, lost, b);
      LinkLess(m, memory.held, b);
      ghost var was, held := memory.space.State(), memory.held;
      ResultsApart(memory);
      r := memory.FreePages(b / 4096, pages);
      if r.Freed? {
        OthersStayUsable(was, memory.space.State(), m, held, b, memory.space.canDisableExecution);
      }
    }

    /**
     kalloc with the pages it gets from alloc_pages.  A pointer is new and aligned, with room for what was
     asked for; null leaves the slab allocator as it was; and every frame is accounted for.
     */
    method Kalloc(size: nat) returns (o: Outcome)
      requires Valid() && size < SIZE_LIMIT
      modifies slabs, slabs.caches
      modifies memory, memory.frames.lists, memory.frames.buddies.words, memory.space, memory.space.mem, memory.ranges
      ensures o.Got? || o.Nothing? ==> Valid() && Total() == old(Total())
      ensures o.Got? ==> o.p > 0 && o.p % MAX_ALIGN == 0 && o.p !in old(Live(slabs.Now()))
      ensures o.Got? ==> UserLive(slabs.Now()) == old(UserLive(slabs.Now())) + {o.p}
      ensures o.Got? ==> HasRoomFor(slabs.Now(), o.p, size)
      ensures o.Nothing? ==> slabs.Now() == old(slabs.Now()) && slabs.mapped == old(slabs.mapped)
      ensures old(!slabs.NeedsPages(CacheFor(size)) || WillBeFetched(size)) ==> o.Got?
      ensures memory.ranges.subtracts ==> !o.Carved?
    {
      hide FreshSupply, Linked, InOnePlace, AllFrames, AllUsable, WholePages, CacheFor, Good, NoLeak, Tidy, Backed,
           Live, UserLive, Memory.Valid, FrameAllocator.FreePages, HasRoomFor, LiveObjects, Verdict, LostFrom, GivesUp,
           Alone;
      var first, second;
      o, first, second := Fetch(size);
      if !o.Got? {
        return;
      }
      ghost var fetched := Fetched(first, second);
      RangesAreAligned(slabs.owner, slabs.mapped, slabs.limit);
      RangesInAddition(slabs.mapped, first, second);
      SupplyIsAligned(slabs.owner, first, slabs.PagesWanted(size), slabs.limit);
      var r := slabs.Kalloc(size, first, second);
      match r {
        case Ptr(p) =>
          o := Got(p);
          RoomFor(slabs, size, p);
        case Fault =>
          o := Stopped;
        case _ =>
          if first.ptr != 0 {
            var f := GiveBack(first.ptr, |first.frames|, fetched, old(slabs.lost));
            if !f.Freed? {
              return Stopped;
            }
          }
          o := Nothing;
      }
    }

    /** kfree with the ranges of pages that it gives back to free_pages. */
    method Kfree(p: nat) returns (r: Freeing)
      requires Valid() && p in UserLive(slabs.Now())
      modifies slabs, slabs.caches
      modifies memory, memory.frames.lists, memory.frames.buddies.words, memory.space, memory.space.mem, memory.ranges
      ensures r == old(FreeingOf(slabs.Now(), p, slabs.mapped, slabs.limit))
      ensures r.Freed? ==> Valid() && Total() == old(Total())
      ensures r.Freed? ==> UserLive(slabs.Now()) == old(UserLive(slabs.Now())) - {p}
      ensures r.Freed? ==> slabs.mapped == old(slabs.mapped) - old(GivesUp(slabs.Now(), p))
    {
      hide FreshSupply, Linked, InOnePlace, AllFrames, AllUsable, Good, NoLeak, Tidy, Backed, Live, UserLive,
           Memory.Valid, FrameAllocator.FreePages, Verdict, LostFrom, GivesUp, Alone, LostFromAll, LeftOf, AllBlocks,
           LostWith, FreeingOf, RunsOf, LostBy;
      var was := slabs.mapped;
      ghost var lost := slabs.lost;
      FreedExactlyAsRangesGoBack(slabs.Now(), was, slabs.limit, p);
      LastOnItsPages(slabs.Now(), was, slabs.limit, p);
      RangesAreAligned(slabs.owner, was, slabs.limit);
      var v, gone := slabs.Kfree(p);
      AllOrNoneGone(lost, was, gone);
      r := v;
      for i := 0 to |gone|
        modifies memory, memory.frames.lists, memory.frames.buddies.words, memory.space, memory.space.mem, memory.ranges
        invariant Joined() && r == v && (i > 0 ==> r.Freed?)
        invariant RangesUsable(LeftOf(was, gone, i))
        invariant Linked(LeftOf(was, gone, i), memory.held)
        invariant InOnePlace(memory.frames.FreePages(), LeftOf(was, gone, i), LostBy(lost, was, gone, i))
        invariant AllFrames(memory.frames.FreePages(), LeftOf(was, gone, i), LostBy(lost, was, gone, i)) == old(Total())
      {
        GoneAsJudged(was, slabs.limit, v, gone, i);
        OneMoreGone(lost, was, gone, i);
        r := GiveBack(gone[i], |was[gone[i]]|, LeftOf(was, gone, i), LostBy(lost, was, gone, i));
        if !r.Freed? {
          return;
        }
      }
    }

    /** What the processor finds at an address of the heap: a byte that the kernel, and nobody else, may write. */
    ghost predicate KernelData(access: Option<Access>) {
      && access.Some? && access.value.write && !access.value.user
      && !access.value.cacheDisable && !access.value.writeThrough
      && (access.value.execute <==> !memory.space.canDisableExecution)
    }

    /** Two bytes of kernel data, not the same byte of physical memory. */
    ghost predicate TwoBytes(x: Option<Access>, y: Option<Access>) {
      KernelData(x) && KernelData(y) && x.value.addr != y.value.addr
    }

    /** The page of a used address is a page of a live result of alloc_pages. */
    lemma PageOfResult(a: nat) returns (virt: nat)
      requires Valid() && a / 4096 in slabs.owner
      ensures virt in memory.held && virt <= a / 4096 < virt + |memory.held[virt].list|
      ensures Usable(memory.space.View(a / 4096), memory.space.canDisableExecution)
    {
      hide Memory.Valid, Good, NoLeak, InOnePlace;
      var b := RangeOf(slabs.owner[a / 4096]);
      assert b in slabs.mapped && OnPages(b, |slabs.mapped[b]|, a / 4096);
      virt := b / 4096;
      SpaceIsValid(memory);
      ViewIsViewOf(memory.space, a / 4096);
    }

    lemma UsedIsKernelData(a: nat)
      requires Valid() && a / 4096 in slabs.owner
      ensures memory.space.View(a / 4096).Some?
      ensures KernelData(memory.space.Reads(a))
      ensures memory.space.Reads(a).value.addr == 4096 * memory.space.View(a / 4096).value.frame + a % 4096
    {
      hide Memory.Valid, Good, NoLeak, InOnePlace, Backed, Linked, AllUsable, Walk;
      var virt := PageOfResult(a);
      SpaceIsValid(memory);
      ReadsAsViewed(memory.space, a);
    }

    lemma DifferentBytes(x: nat, y: nat)
      requires Valid() && x != y && x / 4096 in slabs.owner && y / 4096 in slabs.owner
      ensures TwoBytes(memory.space.Reads(x), memory.space.Reads(y))
    {
      hide GoodTree, GoodStock, Good, NoLeak, TablesApart, AllHeld, Backed, Linked, InOnePlace, AllUsable, Walk;
      var v := PageOfResult(x);
      var w := PageOfResult(y);
      UsedIsKernelData(x);
      UsedIsKernelData(y);
      if x / 4096 != y / 4096 {
        LiveTranslationIsInjective(memory.space.State(), memory.space.slot, memory.ranges.Live(),
                                   memory.frames.FreePages(), memory.held, v, w, x / 4096, y / 4096);
      }
    }

    /**
     No byte of physical memory belongs to two things in use: the objects and page allocations that kalloc has
     handed out, the slabs' headers and their free arrays.  All of them can be written, by the kernel only.
     */
    lemma NoByteShared(p: Part, q: Part, i: nat, j: nat)
      requires Valid() && PartOf(slabs.Now(), p) && PartOf(slabs.Now(), q) && p != q
      requires i < SizeOf(slabs.Now().caches, p) && j < SizeOf(slabs.Now().caches, q)
      ensures var x, y := StartOf(slabs.Now().caches, p) + i, StartOf(slabs.Now().caches, q) + j;
              TwoBytes(memory.space.Reads(x), memory.space.Reads(y))
    {
      hide Joined, NoLeak, Tidy, Linked, InOnePlace, Backed, GoodPages, GoodKept, AllUsable, Walk;
      var st := slabs.Now();
      NothingOverlaps(st, p, q);
      ByteIsOwned(st, p, i);
      ByteIsOwned(st, q, j);
      DifferentBytes(StartOf(st.caches, p) + i, StartOf(st.caches, q) + j);
    }

    // ----- runs

    /** Exactly these pointers are held by callers. */
    ghost predicate Holds(pointers: seq<nat>)
      reads slabs, slabs.caches
    {
      NoRepeats(pointers) && ElementsOf(pointers) == UserLive(slabs.Now())
    }

    /**
     Any sequence of requests, until it stops if it does: both allocators stay valid and joined, and every
     frame stays accounted for.
     */
    method Run(requests: seq<Request>, pointers: seq<nat>) returns (o: Outcome, left: seq<nat>)
      requires Valid() && Holds(pointers) && forall request <- requests :: request.Get? ==> request.size < SIZE_LIMIT
      modifies slabs, slabs.caches
      modifies memory, memory.frames.lists, memory.frames.buddies.words, memory.space, memory.space.mem, memory.ranges
      ensures o.Nothing? || o.Stopped? || o.Carved?
      ensures o.Nothing? ==> Valid() && Holds(left) && Total() == old(Total())
      ensures memory.ranges.subtracts ==> !o.Carved?
    {
      hide Valid, Live, Total, HasRoomFor, WillBeFetched, FreeingOf, GivesUp;
      left := pointers;
      for i := 0 to |requests|
        invariant Valid() && Holds(left) && Total() == old(Total())
      {
        assert requests[i] in requests;
        match requests[i] {
          case Get(size) =>
            o := Kalloc(size);
            if o.Stopped? || o.Carved? {
              return;
            }
            if o.Got? {
              OnePointerMore(left, o.p);
              left := left + [o.p];
            }
          case Give(which) =>
            if which < |left| {
              OnePointerLess(left, which);
              var r := Kfree(left[which]);
              if !r.Freed? {
                return Stopped, left;
              }
              left := Without(left, which);
            }
        }
      }
      o := Nothing;
    }

    /**
     Any sequence of requests, and then everything freed: if that ends well, nothing is mapped for the slab
     allocator any more, and all frames are free again but those lost when a range was scanned.
     */
    method RunAndFreeAll(requests: seq<Request>, pointers: seq<nat>) returns (o: Outcome)
      requires Valid() && Holds(pointers) && forall request <- requests :: request.Get? ==> request.size < SIZE_LIMIT
      modifies slabs, slabs.caches
      modifies memory, memory.frames.lists, memory.frames.buddies.words, memory.space, memory.space.mem, memory.ranges
      ensures o.Nothing? || o.Stopped? || o.Carved?
      ensures o.Nothing? ==> Valid() && slabs.owner == map[] && slabs.records == [] && slabs.mapped == map[]
      ensures o.Nothing? ==> memory.frames.FreePages() == old(Total()) - slabs.lost
      ensures memory.ranges.subtracts ==> !o.Carved?
    {
      hide Valid, UserLive, Live, Total, HasRoomFor, WillBeFetched, FreeingOf, GivesUp;
      var left;
      o, left := Run(requests, pointers);
      if !o.Nothing? {
        return;
      }
      for i := 0 to |left|
        invariant Valid() && Holds(left[i..]) && Total() == old(Total())
      {
        OnePointerLess(left[i..], 0);
        assert Without(left[i..], 0) == left[i + 1..];
        var r := Kfree(left[i]);
        if !r.Freed? {
          return Stopped;
        }
      }
      NothingMappedAnyMore();
      o := Nothing;
    }

    lemma NothingMappedAnyMore()
      requires Valid() && UserLive(slabs.Now()) == {}
      ensures slabs.owner == map[] && slabs.records == [] && slabs.mapped == map[]
      ensures memory.frames.FreePages() == Total() - slabs.lost
    {
      hide Joined, Good, NoLeak, Tidy;
      NothingLeft(slabs);
      assert FramesUnder(slabs.mapped) == {};
    }
  }

  lemma OnePointerMore(pointers: seq<nat>, p: nat)
    ensures ElementsOf(pointers + [p]) == ElementsOf(pointers) + {p}
    ensures p !in ElementsOf(pointers) && NoRepeats(pointers) ==> NoRepeats(pointers + [p])
  {
    assert forall x <- pointers :: x in ElementsOf(pointers);
  }

  lemma OnePointerLess(pointers: seq<nat>, i: nat)
    requires NoRepeats(pointers) && i < |pointers|
    ensures pointers[i] in ElementsOf(pointers)
    ensures ElementsOf(Without(pointers, i)) == ElementsOf(pointers) - {pointers[i]} && NoRepeats(Without(pointers, i))
  {
    WithoutKeepsDistinct(pointers, i);
    forall x | x in ElementsOf(pointers) - {pointers[i]} ensures x in Without(pointers, i) {
      var j :| 0 <= j < |pointers| && pointers[j] == x;
      LeftWithout(pointers, i, j);
    }
  }

  lemma SpaceIsValid(memory: Memory)
    requires memory.Valid()
    ensures memory.space.Valid()
  {
  }

  lemma ViewIsViewOf(space: AddressSpace, v: nat)
    requires space.Valid()
    ensures space.View(v) == ViewOf(space.State(), v)
  {
  }

  lemma ReadsAsViewed(space: AddressSpace, a: nat)
    requires space.Valid() && Usable(space.View(a / 4096), space.canDisableExecution)
    ensures var addr := 4096 * space.View(a / 4096).value.frame + a % 4096;
            space.Reads(a) == Some(Access(addr, true, false, !space.canDisableExecution, false, false))
  {
    WalkReadsView(space.State(), space.prot, a);
  }

  lemma ByteIsOwned(st: State, p: Part, i: nat)
    requires Good(st) && PartOf(st, p) && i < SizeOf(st.caches, p)
    ensures (StartOf(st.caches, p) + i) / 4096 in st.owner
  {
    hide GoodPages, GoodKept, CacheOk, UniqueRecords;
    PartOnItsPages(st, p);
    PageOfByte(BaseOf(p), PagesUnder(st.caches, p), StartOf(st.caches, p) + i);
  }

  lemma PageOfByte(base: nat, pages: nat, a: nat)
    requires base % PAGE_SIZE == 0 && base <= a < base + PAGE_SIZE * pages
    ensures OnPages(base, pages, a / 4096)
  {
    PageOfOffset(base, a - base, pages);
  }

  /** The ranges that are left once the first i of a list have been given back. */
  ghost function LeftOf(was: map<nat, seq<nat>>, gone: seq<nat>, i: nat): map<nat, seq<nat>>
    requires i <= |gone|
  {
    was - ElementsOf(gone[..i])
  }

  /** The frames lost by then. */
  ghost function LostBy(lost: set<nat>, was: map<nat, seq<nat>>, gone: seq<nat>, i: nat): set<nat>
    requires i <= |gone|
  {
    lost + LostFromAll(was, ElementsOf(gone[..i]))
  }

  lemma OneMoreGone(lost: set<nat>, was: map<nat, seq<nat>>, gone: seq<nat>, i: nat)
    requires i < |gone| && NoRepeats(gone) && ElementsOf(gone) <= was.Keys
    ensures gone[i] in was && gone[i] in LeftOf(was, gone, i) && LeftOf(was, gone, i)[gone[i]] == was[gone[i]]
    ensures LeftOf(was, gone, i + 1) == LeftOf(was, gone, i) - {gone[i]}
    ensures LostBy(lost, was, gone, i + 1) == LostBy(lost, was, gone, i) + LostFrom(was[gone[i]])
    ensures forall b <- LeftOf(was, gone, i) :: b in was
  {
    hide LostFrom;
    assert gone[i] in ElementsOf(gone);
    assert gone[..i + 1] == gone[..i] + [gone[i]];
    assert ElementsOf(gone[..i + 1]) == ElementsOf(gone[..i]) + {gone[i]};
  }

  lemma AllOrNoneGone(lost: set<nat>, was: map<nat, seq<nat>>, gone: seq<nat>)
    ensures LeftOf(was, gone, 0) == was && LostBy(lost, was, gone, 0) == lost
    ensures LeftOf(was, gone, |gone|) == was - ElementsOf(gone)
    ensures LostBy(lost, was, gone, |gone|) == lost + LostFromAll(was, ElementsOf(gone))
  {
    assert gone[..|gone|] == gone;
  }

  /** What free_pages is called for by a kfree, and how that ends. */
  lemma GoneAsJudged(mapped: map<nat, seq<nat>>, limit: nat, v: Freeing, gone: seq<nat>, i: nat)
    requires i < |gone| && ElementsOf(gone) <= mapped.Keys
    requires v.Freed? ==> forall b <- ElementsOf(gone) :: AllBlocks(RunsOf(mapped[b]), limit)
    requires !v.Freed? ==> |gone| == 1 && v == Verdict(mapped[gone[0]], limit)
    ensures gone[i] in mapped && v == Verdict(mapped[gone[i]], limit)
  {
    hide AllBlocks, RunsOf, JudgeAll;
    assert gone[i] in ElementsOf(gone);
    FreedMeansBlocks(RunsOf(mapped[gone[i]]), limit);
  }

  lemma RangesAreAligned(owner: map<nat, Owner>, mapped: map<nat, seq<nat>>, limit: nat)
    requires Backed(owner, mapped, limit)
    ensures forall b <- mapped :: b % PAGE_SIZE == 0
  {
  }

  lemma SupplyIsAligned(owner: map<nat, Owner>, s: Supply, pages: nat, limit: nat)
    requires FreshSupply(owner, s, pages, limit)
    ensures s.ptr % PAGE_SIZE == 0
  {
  }

  lemma RangesInAddition(m: map<nat, seq<nat>>, a: Supply, b: Supply)
    ensures m + map[] == m && m + map[a.ptr := a.frames] == m[a.ptr := a.frames]
    ensures a.ptr != b.ptr ==>
              m + map[b.ptr := b.frames][a.ptr := a.frames] == m[a.ptr := a.frames][b.ptr := b.frames]
    ensures a.ptr !in m ==> m[a.ptr := a.frames] - {a.ptr} == m
  {
  }

  /** A part of memory in use starts at the pointer and is large enough. */
  ghost predicate HasRoomFor(st: State, p: nat, size: nat) {
    && Good(st)
    && exists part :: PartOf(st, part) && StartOf(st.caches, part) == p && SizeOf(st.caches, part) >= size
  }

  lemma RoomFor(slabs: SlabAllocator, size: nat, p: nat)
    requires slabs.Valid() && size < SIZE_LIMIT
    requires size <= 2048 ==> p in LiveObjects(slabs.caches[CacheFor(size)])
    requires size > 2048 ==>
               slabs.records != [] && slabs.records[0].ptr == p && slabs.records[0].pages == WholePages(size)
    ensures HasRoomFor(slabs.Now(), p, size)
  {
    hide GoodKept, UniqueRecords, NoLeak, Tidy, Backed, Unique, WholePages;
    var st := slabs.Now();
    if size <= 2048 {
      var k := CacheFor(size);
      var s :| s in SlabsOf(st.caches[k]) && p in LiveIn(s, st.caches[k].layout);
      var i :| i in TakenIn(s, st.caches[k].layout) && AddressOf(s, st.caches[k].layout, i) == p;
      OrderForBounds(size);
      assert PartOf(st, ObjectPart(k, s, i)) && StartOf(st.caches, ObjectPart(k, s, i)) == p;
    } else {
      var r := st.records[0];
      assert r in st.records && RecordOk(st.owner, r);
      assert PartOf(st, PagesPart(r)) && StartOf(st.caches, PagesPart(r)) == p;
    }
  }

  lemma LinkLess(m: map<nat, seq<nat>>, held: map<nat, Holding>, b: nat)
    requires Linked(m, held) && b in m && forall c <- m :: c % PAGE_SIZE == 0
    ensures Linked(m - {b}, held - {b / 4096})
  {
    forall c | c in m - {b} ensures c / 4096 != b / 4096 {
      SamePageSameStart(b, c);
    }
  }

  /**
   The kernel from boot on: a heap over fresh kernel memory, any requests, and then everything freed.  If
   that ends well, all frames but the tables' are free again, except those lost when a range was scanned.
   */
  method FromBoot(tops: nat, junk: bool, canDisableExecution: bool, pages: nat, stock: seq<Mapping>, booted: nat,
                  subtracts: bool, requests: seq<Request>) returns (o: Outcome, heap: Heap)
    requires 0 < tops && 0 < pages && booted <= SLOT_PAGES
    requires forall m <- stock :: 0 < m.page < pages && 0 < m.frame < PAGES_IN_64_BITS - 1
    requires forall i, j :: 0 <= i < j < |stock| ==> stock[i].page != stock[j].page && stock[i].frame != stock[j].frame
    requires forall request <- requests :: request.Get? ==> request.size < SIZE_LIMIT
    ensures o.Nothing? || o.Stopped? || o.Carved?
    ensures o.Nothing? ==>
              && heap.Valid() && heap.slabs.mapped == map[]
              && heap.memory.frames.FreePages()
                 == Range(0, heap.memory.frames.limit) - FramesOfTables(stock) - heap.slabs.lost
    ensures subtracts ==> !o.Carved?
  {
    hide Memory.Valid, SlabAllocator.Valid, Live, GoodTree, FrameAllocator.FreePages;
    var memory := MemoryRuns.KernelMemory(tops, junk, canDisableExecution, pages, stock, booted, subtracts);
    var slabs := new SlabAllocator(memory.frames.limit);
    heap := new Heap(memory, slabs);
    NothingHeldAtFirst(slabs);
    assert FramesUnder(slabs.mapped) == {};
    o := heap.RunAndFreeAll(requests, []);
  }

  lemma NothingHeldAtFirst(slabs: SlabAllocator)
    requires Live(slabs.Now()) == {}
    ensures UserLive(slabs.Now()) == {} && ElementsOf([]) == {}
  {
  }
}
