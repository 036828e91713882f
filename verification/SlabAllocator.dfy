/**
 kalloc and kfree.  What alloc_pages returns is passed in: `first` for the first call that one kalloc
 makes, `second` for the next.  How free_pages ends depends on the frames it was given then.
 */
module SlabAllocator {
  import opened Blocks
  import opened SlabLayout
  import opened FreeChain
  import opened Intervals
  import opened Lists
  import opened SlabStates
  import opened FrameScan
  import opened SlabFrames

  // Three pointers and two 32-bit numbers; two pointers and a 64-bit number.
  const HEADER_REQUEST: nat := SLAB_HEADER
  const RECORD_REQUEST: nat := 3 * 8

  /** A pointer, null, a fault, or a stop in free_pages, called to give up pages that came to no use. */
  datatype Result = Ptr(p: nat) | NullPtr | Fault | FreeStops(verdict: Freeing)

  const SIZE_LIMIT: nat := 0x1_0000_0000_0000_0000

  /**
   The pages that kalloc asks for when no cache has large enough objects: no fewer hold so many bytes, unless the
   rounding up wraps.
   */
  function WholePages(size: nat): (pages: nat)
    ensures size + 4095 < 0x1_0000_0000_0000_0000 ==> size <= 4096 * pages < size + 4096
    ensures size < 0x1_0000_0000_0000_0000 <= size + 4095 ==> pages == 0
  {
    (size + PAGE_SIZE - 1) % SIZE_LIMIT / PAGE_SIZE
  }

  /** The cache whose objects serve a request, or one past the last. */
  function CacheFor(size: nat): (k: nat)
    ensures k <= CACHES && (k < CACHES <==> size <= 2048)
    ensures k >= ON_SLAB_CACHES <==> size > 256
    ensures k >= CACHES - 1 <==> size > 1024
    ensures 16 < size <= 32 ==> k == RECORD_CACHE
  {
    OrderForBounds(size);
    OrderFor(size) - CACHE_START_ORDER
  }

  /** A cache without slabs; its slabs will have room for so many objects. */
  ghost predicate IsNew(c: Cache, k: nat)
    requires k < CACHES
  {
    && CacheOk(c, k) && c.part == c.full == []
    && c.layout.count == [203, 112, 59, 30, 15, 7, 3, 3][k]
  }

  /** A round of initialize_slab_allocator. */
  method EmptyCache(k: nat) returns (c: Cache)
    requires k < CACHES
    ensures IsNew(c, k)
  {
    var size := Size(CACHE_START_ORDER + k);
    CacheSizes(k);
    var pages := PagesFor(size);
    PagesOfCache(k, pages);
    RoomForOne(size, pages);
    var layout := ComputeLayout(size, pages);
    ObjectsOfCache(k, layout);
    c := Cache(layout, [], []);
  }

  class SlabAllocator {
    const caches: array<Cache>
    /** All frames lie below it. */
    const limit: nat
    /** page_allocation_list, head first */
    var records: seq<PageRecord>
    ghost var owner: map<nat, Owner>
    ghost var kept: map<nat, Keeper>
    /** The frames that the page tables map every range of pages to. */
    var mapped: map<nat, seq<nat>>
    /** Frames that free_pages has unmapped without freeing them. */
    ghost var lost: set<nat>

    ghost function Now(): State
      reads this, caches
    {
      State(caches[..], records, owner, kept)
    }

    ghost predicate Valid()
      reads this, caches
    {
      Sound() && Tidy(Now())
    }

    /** The invariant but for slabs that may be empty. */
    ghost predicate Sound()
      reads this, caches
    {
      Good(Now()) && NoLeak(Now()) && Backed(owner, mapped, limit)
    }

    /** initialize_slab_allocator */
    constructor (limit: nat)
      ensures Valid() && Live(Now()) == {} && fresh(caches)
      ensures this.limit == limit && mapped == map[] && lost == {}
      ensures owner == map[] && forall k :: 0 <= k < CACHES ==> IsNew(caches[k], k)
    {
      caches := new Cache[CACHES](_ => Cache(Layout(1, 0, 0, 0, 0), [], []));
      this.limit, records, owner, kept, mapped, lost := limit, [], map[], map[], map[], {};
      new;
      hide IsNew, GoodPages, GoodKept, UniqueRecords;
      for k := 0 to CACHES
        invariant caches.Length == CACHES && fresh(caches) && records == [] && owner == map[] && kept == map[]
        invariant mapped == map[] && lost == {}
        invariant forall j :: 0 <= j < k ==> IsNew(caches[j], j)
      {
        caches[k] := EmptyCache(k);
      }
      NothingLive(Now());
    }

    // ----- kalloc

    /** The pages a request asks alloc_pages for first, if it does. */
    function PagesWanted(size: nat): nat
      requires caches.Length == CACHES
      reads caches
    {
      if CacheFor(size) < CACHES then caches[CacheFor(size)].layout.pages else WholePages(size)
    }

    /** alloc_pages returns null or pages not used for anything, and never the same pages twice. */
    ghost predicate Supplied(pages: nat, first: Supply, second: Supply)
      requires caches.Length == CACHES
      reads this, caches
    {
      && FreshSupply(owner, first, pages, limit)
      && FreshSupply(owner, second, caches[RECORD_CACHE].layout.pages, limit)
      && (first.ptr != 0 && second.ptr != 0 ==>
            PageSet(first.ptr, |first.frames|) !! PageSet(second.ptr, |second.frames|))
    }

    /** Whether a request served by cache k, or by none, needs pages. */
    predicate NeedsPages(k: nat)
      requires caches.Length == CACHES && k <= CACHES
      reads caches
    {
      k == CACHES || caches[k].part == []
    }

    /** Whether it then needs pages for a slab of headers and page records too. */
    predicate NeedsRecordPages(k: nat)
      requires caches.Length == CACHES && k <= CACHES
      reads caches
    {
      NeedsPages(k) && k >= ON_SLAB_CACHES && caches[RECORD_CACHE].part == []
    }

    /** The ranges of pages that a request which gets what it needs comes to use. */
    ghost function Taken(k: nat, first: Supply, second: Supply): map<nat, seq<nat>>
      requires caches.Length == CACHES && k <= CACHES
      reads caches
    {
      var forRecords := if NeedsRecordPages(k) then map[second.ptr := second.frames] else map[];
      if NeedsPages(k) then forRecords[first.ptr := first.frames] else forRecords
    }

    lemma FirstInAddition(m: map<nat, seq<nat>>, more: map<nat, seq<nat>>, first: Supply)
      ensures m + more[first.ptr := first.frames] == (m + more)[first.ptr := first.frames]
    {
    }

    /** free_pages: how it ends depends on the frames, and some of them may not go back. */
    method FreePages(frames: seq<nat>) returns (r: Freeing)
      modifies `lost
      ensures r == Verdict(frames, limit)
      ensures lost == if r.Freed? then old(lost) + LostFrom(frames) else old(lost)
    {
      r := Verdict(frames, limit);
      if r.Freed? {
        lost := lost + LostFrom(frames);
      }
    }

    /** Takes the first free object of the first slab of the part list. */
    method TakeObject(k: nat) returns (p: nat, ghost t: Slab)
      requires Good(Now()) && NoLeak(Now()) && k < CACHES && caches[k].part != []
      modifies caches
      ensures Good(Now()) && NoLeak(Now()) && caches[k].layout == old(caches[k].layout)
      ensures p !in old(Live(Now())) && Live(Now()) == old(Live(Now())) + {p} && p > 0 && p % MAX_ALIGN == 0
      ensures t in SlabsOf(caches[k]) && p in LiveIn(t, caches[k].layout) && p in LiveObjects(caches[k])
      ensures var s := old(caches[k].part[0]); t.base == s.base && t.addr == s.addr && t.used == s.used + 1
      ensures p == old(caches[k].part[0].mem + caches[k].part[0].nextFree * caches[k].layout.size)
      ensures var c := old(caches[k]);
              caches[k] == if t.used == c.layout.count then c.(part := c.part[1..], full := [t] + c.full)
                           else c.(part := [t] + c.part[1..])
      ensures forall j :: 0 <= j < CACHES && j != k ==> caches[j] == old(caches[j])
      ensures (forall s <- old(caches[k].part[1..]) :: s.used > 0) ==> NoEmptySlab(caches[k])
    {
      hide GoodPages, GoodKept, Chained, GoodLayout, Unique, LiveIn, LiveObjects, UniqueRecords, NoLeak;
      ghost var before := Now();
      var c := caches[k];
      var l := c.layout;
      var s := c.part[0];
      PopSlab(s, l);
      p := s.mem + s.nextFree * l.size;
      var changed := s.(nextFree := s.free[s.nextFree], used := s.used + 1);
      t := changed;
      if changed.used == l.count {
        FrontFills(c, k, t);
        caches[k] := c.(part := c.part[1..], full := [changed] + c.full);
      } else {
        FrontChanges(c, k, t);
        caches[k] := c.(part := [changed] + c.part[1..]);
      }
      assert caches[..] == before.caches[k := caches[k]];
      assert Swapped(before, Now(), k, s, t);
      SwapLive(before, Now(), k, s, t);
      SwapGood(before, Now(), k, s, t);
      SwapLeaksNothing(before, Now(), k, s, t);
      SlabObjectsAreLive(before, k, s);
      ObjectIsNew(before, k, s, p);
      InItsCache(caches[k], t, p);
    }

    lemma InItsCache(c: Cache, s: Slab, p: nat)
      requires s in SlabsOf(c) && p in LiveIn(s, c.layout)
      ensures p in LiveObjects(c)
    {
    }

    lemma ObjectIsNew(st: State, k: nat, s: Slab, p: nat)
      requires Good(st) && k < CACHES && s in SlabsOf(st.caches[k]) && s.used < st.caches[k].layout.count
      requires SlabOk(s, st.caches[k].layout) && s.nextFree < st.caches[k].layout.count
      requires p == AddressOf(s, st.caches[k].layout, s.nextFree) && p !in LiveIn(s, st.caches[k].layout)
      ensures p !in Live(st) && p > 0 && p % MAX_ALIGN == 0
    {
      var l := st.caches[k].layout;
      ObjectOnPage(s, l, s.nextFree);
      ObjectIsAligned(s, l, s.nextFree);
      assert SlabOwns(st.owner, k, s, l);
      if p in SlabLive(st.caches) {
        var j :| 0 <= j < CACHES && p in LiveObjects(st.caches[j]);
        var r :| r in SlabsOf(st.caches[j]) && p in LiveIn(r, st.caches[j].layout);
        OwnerOfObject(st, j, r, p);
        SameBaseSameSlab(st.caches[k], k, r, s);
      }
      forall q | q in st.records ensures q.ptr != p {
        assert RecordOk(st.owner, q) && RecordPage(q, q.ptr / 4096);
      }
    }

    lemma ObjectIsAligned(s: Slab, l: Layout, i: nat)
      requires SlabOk(s, l) && i < l.count
      ensures AddressOf(s, l, i) % MAX_ALIGN == 0
    {
      hide Chained, Fits;
      PartsDoNotOverlap(l, i);
      assert AddressOf(s, l, i) == s.base + ObjectAt(l, i);
      PageIsAligned(s.base);
      AlignedSum(s.base, ObjectAt(l, i), 0);
    }

    lemma PageIsAligned(base: nat)
      requires base % PAGE_SIZE == 0
      ensures base % MAX_ALIGN == 0
    {
    }

    /** Lays out a new slab over fresh pages and puts it in front of the part list. */
    method NewSlab(k: nat, addr: nat, pages: Supply)
      requires Sound() && k < CACHES && pages.ptr != 0 && FreshSupply(owner, pages, caches[k].layout.pages, limit)
      requires if k < ON_SLAB_CACHES then addr == pages.ptr
               else addr in LiveObjects(caches[RECORD_CACHE]) && addr !in kept
      modifies this, caches
      ensures Sound() && Live(Now()) == old(Live(Now())) && records == old(records)
      ensures forall j :: 0 <= j < CACHES && j != k ==> caches[j] == old(caches[j])
      ensures caches[k].layout == old(caches[k].layout) && |caches[k].part| == old(|caches[k].part|) + 1
      ensures caches[k].part[1..] == old(caches[k].part)
      ensures caches[k].part[0].addr == addr && caches[k].part[0].base == pages.ptr && caches[k].part[0].used == 0
      ensures mapped == old(mapped)[pages.ptr := pages.frames] && lost == old(lost)
      ensures kept == if k < ON_SLAB_CACHES then old(kept) else old(kept)[addr := HeaderOf(k, pages.ptr)]
    {
      hide GoodPages, GoodKept, LiveIn, LiveObjects, Live, UniqueRecords, Fits, Path, NoLeak, Backed, Owned;
      ghost var before := Now();
      var c := caches[k];
      var l := c.layout;
      var base := pages.ptr;
      var free := FillFreeArray(l.count);
      var t := Slab(addr, base, base + l.header + l.freeArray, 0, 0, free);
      NoSlabThere(before, k, base);
      PartGains(c, k, t);
      caches[k] := c.(part := [t] + c.part);
      BackMore(owner, mapped, limit, pages, l.pages, SlabPages(k, base));
      owner := Owned(owner, base, l.pages, SlabPages(k, base));
      mapped := mapped[base := pages.frames];
      if k >= ON_SLAB_CACHES {
        kept := kept[addr := HeaderOf(k, base)];
      }
      assert caches[..] == before.caches[k := caches[k]];
      AddSlab(before, Now(), k, t);
      AddSlabLeaksNothing(before, Now(), k, t);
    }

    lemma NoSlabThere(st: State, k: nat, base: nat)
      requires Good(st) && k < CACHES && PageSet(base, st.caches[k].layout.pages) !! st.owner.Keys
      ensures forall s <- SlabsOf(st.caches[k]) :: s.base != base
    {
      var l := st.caches[k].layout;
      assert OnPages(base, l.pages, base / 4096) && base / 4096 in PageSet(base, l.pages);
      forall s | s in SlabsOf(st.caches[k]) ensures s.base != base {
        assert SlabOwns(st.owner, k, s, l) && PageOf(s, l, s.base / 4096);
      }
    }

    ghost predicate SameLayouts(was: seq<Cache>)
      requires caches.Length == CACHES
      reads caches
    {
      |was| == CACHES && forall j :: 0 <= j < CACHES ==> caches[j].layout == was[j].layout
    }

    /** A header or page record cannot be had: no such object is free and there are no pages for more. */
    ghost predicate NoRecordMemory(second: Supply)
      requires caches.Length == CACHES
      reads caches
    {
      caches[RECORD_CACHE].part == [] && second.ptr == 0
    }

    /** When kalloc does not get the memory it needs. */
    ghost predicate NoMemory(k: nat, first: Supply, second: Supply)
      requires caches.Length == CACHES && k <= CACHES
      reads caches
    {
      NeedsPages(k) && (first.ptr == 0 || (ON_SLAB_CACHES <= k < CACHES && NoRecordMemory(second)))
    }

    /** How giving up pages that came to no use ends. */
    ghost function CleanupOf(first: Supply): Freeing {
      if first.ptr == 0 then Freed else Verdict(first.frames, limit)
    }

    /**
     A pointer p is new and aligned, callers hold exactly it in addition, and exactly the ranges of pages
     that the request came to need are mapped in addition.
     */
    twostate predicate Granted(k: nat, first: Supply, second: Supply, p: nat)
      requires caches.Length == CACHES && k <= CACHES
      reads this, caches
    {
      && Valid() && p > 0 && p % MAX_ALIGN == 0 && p !in old(Live(Now()))
      && UserLive(Now()) == old(UserLive(Now())) + {p} && old(Live(Now())) <= Live(Now())
      && SameLayouts(old(caches[..])) && mapped == old(mapped + Taken(k, first, second)) && lost == old(lost)
    }

    /** Freeing p now would give up exactly the ranges of pages that the request came to need. */
    twostate predicate Undoable(k: nat, first: Supply, second: Supply, p: nat)
      requires caches.Length == CACHES && k <= CACHES
      reads this, caches
    {
      && GivesUp(Now(), p) == old(Taken(k, first, second)).Keys && (Alone(Now(), p) <==> old(NeedsPages(k)))
      && (old(NeedsPages(k)) ==> p / 4096 in owner && RangeOf(owner[p / 4096]) == first.ptr)
    }

    /** Nothing has changed, but that pages which came to no use have been given up. */
    twostate predicate NothingTaken(first: Supply)
      reads this, caches
    {
      && Now() == old(Now()) && mapped == old(mapped)
      && lost == if first.ptr == 0 then old(lost) else old(lost) + LostFrom(first.frames)
    }

    /**
     kalloc.  A pointer is new to the live set; null changes nothing but for the pages given up, which may
     not end well; and the record of a page allocation is written without looking whether there was memory
     for it.
     */
    method Kalloc(size: nat, first: Supply, second: Supply) returns (r: Result)
      requires Valid() && Supplied(PagesWanted(size), first, second)
      modifies this, caches
      ensures r.Fault? <==> size > 2048 && first.ptr != 0 && old(NoRecordMemory(second))
      ensures r.NullPtr? <==> old(NoMemory(CacheFor(size), first, second)) && CleanupOf(first) == Freed
      ensures r.FreeStops? <==> old(NoMemory(CacheFor(size), first, second)) && CleanupOf(first) != Freed
      ensures r.FreeStops? ==> r.verdict == CleanupOf(first)
      ensures r.NullPtr? ==> NothingTaken(first)
      ensures r.Ptr? ==> Granted(CacheFor(size), first, second, r.p)
      ensures r.Ptr? ==> Undoable(CacheFor(size), first, second, r.p)
      ensures r.Ptr? && size > 2048 ==>
                && r.p == first.ptr && |records| == old(|records|) + 1 && records[1..] == old(records)
                && records[0].ptr == first.ptr && records[0].pages == WholePages(size)
      ensures r.Ptr? && size <= 2048 ==> r.p in LiveObjects(caches[CacheFor(size)])
      ensures size <= 256 ==>
                && kept == old(kept) && records == old(records)
                && forall j :: 0 <= j < CACHES && j != CacheFor(size) ==> caches[j] == old(caches[j])
      decreases size > 256, 1
    {
      hide Good, NoLeak, Tidy, Backed, Live, UserLive, LiveObjects, OrderFor, WholePages, Verdict, LostFrom,
           FreshSupply, PageSet, SlabAllocator.Valid, SlabAllocator.Sound, SlabAllocator.Taken;
      var order := MinCacheOrder(size);
      if order > CACHE_END_ORDER {
        r := KallocPages(size, first, second);
      } else {
        r := KallocObject(order - CACHE_START_ORDER, first, second);
      }
    }

    /** The part of kalloc that allocates whole pages. */
    method KallocPages(size: nat, first: Supply, second: Supply) returns (r: Result)
      requires Valid() && Supplied(PagesWanted(size), first, second) && size > 2048
      modifies this, caches
      ensures r.Fault? <==> first.ptr != 0 && old(NoRecordMemory(second))
      ensures !r.FreeStops? && (r.NullPtr? <==> first.ptr == 0)
      ensures r.NullPtr? ==> NothingTaken(first)
      ensures r.Ptr? ==> Granted(CacheFor(size), first, second, r.p)
      ensures r.Ptr? ==> Undoable(CacheFor(size), first, second, r.p)
      ensures r.Ptr? ==>
                && r.p == first.ptr && |records| == old(|records|) + 1 && records[1..] == old(records)
                && records[0].ptr == first.ptr && records[0].pages == WholePages(size)
      decreases true, 0
    {
      hide GoodPages, GoodKept, LiveObjects, Live, CachesOk, UniqueRecords, NoEmptySlab, Owned, CacheFor, NoLeak,
           Backed, WholePages, GivesUp, Alone, Verdict, LostFrom;
      var pages := WholePages(size);
      if first.ptr == 0 {
        return NullPtr;
      }
      ghost var user := UserLive(Now());
      var h := Kalloc(RECORD_REQUEST, second, NO_PAGES);
      if h.NullPtr? {
        return Fault;
      }
      ghost var before := Now();
      StillFresh(old(owner), old(mapped), limit, owner, old(Taken(RECORD_CACHE, second, NO_PAGES)), first, pages);
      var record := PageRecord(h.p, first.ptr, pages);
      KeepOne(Live(before), before.kept.Keys, user, h.p);
      records := [record] + records;
      BackMore(owner, mapped, limit, first, pages, ObjectPages(first.ptr));
      owner := Owned(owner, first.ptr, pages, ObjectPages(first.ptr));
      mapped := mapped[first.ptr := first.frames];
      kept := kept[h.p := RecordOf(first.ptr)];
      AddRecord(before, Now(), record);
      AddRecordLeaksNothing(before, Now(), record);
      KeptIsLive(before);
      assert kept.Keys == before.kept.Keys + {h.p};
      HandOutOne(Live(before), kept.Keys, first.ptr);
      PageIsAligned(first.ptr);
      FirstInAddition(old(mapped), old(Taken(RECORD_CACHE, second, NO_PAGES)), first);
      SameGivesUp(before, Now(), h.p);
      PagesGiveUp(Now(), record);
      r := Ptr(first.ptr);
    }

    /** The part of kalloc that gives a cache without a partial slab a new one, header first if that lies elsewhere. */
    method Refill(k: nat, first: Supply, second: Supply) returns (ok: bool, cleanup: Freeing)
      requires Valid() && k < CACHES && caches[k].part == [] && first.ptr != 0
      requires Supplied(caches[k].layout.pages, first, second)
      modifies this, caches
      ensures ok <==> !(k >= ON_SLAB_CACHES && old(NoRecordMemory(second)))
      ensures !ok ==> cleanup == Verdict(first.frames, limit)
      ensures !ok && cleanup.Freed? ==> NothingTaken(first)
      ensures ok ==> Sound() && SameLayouts(old(caches[..])) && |caches[k].part| == 1
      ensures ok ==> UserLive(Now()) == old(UserLive(Now())) && old(Live(Now())) <= Live(Now())
      ensures ok ==> forall j :: 0 <= j < CACHES && j != k ==> NoEmptySlab(caches[j])
      ensures ok ==> mapped == old(mapped + Taken(k, first, second)) && lost == old(lost)
      ensures ok ==> caches[k].part[0].base == first.ptr && caches[k].part[0].used == 0
      ensures ok && k >= ON_SLAB_CACHES ==>
                && caches[k].part[0].addr in LiveObjects(caches[RECORD_CACHE])
                && GivesUp(Now(), caches[k].part[0].addr) == old(Taken(RECORD_CACHE, second, NO_PAGES)).Keys
      ensures k < ON_SLAB_CACHES ==>
                && kept == old(kept) && records == old(records)
                && forall j :: 0 <= j < CACHES && j != k ==> caches[j] == old(caches[j])
      decreases k >= ON_SLAB_CACHES, -1
    {
      hide GoodPages, GoodKept, LiveObjects, Live, UniqueRecords, Owned, CacheFor, NoLeak, Backed, Verdict, LostFrom,
           GivesUp, Alone, LiveIn, CacheOk;
      ghost var user := UserLive(Now());
      var addr := first.ptr;
      if k >= ON_SLAB_CACHES {
        var h := Kalloc(HEADER_REQUEST, second, NO_PAGES);
        if h.NullPtr? {
          cleanup := FreePages(first.frames);
          return false, cleanup;
        }
        addr := h.p;
        StillFresh(old(owner), old(mapped), limit, owner, old(Taken(RECORD_CACHE, second, NO_PAGES)), first,
                   caches[k].layout.pages);
        KeepOne(Live(Now()), kept.Keys, user, addr);
      }
      ghost var keys, before := kept.Keys, Now();
      NewSlab(k, addr, first);
      if k >= ON_SLAB_CACHES {
        SameGivesUp(before, Now(), addr);
      }
      ghost var more := if k < ON_SLAB_CACHES then map[] else old(Taken(RECORD_CACHE, second, NO_PAGES));
      FirstInAddition(old(mapped), more, first);
      assert kept.Keys == if k >= ON_SLAB_CACHES then keys + {addr} else keys;
      ok, cleanup := true, Freed;
    }

    /** The part of kalloc that takes an object from a cache. */
    method KallocObject(k: nat, first: Supply, second: Supply) returns (r: Result)
      requires Valid() && k < CACHES && Supplied(caches[k].layout.pages, first, second)
      modifies this, caches
      ensures !r.Fault?
      ensures r.NullPtr? <==> old(NoMemory(k, first, second)) && CleanupOf(first) == Freed
      ensures r.FreeStops? <==> old(NoMemory(k, first, second)) && CleanupOf(first) != Freed
      ensures r.FreeStops? ==> r.verdict == CleanupOf(first)
      ensures r.NullPtr? ==> NothingTaken(first)
      ensures r.Ptr? ==> Granted(k, first, second, r.p) && Undoable(k, first, second, r.p)
      ensures r.Ptr? ==> r.p in LiveObjects(caches[k])
      ensures k < ON_SLAB_CACHES ==>
                && kept == old(kept) && records == old(records)
                && forall j :: 0 <= j < CACHES && j != k ==> caches[j] == old(caches[j])
      decreases k >= ON_SLAB_CACHES, 0
    {
      hide GoodPages, GoodKept, LiveObjects, Live, UniqueRecords, Owned, CacheFor, NoLeak, Backed, Verdict, LostFrom,
           GivesUp, Alone, LiveIn, CacheOk, FreshSupply;
      if caches[k].part == [] {
        if first.ptr == 0 {
          return NullPtr;
        }
        var ok, cleanup := Refill(k, first, second);
        if !ok {
          return if cleanup.Freed? then NullPtr else FreeStops(cleanup);
        }
      }
      assert mapped + map[] == mapped;
      KeptIsLive(Now());
      ghost var before, live, s := Now(), Live(Now()), caches[k].part[0];
      var p;
      ghost var t;
      p, t := TakeObject(k);
      HandOutOne(live, kept.Keys, p);
      ObjectGivesUp(Now(), k, t, p);
      if k >= ON_SLAB_CACHES && s.used == 0 {
        SameGivesUp(before, Now(), s.addr);
      }
      r := Ptr(p);
    }

    // ----- kfree

    /** 0 for objects of caches whose slabs carry their own header, so that freeing one frees no header. */
    ghost function Rank(p: nat): nat
      reads this
    {
      var page := p / 4096;
      if page in owner && owner[page].SlabPages? && owner[page].cache < ON_SLAB_CACHES then 0 else 1
    }

    /**
     What kfree does: it ends as free_pages does for the range that p was the last on, if it was; and when
     that ends well, callers hold exactly p less, and exactly the ranges left without use are given up.
     `gone` has the ranges that free_pages was called for, in order.
     */
    twostate predicate Released(p: nat, r: Freeing, gone: seq<nat>)
      requires old(Valid())
      reads this, caches
    {
      && r == FreeingOf(old(Now()), p, old(mapped), limit)
      && (if r.Freed? then
            && Valid() && UserLive(Now()) == old(UserLive(Now())) - {p}
            && mapped == old(mapped) - GivesUp(old(Now()), p)
            && lost == old(lost) + LostWith(old(Now()), p, old(mapped), limit)
            && NoRepeats(gone) && ElementsOf(gone) == GivesUp(old(Now()), p) <= old(mapped).Keys
          else gone == [RangeOf(old(owner)[p / 4096])])
    }

    /** kfree */
    method Kfree(p: nat) returns (r: Freeing, gone: seq<nat>)
      requires Valid() && p in UserLive(Now())
      modifies this, caches
      ensures Released(p, r, gone)
      decreases Rank(p), 1
    {
      hide GoodPages, GoodKept, LiveObjects, SlabLive, CachesOk, UniqueRecords, NoEmptySlab, CacheOk, SlabOk, NoLeak;
      ghost var before := Now();
      assert |before.caches| == CACHES by { CachesLength(before); }
      for k := 0 to CACHES
        invariant unchanged(this, caches) && Now() == before && caches.Length == CACHES
        invariant forall j, s :: 0 <= j < k && s in SlabsOf(before.caches[j]) ==>
                  !InObjects(s, before.caches[j].layout, p)
      {
        var found;
        found, r, gone := FreeFromSlabList(p, k, false);
        if found {
          return;
        }
        found, r, gone := FreeFromSlabList(p, k, true);
        if found {
          return;
        }
      }
      NotInSlab(before, p);
      var i := 0;
      while records[i].ptr != p
        invariant unchanged(this, caches) && i < |records|
        invariant exists j :: i <= j < |records| && records[j].ptr == p
        decreases |records| - i
      {
        i := i + 1;
      }
      r, gone := FreeRecord(i);
    }

    lemma CachesLength(st: State)
      requires Good(st)
      ensures |st.caches| == CACHES
    {
    }

    lemma NotInSlab(st: State, p: nat)
      requires Good(st) && p in UserLive(st)
      requires forall j, s :: 0 <= j < CACHES && s in SlabsOf(st.caches[j]) ==> !InObjects(s, st.caches[j].layout, p)
      ensures exists i :: 0 <= i < |st.records| && st.records[i].ptr == p
    {
      if p in SlabLive(st.caches) {
        OwnerIsFound(st, p);
      }
      var r :| r in st.records && r.ptr == p;
      var i :| 0 <= i < |st.records| && st.records[i] == r;
    }

    lemma RankOfRecordObject(a: nat)
      requires Good(Now()) && a in LiveObjects(caches[RECORD_CACHE])
      ensures Rank(a) == 0 && a in Live(Now())
    {
      var s :| s in SlabsOf(caches[RECORD_CACHE]) && a in LiveIn(s, caches[RECORD_CACHE].layout);
      OwnerOfObject(Now(), RECORD_CACHE, s, a);
    }

    lemma RankOfPagePointer(i: nat)
      requires Good(Now()) && i < |records|
      ensures Rank(records[i].ptr) == 1
    {
      var r := records[i];
      assert r in Now().records;
      assert RecordOk(owner, r) && RecordPage(r, r.ptr / 4096);
    }

    /** Frees the pages of a page allocation, unlinks its record and frees that. */
    method FreeRecord(i: nat) returns (r: Freeing, gone: seq<nat>)
      requires Valid() && i < |records| && records[i].ptr in UserLive(Now())
      modifies this, caches
      ensures Released(old(records[i].ptr), r, gone)
      decreases Rank(records[i].ptr), 0
    {
      hide GoodPages, LiveObjects, SlabLive, CachesOk, UniqueRecords, NoEmptySlab, CacheOk, SlabOk, Live, NoLeak,
           Backed, Verdict, LostFrom, Alone, GivesUp, GoodKept;
      ghost var before, was := Now(), mapped;
      var record := records[i];
      CachesLength(before);
      RecordIsKept(before, i);
      RankOfPagePointer(i);
      RecordIsMapped(before, mapped, limit, record);
      AloneOnPages(before, record);
      PagesGiveUp(before, record);
      gone := [record.ptr];
      r := FreePages(mapped[record.ptr]);
      if r.Freed? {
        records := Without(records, i);
        BackLess(owner, mapped, limit, record.ptr);
        owner := owner - PageSet(record.ptr, record.pages);
        mapped := mapped - {record.ptr};
        kept := kept - {record.addr};
        RemoveRecord(before, Now(), i);
        RemoveRecordLeaksNothing(before, Now(), i);
        assert caches[RECORD_CACHE] == before.caches[RECORD_CACHE];
        RankOfRecordObject(record.addr);
        assert kept.Keys == before.kept.Keys - {record.addr};
        TakeBackOne(Live(before), before.kept.Keys, record.ptr);
        GiveUpOne(Live(Now()), before.kept.Keys, record.addr);
        SameGivesUp(before, Now(), record.addr);
        SmallObjectGoesBack(Now(), mapped, limit, RECORD_CACHE, record.addr);
        var more;
        ghost var ranges := GivesUp(Now(), record.addr);
        r, more := Kfree(record.addr);
        GoneBefore(old(mapped), record.ptr, more, ranges);
        gone := gone + more;
      }
    }

    lemma RecordIsKept(st: State, i: nat)
      requires Good(st) && i < |st.records|
      ensures st.records[i].addr in st.kept && st.records[i].addr in LiveObjects(st.caches[RECORD_CACHE])
    {
      assert st.records[i] in st.records;
    }

    /** free_from_slab_list: frees the object if one slab of the list holds it. */
    method FreeFromSlabList(p: nat, k: nat, inFull: bool) returns (found: bool, r: Freeing, gone: seq<nat>)
      requires Valid() && p in UserLive(Now()) && k < CACHES
      modifies this, caches
      ensures !found ==> unchanged(this, caches)
      ensures !found ==> forall s <- (if inFull then caches[k].full else caches[k].part) ::
                !InObjects(s, caches[k].layout, p)
      ensures found ==> Released(p, r, gone)
      decreases Rank(p), 0
    {
      var c := caches[k];
      var list := if inFull then c.full else c.part;
      var i := 0;
      while i < |list| && !InObjects(list[i], c.layout, p)
        invariant i <= |list| && unchanged(this, caches)
        invariant forall j :: 0 <= j < i ==> !InObjects(list[j], c.layout, p)
      {
        i := i + 1;
      }
      found, r, gone := i < |list|, Freed, [];
      if found {
        r, gone := FreeObject(p, k, inFull, i);
      }
    }

    /** Gives an object back to the slab at position i of a list; a full slab moves to the part list. */
    method TakeBack(p: nat, k: nat, inFull: bool, i: nat) returns (position: nat)
      requires Valid() && p in UserLive(Now()) && k < CACHES
      requires i < |if inFull then caches[k].full else caches[k].part|
      requires InObjects((if inFull then caches[k].full else caches[k].part)[i], caches[k].layout, p)
      modifies caches
      ensures Good(Now()) && NoLeak(Now()) && Live(Now()) == old(Live(Now())) - {p}
      ensures p in LiveIn(old((if inFull then caches[k].full else caches[k].part)[i]), old(caches[k].layout))
      ensures forall j :: 0 <= j < CACHES && j != k ==> caches[j] == old(caches[j])
      ensures position < |caches[k].part| && caches[k].layout == old(caches[k].layout)
      ensures var s, t := old((if inFull then caches[k].full else caches[k].part)[i]), caches[k].part[position];
              && t.base == s.base && t.addr == s.addr && t.used == s.used - 1
              && p == t.mem + t.nextFree * caches[k].layout.size
      ensures var c, t := old(caches[k]), caches[k].part[position];
              caches[k] == if inFull then c.(part := [t] + c.part, full := Without(c.full, i))
                           else c.(part := c.part[i := t])
      ensures forall j :: 0 <= j < |caches[k].part| && j != position ==> caches[k].part[j].used > 0
      ensures k >= ON_SLAB_CACHES ==> Rank(p) == 1
    {
      hide GoodPages, GoodKept, Chained, GoodLayout, Unique, LiveIn, LiveObjects, UniqueRecords, Live, Path, NoLeak;
      ghost var before := Now();
      var c := caches[k];
      var l := c.layout;
      var s := if inFull then c.full[i] else c.part[i];
      UserIsLive(before, p);
      FoundIsOwner(before, k, s, p);
      IndexOfObject(s, l, p);
      var index := (p - s.mem) / l.size;
      PushSlab(s, l, index);
      var t := s.(free := s.free[index := s.nextFree], nextFree := index, used := s.used - 1);
      if s.used == l.count {
        FullChanges(c, k, i, t);
        caches[k] := c.(part := [t] + c.part, full := Without(c.full, i));
        position := 0;
      } else {
        PartChanges(c, k, i, t);
        caches[k] := c.(part := c.part[i := t]);
        position := i;
      }
      assert caches[..] == before.caches[k := caches[k]];
      SwapLive(before, Now(), k, s, t);
      SwapGood(before, Now(), k, s, t);
      SwapLeaksNothing(before, Now(), k, s, t);
      SlabObjectsAreLive(before, k, s);
    }

    /** Gives up the empty slab at position i of the part list: its pages, and then its header. */
    method DropSlab(k: nat, i: nat) returns (r: Freeing, header: nat)
      requires Sound() && k < CACHES && i < |caches[k].part| && caches[k].part[i].used == 0
      requires caches[k].part[i].base in mapped
      requires forall j :: 0 <= j < |caches[k].part| && j != i ==> caches[k].part[j].used > 0
      requires forall j :: 0 <= j < CACHES && j != k ==> NoEmptySlab(caches[j])
      modifies this, caches
      ensures r == Verdict(old(mapped[caches[k].part[i].base]), limit)
      ensures r.Freed? ==> Valid() && Live(Now()) == old(Live(Now())) && header == old(caches[k].part[i].addr)
      ensures r.Freed? ==> forall j :: 0 <= j < CACHES && j != k ==> caches[j] == old(caches[j])
      ensures var c := old(caches[k]); caches[k] == c.(part := Without(c.part, i)) && records == old(records)
      ensures r.Freed? ==> mapped == old(mapped) - {old(caches[k].part[i].base)}
      ensures r.Freed? ==> lost == old(lost) + LostFrom(old(mapped[caches[k].part[i].base]))
      ensures r.Freed? ==> kept == if k < ON_SLAB_CACHES then old(kept) else old(kept) - {header}
      ensures r.Freed? && k >= ON_SLAB_CACHES ==> header in old(kept) && Rank(header) == 0 && header in Live(Now())
      ensures r.Freed? && k >= ON_SLAB_CACHES ==> header in LiveObjects(caches[RECORD_CACHE])
    {
      hide GoodPages, Chained, GoodLayout, Unique, LiveIn, LiveObjects, UniqueRecords, Live, Path, NoLeak, Backed,
           Verdict, LostFrom;
      ghost var before := Now();
      var c := caches[k];
      var s := c.part[i];
      SlabIsMapped(before, mapped, limit, k, s);
      PartLoses(c, k, i);
      caches[k] := c.(part := Without(c.part, i));
      header := s.addr;
      r := FreePages(mapped[s.base]);
      if r.Freed? {
        BackLess(owner, mapped, limit, s.base);
        owner := owner - PageSet(s.base, c.layout.pages);
        mapped := mapped - {s.base};
        if k >= ON_SLAB_CACHES {
          kept := kept - {s.addr};
        }
        assert caches[..] == before.caches[k := caches[k]];
        RemoveSlab(before, Now(), k, s);
        RemoveSlabLeaksNothing(before, Now(), k, s);
        if k >= ON_SLAB_CACHES {
          assert s in SlabsOf(before.caches[k]);
          RankOfRecordObject(header);
        }
      }
    }

    /** Gives an object back to the slab at position i of a list, and gives up the slab if it is empty then. */
    method FreeObject(p: nat, k: nat, inFull: bool, i: nat) returns (r: Freeing, gone: seq<nat>)
      requires Valid() && p in UserLive(Now()) && k < CACHES
      requires i < |if inFull then caches[k].full else caches[k].part|
      requires InObjects((if inFull then caches[k].full else caches[k].part)[i], caches[k].layout, p)
      modifies this, caches
      ensures Released(p, r, gone)
      decreases Rank(p), -1
    {
      hide GoodPages, GoodKept, CacheOk, UniqueRecords, Live, NoLeak, Backed, Verdict, LostFrom, GivesUp,
           FreeingOf, LostWith;
      ghost var before, live, keys := Now(), Live(Now()), kept.Keys;
      ghost var s := (if inFull then caches[k].full else caches[k].part)[i];
      TakeBackOne(live, keys, p);
      var position := TakeBack(p, k, inFull, i);
      FreesLast(before, old(mapped), limit, k, s, p);
      r, gone := Freed, [];
      if caches[k].part[position].used == 0 {
        gone := [caches[k].part[position].base];
        var header;
        r, header := DropSlab(k, position);
        if r.Freed? && k >= ON_SLAB_CACHES {
          assert kept.Keys == keys - {header};
          GiveUpOne(Live(Now()), keys, header);
          SameGivesUp(before, Now(), header);
          SmallObjectGoesBack(Now(), mapped, limit, RECORD_CACHE, header);
          var more;
          ghost var ranges := GivesUp(Now(), header);
          r, more := Kfree(header);
          GoneBefore(old(mapped), s.base, more, ranges);
          gone := gone + more;
        }
      }
    }

    /** What freeing an object of a slab gives up, and how that ends. */
    lemma FreesLast(st: State, mapped: map<nat, seq<nat>>, limit: nat, k: nat, s: Slab, q: nat)
      requires Good(st) && NoLeak(st) && Backed(st.owner, mapped, limit) && k < CACHES && s in SlabsOf(st.caches[k])
               && q in LiveIn(s, st.caches[k].layout)
      ensures s.base in mapped && s.used > 0
      ensures q / 4096 in st.owner && RangeOf(st.owner[q / 4096]) == s.base
      ensures FreeingOf(st, q, mapped, limit) == if s.used == 1 then Verdict(mapped[s.base], limit) else Freed
      ensures LostWith(st, q, mapped, limit) == if s.used == 1 then LostFrom(mapped[s.base]) else {}
      ensures GivesUp(st, q) == if s.used != 1 then {}
                                else {s.base} + if k < ON_SLAB_CACHES then {} else GivesUp(st, s.addr)
    {
      hide Good, NoLeak, LiveIn, GivesUp, FreeingOf, LostWith, Backed, Verdict, LostFrom;
      ObjectGivesUp(st, k, s, q);
      LastOfSlab(st, mapped, limit, k, s, q);
    }
  }

  /** How far freeing everything has come: what is not mapped any more went back as blocks. */
  ghost predicate HalfFreed(was: map<nat, seq<nat>>, now: map<nat, seq<nat>>, lostThen: set<nat>, lost: set<nat>,
                            limit: nat) {
    && now.Keys <= was.Keys && (forall b <- now :: now[b] == was[b])
    && (forall b <- was.Keys - now.Keys :: AllBlocks(RunsOf(was[b]), limit))
    && lost == lostThen + LostFromAll(was, was.Keys - now.Keys)
  }

  lemma NothingFreedYet(was: map<nat, seq<nat>>, lost: set<nat>, limit: nat)
    ensures HalfFreed(was, was, lost, lost, limit)
  {
  }

  lemma FreedMore(was: map<nat, seq<nat>>, now: map<nat, seq<nat>>, lostThen: set<nat>, lost: set<nat>, limit: nat,
                  ranges: set<nat>)
    requires HalfFreed(was, now, lostThen, lost, limit) && ranges <= now.Keys
    requires forall b <- ranges :: AllBlocks(RunsOf(now[b]), limit)
    ensures HalfFreed(was, now - ranges, lostThen, lost + LostFromAll(now, ranges), limit)
  {
    hide AllBlocks, RunsOf, LostFrom;
    assert was.Keys - (now - ranges).Keys == (was.Keys - now.Keys) + ranges;
  }

  /**
   Freeing everything callers hold, in any order: it ends well if and only if the frames under every range
   are cut into blocks.  Then all lists are empty, and exactly the frames that the scans drop are lost.
   */
  method FreeAll(slabs: SlabAllocator, pointers: seq<nat>) returns (r: Freeing)
    requires slabs.Valid() && NoRepeats(pointers) && forall p :: p in pointers <==> p in UserLive(slabs.Now())
    modifies slabs, slabs.caches
    ensures r.Freed? <==> forall b <- old(slabs.mapped) :: AllBlocks(RunsOf(old(slabs.mapped)[b]), slabs.limit)
    ensures r.Freed? ==> slabs.Valid() && slabs.owner == map[] && slabs.records == [] && slabs.kept == map[]
    ensures r.Freed? ==> forall k :: 0 <= k < CACHES ==> slabs.caches[k].part == slabs.caches[k].full == []
    ensures r.Freed? ==>
              slabs.mapped == map[] && slabs.lost == old(slabs.lost + LostFromAll(slabs.mapped, slabs.mapped.Keys))
  {
    hide Good, Tidy, NoLeak, UserLive, HalfFreed, Backed, FreeingOf, LostWith, GivesUp, LostFromAll, AllBlocks, RunsOf;
    r := Freed;
    ghost var was, lostThen := slabs.mapped, slabs.lost;
    NothingFreedYet(was, lostThen, slabs.limit);
    for i := 0 to |pointers|
      invariant r.Freed? && slabs.Valid() && forall p :: p in pointers[i..] <==> p in UserLive(slabs.Now())
      invariant HalfFreed(was, slabs.mapped, lostThen, slabs.lost, slabs.limit)
    {
      assert pointers[i..] == [pointers[i]] + pointers[i + 1..];
      ghost var now, st, lost := slabs.mapped, slabs.Now(), slabs.lost;
      FreedExactlyAsRangesGoBack(st, now, slabs.limit, pointers[i]);
      var gone;
      r, gone := slabs.Kfree(pointers[i]);
      if !r.Freed? {
        StillMapped(was, now, lostThen, lost, slabs.limit);
        return;
      }
      FreedMore(was, now, lostThen, lost, slabs.limit, GivesUp(st, pointers[i]));
    }
    NothingLeft(slabs);
    AllFreed(was, slabs.mapped, lostThen, slabs.lost, slabs.limit);
  }

  lemma StillMapped(was: map<nat, seq<nat>>, now: map<nat, seq<nat>>, lostThen: set<nat>, lost: set<nat>, limit: nat)
    requires HalfFreed(was, now, lostThen, lost, limit)
    ensures forall b <- now :: b in was && now[b] == was[b]
  {
  }

  lemma AllFreed(was: map<nat, seq<nat>>, now: map<nat, seq<nat>>, lostThen: set<nat>, lost: set<nat>, limit: nat)
    requires HalfFreed(was, now, lostThen, lost, limit) && now == map[]
    ensures forall b <- was :: AllBlocks(RunsOf(was[b]), limit)
    ensures lost == lostThen + LostFromAll(was, was.Keys)
  {
    assert was.Keys - now.Keys == was.Keys;
  }

  lemma NothingLeft(slabs: SlabAllocator)
    requires slabs.Valid() && UserLive(slabs.Now()) == {}
    ensures slabs.owner == map[] && slabs.records == [] && slabs.kept == map[] && slabs.mapped == map[]
    ensures forall k :: 0 <= k < CACHES ==> slabs.caches[k].part == slabs.caches[k].full == []
  {
    NothingHeldNothingOwned(slabs.Now());
    assert forall k :: 0 <= k < CACHES ==> slabs.Now().caches[k] == slabs.caches[k];
    RangesAreOwned(slabs.owner, slabs.mapped, slabs.limit);
  }

  /**
   kfree undoes kalloc: what callers hold and the ranges of mapped pages are as before, whenever free_pages
   ends well for the pages that the request came to need.  Up to 1024 bytes it always does.
   */
  method AllocThenFree(slabs: SlabAllocator, size: nat, first: Supply, second: Supply) returns (r: Result, f: Freeing)
    requires slabs.Valid() && slabs.Supplied(slabs.PagesWanted(size), first, second)
    modifies slabs, slabs.caches
    ensures r.Ptr? <==> !old(slabs.NoMemory(CacheFor(size), first, second))
                        && !(size > 2048 && old(slabs.NoRecordMemory(second)))
    ensures r.Ptr? ==> f == if old(slabs.NeedsPages(CacheFor(size))) then Verdict(first.frames, slabs.limit) else Freed
    ensures r.Ptr? && size <= 1024 ==> f.Freed?
    ensures r.Ptr? && f.Freed? ==>
              && slabs.Valid() && UserLive(slabs.Now()) == old(UserLive(slabs.Now()))
              && slabs.mapped == old(slabs.mapped)
              && slabs.lost == old(slabs.lost)
                               + if old(slabs.NeedsPages(CacheFor(size))) then LostFrom(first.frames) else {}
  {
    hide Good, Tidy, NoLeak, Live, UserLive, Backed, GivesUp, Alone, Verdict, LostFrom, CacheFor, LiveObjects,
         FreshSupply, FreeingOf, LostWith;
    slabs.CachesLength(slabs.Now());
    assert UserLive(slabs.Now()) <= Live(slabs.Now()) by { UserIsPart(slabs.Now()); }
    ghost var k, was := CacheFor(size), slabs.mapped;
    ghost var taken := slabs.Taken(k, first, second);
    SuppliesAreNew(slabs.owner, was, slabs.limit, first, slabs.PagesWanted(size));
    SuppliesAreNew(slabs.owner, was, slabs.limit, second, slabs.caches[RECORD_CACHE].layout.pages);
    r := slabs.Kalloc(size, first, second);
    f := Freed;
    if r.Ptr? {
      LastOnItsPages(slabs.Now(), slabs.mapped, slabs.limit, r.p);
      if size <= 1024 {
        SmallObjectGoesBack(slabs.Now(), slabs.mapped, slabs.limit, k, r.p);
      }
      assert taken.Keys !! was.Keys;
      UndoneMap(was, taken);
      var gone;
      f, gone := slabs.Kfree(r.p);
    }
  }

  lemma UserIsPart(st: State)
    ensures UserLive(st) <= Live(st)
  {
  }

  lemma SuppliesAreNew(owner: map<nat, Owner>, mapped: map<nat, seq<nat>>, limit: nat, s: Supply, pages: nat)
    requires Backed(owner, mapped, limit) && FreshSupply(owner, s, pages, limit)
    ensures s.ptr != 0 ==> s.ptr !in mapped
  {
    RangesAreOwned(owner, mapped, limit);
    if s.ptr != 0 {
      RangeStart(s.ptr, pages);
      assert s.ptr / 4096 in PageSet(s.ptr, pages);
    }
  }

  lemma LastOnItsPages(st: State, mapped: map<nat, seq<nat>>, limit: nat, p: nat)
    requires Backed(st.owner, mapped, limit)
    ensures Alone(st, p) ==>
              && p / 4096 in st.owner && RangeOf(st.owner[p / 4096]) in mapped
              && FreeingOf(st, p, mapped, limit) == Verdict(mapped[RangeOf(st.owner[p / 4096])], limit)
              && LostWith(st, p, mapped, limit) == LostFrom(mapped[RangeOf(st.owner[p / 4096])])
    ensures !Alone(st, p) ==> FreeingOf(st, p, mapped, limit) == Freed && LostWith(st, p, mapped, limit) == {}
  {
  }

  lemma UndoneMap(was: map<nat, seq<nat>>, more: map<nat, seq<nat>>)
    ensures was.Keys !! more.Keys ==> was + more - more.Keys == was
  {
  }

  /** Three pages on neighbouring frames: kfree stops at the assertion that a run's length is a power of two. */
  method ThreePagesStop(ptr: nat, f: nat, second: Supply, limit: nat) returns (r: Freeing)
    requires ptr > 0 && f + 2 < limit && FreshSupply(map[], Supply(ptr, [f, f + 1, f + 2]), 3, limit)
    requires second.ptr != 0 && FreshSupply(map[], second, 1, limit) && PageSet(ptr, 3) !! PageSet(second.ptr, 1)
    ensures r == AssertionFails
  {
    var slabs := new SlabAllocator(limit);
    var p;
    p, r := AllocThenFree(slabs, 12288, Supply(ptr, [f, f + 1, f + 2]), second);
    ThreeFramesStop(f, limit);
  }

  /** The first request for whole pages on a fresh allocator, with no page to be had for its record. */
  method RecordWithoutMemory(size: nat, first: Supply, limit: nat) returns (r: Result)
    requires size > 2048 && first.ptr > 0 && FreshSupply(map[], first, WholePages(size), limit)
    ensures r.Fault?
  {
    var slabs := new SlabAllocator(limit);
    r := slabs.Kalloc(size, first, NO_PAGES);
  }

  lemma CacheSizes(k: nat)
    requires k < CACHES
    ensures var size := Size(CACHE_START_ORDER + k);
            size >= MAX_ALIGN && size % MAX_ALIGN == 0 && (size < OFF_SLAB_THRESHOLD <==> k < ON_SLAB_CACHES)
  {
    assert Size(4) == 16 && Size(5) == 32 && Size(6) == 64;
    assert Size(8) == 256;
    assert Size(11) == 2048;
  }

  /** How many objects a slab of each cache holds. */
  lemma ObjectsOfCache(k: nat, l: Layout)
    requires k < CACHES && l.size == Size(CACHE_START_ORDER + k) && l.pages == PagesPerSlab(k) && GoodLayout(l)
    requires forall c: nat :: c > l.count ==> !Fits(l.size, l.pages, c)
    ensures l.count == [203, 112, 59, 30, 15, 7, 3, 3][k]
  {
    hide Fits;
    var n := [203, 112, 59, 30, 15, 7, 3, 3][k];
    MostThatFit(k);
    if l.count > n {
      LargerNeedsMore(l.size, l.pages, n + 1, l.count);
    }
  }

  lemma MostThatFit(k: nat)
    requires k < CACHES
    ensures var size, pages, n := Size(CACHE_START_ORDER + k), PagesPerSlab(k), [203, 112, 59, 30, 15, 7, 3, 3][k];
            Fits(size, pages, n) && !Fits(size, pages, n + 1)
  {
    assert Size(4) == 16 && Size(5) == 32 && Size(6) == 64 && Size(7) == 128;
    assert Size(8) == 256 && Size(9) == 512 && Size(10) == 1024 && Size(11) == 2048;
    if k < 4 {
      assert Fits(16, 1, 203) && !Fits(16, 1, 204) && Fits(32, 1, 112) && !Fits(32, 1, 113);
      assert Fits(64, 1, 59) && !Fits(64, 1, 60) && Fits(128, 1, 30) && !Fits(128, 1, 31);
    } else {
      assert Fits(256, 1, 15) && !Fits(256, 1, 16) && Fits(512, 1, 7) && !Fits(512, 1, 8);
      assert Fits(1024, 1, 3) && !Fits(1024, 1, 4) && Fits(2048, 2, 3) && !Fits(2048, 2, 4);
    }
  }

  lemma PagesOfCache(k: nat, pages: nat)
    requires k < CACHES && pages > 0 && PAGE_SIZE * pages / Size(CACHE_START_ORDER + k) >= MIN_OBJECTS
    requires pages > 1 ==> PAGE_SIZE * (pages - 1) / Size(CACHE_START_ORDER + k) < MIN_OBJECTS
    ensures pages == PagesPerSlab(k)
  {
    var size := Size(CACHE_START_ORDER + k);
    assert Size(10) == 1024 && Size(11) == 2048;
    if k < CACHES - 1 {
      SizeGrows(CACHE_START_ORDER + k, 10);
      if pages > 1 {
        QuotientBelow(PAGE_SIZE * (pages - 1), size, MIN_OBJECTS);
      }
    } else {
      QuotientBelow(PAGE_SIZE * pages, size, MIN_OBJECTS);
      if pages > 1 {
        QuotientBelow(PAGE_SIZE * (pages - 1), size, MIN_OBJECTS);
      }
    }
  }

  lemma NothingLive(st: State)
    requires |st.caches| == CACHES && st.records == [] && st.kept == map[]
    requires forall k :: 0 <= k < CACHES ==> IsNew(st.caches[k], k)
    ensures Good(st) && Tidy(st) && (st.owner == map[] ==> NoLeak(st)) && Live(st) == {}
  {
    forall k | 0 <= k < CACHES ensures SlabsOf(st.caches[k]) == {} && LiveObjects(st.caches[k]) == {} {
    }
  }
}
