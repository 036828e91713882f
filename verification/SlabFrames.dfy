/**
 The frames under the slab allocator's pages, and what one kfree gives up.  free_pages takes a range of
 pages back well only if its frames are cut into blocks, so whether kfree ends depends on them.
 */
module SlabFrames {
  import opened Blocks
  import opened SlabLayout
  import opened FreeChain
  import opened Intervals
  import opened Lists
  import opened FrameAllocator
  import opened SlabStates
  import opened FrameScan

  /** What alloc_pages returns: the address of the pages, 0 for null, and the frames they are mapped to. */
  datatype Supply = Supply(ptr: nat, frames: seq<nat>)

  const NO_PAGES: Supply := Supply(0, [])

  /** Null, or so many mapped pages used for nothing; never a range of no pages. */
  ghost predicate FreshSupply(owner: map<nat, Owner>, s: Supply, pages: nat, limit: nat) {
    s.ptr != 0 ==>
      && s.ptr % PAGE_SIZE == 0 && 0 < pages == |s.frames| && PageSet(s.ptr, pages) !! owner.Keys
      && forall f <- s.frames :: f < limit
  }

  /** The first page of the range that a page belongs to. */
  function RangeOf(use: Owner): nat {
    match use
    case SlabPages(_, base) => base
    case ObjectPages(ptr) => ptr
  }

  /** The pages used are those of the mapped ranges, each range for one purpose. */
  ghost predicate Backed(owner: map<nat, Owner>, mapped: map<nat, seq<nat>>, limit: nat) {
    && (forall b <- mapped ::
          && b > 0 && b % PAGE_SIZE == 0 && mapped[b] != [] && (forall f <- mapped[b] :: f < limit)
          && forall p: nat :: OnPages(b, |mapped[b]|, p) ==> p in owner && RangeOf(owner[p]) == b)
    && (forall p <- owner :: RangeOf(owner[p]) in mapped && OnPages(RangeOf(owner[p]), |mapped[RangeOf(owner[p])]|, p))
  }

  lemma RangeStart(b: nat, pages: nat)
    requires pages > 0
    ensures OnPages(b, pages, b / 4096)
  {
  }

  /** A range that comes into use. */
  lemma BackMore(owner: map<nat, Owner>, mapped: map<nat, seq<nat>>, limit: nat, s: Supply, pages: nat, use: Owner)
    requires Backed(owner, mapped, limit) && s.ptr != 0 && FreshSupply(owner, s, pages, limit)
    requires RangeOf(use) == s.ptr
    ensures s.ptr !in mapped
    ensures Backed(Owned(owner, s.ptr, pages, use), mapped[s.ptr := s.frames], limit)
  {
    hide Owned;
    var after := Owned(owner, s.ptr, pages, use);
    OwnedPages(owner, s.ptr, pages, use);
    OwnedKeys(owner, s.ptr, pages, use);
    RangeStart(s.ptr, pages);
    assert s.ptr / 4096 in PageSet(s.ptr, pages);
    if s.ptr in mapped {
      RangeStart(s.ptr, |mapped[s.ptr]|);
    }
    forall p | p in after ensures p in owner || OnPages(s.ptr, pages, p) {
    }
    BackedBoth(owner, mapped, limit, s, after);
  }

  lemma BackedBoth(owner: map<nat, Owner>, mapped: map<nat, seq<nat>>, limit: nat, s: Supply, after: map<nat, Owner>)
    requires Backed(owner, mapped, limit) && s.ptr !in mapped
    requires s.ptr > 0 && s.ptr % PAGE_SIZE == 0 && s.frames != [] && forall f <- s.frames :: f < limit
    requires forall p <- owner :: p in after && after[p] == owner[p]
    requires forall p: nat :: OnPages(s.ptr, |s.frames|, p) ==> p in after && RangeOf(after[p]) == s.ptr
    requires forall p <- after :: p in owner || OnPages(s.ptr, |s.frames|, p)
    ensures Backed(after, mapped[s.ptr := s.frames], limit)
  {
    hide OnPages;
  }

  /** A range that goes out of use. */
  lemma BackLess(owner: map<nat, Owner>, mapped: map<nat, seq<nat>>, limit: nat, b: nat)
    requires Backed(owner, mapped, limit) && b in mapped
    ensures Backed(owner - PageSet(b, |mapped[b]|), mapped - {b}, limit)
  {
    assert forall p: nat :: OnPages(b, |mapped[b]|, p) ==> p in PageSet(b, |mapped[b]|);
  }

  lemma RangesAreOwned(owner: map<nat, Owner>, mapped: map<nat, seq<nat>>, limit: nat)
    requires Backed(owner, mapped, limit)
    ensures forall b <- mapped :: b / 4096 in owner
  {
    forall b | b in mapped ensures b / 4096 in owner {
      assert OnPages(b, |mapped[b]|, b / 4096);
    }
  }

  /** One range is given up, and then others. */
  lemma GoneBefore(mapped: map<nat, seq<nat>>, b: nat, more: seq<nat>, ranges: set<nat>)
    requires b in mapped && NoRepeats(more) && ElementsOf(more) == ranges <= (mapped - {b}).Keys
    ensures NoRepeats([b] + more) && ElementsOf([b] + more) == {b} + ranges <= mapped.Keys
    ensures (mapped - {b}) - ranges == mapped - ({b} + ranges)
  {
    assert forall x <- more :: x in ElementsOf(more);
  }

  /** Pages stay fresh while others come into use. */
  lemma StillFresh(owner: map<nat, Owner>, mapped: map<nat, seq<nat>>, limit: nat,
                   after: map<nat, Owner>, more: map<nat, seq<nat>>, s: Supply, pages: nat)
    requires Backed(owner, mapped, limit) && Backed(after, mapped + more, limit)
    requires FreshSupply(owner, s, pages, limit)
    requires s.ptr != 0 ==> forall b <- more :: PageSet(s.ptr, pages) !! PageSet(b, |more[b]|)
    ensures FreshSupply(after, s, pages, limit)
  {
    if s.ptr != 0 {
      forall p | p in after ensures p !in PageSet(s.ptr, pages) {
        var b := RangeOf(after[p]);
        if b in more {
          assert p in PageSet(b, |more[b]|);
        } else {
          assert b in mapped && OnPages(b, |mapped[b]|, p);
        }
      }
    }
  }

  /** The pages of a slab are one mapped range. */
  lemma SlabIsMapped(st: State, mapped: map<nat, seq<nat>>, limit: nat, k: nat, s: Slab)
    requires Good(st) && NoLeak(st) && Backed(st.owner, mapped, limit) && k < CACHES && s in SlabsOf(st.caches[k])
    ensures s.base in mapped && |mapped[s.base]| == st.caches[k].layout.pages
  {
    hide GoodKept, UniqueRecords, Chained, Fits, Unique, Backed, CacheOk;
    var l := st.caches[k].layout;
    SlabOnItsPages(st, k, s);
    RangeStart(s.base, l.pages);
    var first, last := s.base / 4096, s.base / 4096 + l.pages - 1;
    assert OnPages(s.base, l.pages, last);
    BackedPage(st.owner, mapped, limit, first);
    BackedPage(st.owner, mapped, limit, last);
    var end := s.base / 4096 + |mapped[s.base]| - 1;
    assert OnPages(s.base, |mapped[s.base]|, end);
    BackedRange(st.owner, mapped, limit, s.base, end);
    OneUse(st, k, s, end);
  }

  lemma BackedPage(owner: map<nat, Owner>, mapped: map<nat, seq<nat>>, limit: nat, p: nat)
    requires Backed(owner, mapped, limit) && p in owner
    ensures RangeOf(owner[p]) in mapped && OnPages(RangeOf(owner[p]), |mapped[RangeOf(owner[p])]|, p)
  {
  }

  lemma BackedRange(owner: map<nat, Owner>, mapped: map<nat, seq<nat>>, limit: nat, b: nat, p: nat)
    requires Backed(owner, mapped, limit) && b in mapped && OnPages(b, |mapped[b]|, p)
    ensures p in owner && RangeOf(owner[p]) == b
  {
  }

  /** All pages of a range are used for the same. */
  lemma UseOfRange(st: State, p: nat)
    requires Good(st) && NoLeak(st) && p in st.owner
    ensures RangeOf(st.owner[p]) / 4096 in st.owner && st.owner[RangeOf(st.owner[p]) / 4096] == st.owner[p]
  {
    hide GoodKept, UniqueRecords, Chained, Fits, Unique, GoodLayout;
    assert InUse(st.caches, st.records, p, st.owner[p]);
    match st.owner[p] {
      case SlabPages(j, base) =>
        var r :| r in SlabsOf(st.caches[j]) && r.base == base && PageOf(r, st.caches[j].layout, p);
        assert SlabOwns(st.owner, j, r, st.caches[j].layout) && PageOf(r, st.caches[j].layout, base / 4096);
      case ObjectPages(ptr) =>
        var r :| r in st.records && r.ptr == ptr && RecordPage(r, p);
        assert RecordOk(st.owner, r) && RecordPage(r, ptr / 4096);
    }
  }

  /** Pages of the range that a slab starts are pages of the slab. */
  lemma OneUse(st: State, k: nat, s: Slab, p: nat)
    requires Good(st) && NoLeak(st) && k < CACHES && s in SlabsOf(st.caches[k])
    requires p in st.owner && RangeOf(st.owner[p]) == s.base
    ensures PageOf(s, st.caches[k].layout, p)
  {
    hide GoodKept, UniqueRecords, Chained, Fits, Unique, GoodLayout;
    var l := st.caches[k].layout;
    assert SlabOwns(st.owner, k, s, l) && PageOf(s, l, s.base / 4096);
    UseOfRange(st, p);
    assert InUse(st.caches, st.records, p, st.owner[p]);
    var r :| r in SlabsOf(st.caches[k]) && r.base == s.base && PageOf(r, l, p);
    SameBaseSameSlab(st.caches[k], k, s, r);
  }

  /** The pages of a page allocation are one mapped range. */
  lemma RecordIsMapped(st: State, mapped: map<nat, seq<nat>>, limit: nat, r: PageRecord)
    requires Good(st) && NoLeak(st) && Backed(st.owner, mapped, limit) && r in st.records
    ensures r.ptr in mapped && |mapped[r.ptr]| == r.pages
  {
    hide GoodKept, Chained, Fits, Unique, Backed;
    assert RecordOk(st.owner, r) && RecordPage(r, r.ptr / 4096) && RecordPage(r, r.ptr / 4096 + r.pages - 1);
    BackedPage(st.owner, mapped, limit, r.ptr / 4096);
    BackedPage(st.owner, mapped, limit, r.ptr / 4096 + r.pages - 1);
    var end := r.ptr / 4096 + |mapped[r.ptr]| - 1;
    assert OnPages(r.ptr, |mapped[r.ptr]|, end);
    BackedRange(st.owner, mapped, limit, r.ptr, end);
    UseOfRange(st, end);
    assert InUse(st.caches, st.records, end, ObjectPages(r.ptr));
    var q :| q in st.records && q.ptr == r.ptr && RecordPage(q, end);
    SamePointerSameRecord(st, r, q);
  }

  // ----- what one kfree gives up

  /** Nothing else that is live lies on the pages of the range that q lies on. */
  ghost predicate Alone(st: State, q: nat) {
    && q / 4096 in st.owner
    && forall a <- Live(st) :: a / 4096 in st.owner && st.owner[a / 4096] == st.owner[q / 4096] ==> a == q
  }

  /** Whether an object is kept for the slab or page allocation with these pages. */
  predicate KeptFor(keeper: Keeper, use: Owner) {
    match keeper
    case HeaderOf(k, base) => use == SlabPages(k, base)
    case RecordOf(ptr) => use == ObjectPages(ptr)
  }

  /** What is freed together with p: the header of its slab or its page record, if p is the last on its pages. */
  ghost function FreedWith(st: State, p: nat): set<nat> {
    {p} + if Alone(st, p) then set h | h in st.kept && KeptFor(st.kept[h], st.owner[p / 4096]) else {}
  }

  /** The ranges of pages that freeing p gives up: those left with nothing live on them. */
  ghost function GivesUp(st: State, p: nat): set<nat> {
    set q | q in FreedWith(st, p) && Alone(st, q) :: RangeOf(st.owner[q / 4096])
  }

  /** How free_pages ends for a range with these frames. */
  function Verdict(frames: seq<nat>, limit: nat): Freeing {
    JudgeAll(RunsOf(frames), limit)
  }

  /** The frames that free_pages unmaps without freeing them. */
  ghost function LostFrom(frames: seq<nat>): set<nat> {
    FrameSet(Dropped(frames))
  }

  /** How freeing p ends: well, unless its range is given up and its frames are no blocks. */
  ghost function FreeingOf(st: State, p: nat, mapped: map<nat, seq<nat>>, limit: nat): Freeing
    requires Backed(st.owner, mapped, limit)
  {
    if Alone(st, p) then Verdict(mapped[RangeOf(st.owner[p / 4096])], limit) else Freed
  }

  /** The frames lost when p is freed. */
  ghost function LostWith(st: State, p: nat, mapped: map<nat, seq<nat>>, limit: nat): set<nat>
    requires Backed(st.owner, mapped, limit)
  {
    if Alone(st, p) then LostFrom(mapped[RangeOf(st.owner[p / 4096])]) else {}
  }

  // ----- pages of each kind

  /** A single page always goes back. */
  lemma OnePageGoesBack(frames: seq<nat>, limit: nat)
    requires |frames| == 1 && frames[0] < limit
    ensures Verdict(frames, limit) == Freed && LostFrom(frames) == {}
  {
    hide Dropped, RunsOf, JudgeAll;
    OneRun(frames);
    SmallOffsets();
    BlockSizeOrder(0);
    FreedMeansBlocks(RunsOf(frames), limit);
  }

  /**
   Two pages, as a slab of 2048-byte objects has: given back well unless their frames are neighbours of
   which the second is even, and completely exactly if they are one block.
   */
  lemma TwoPagesGoBack(f: nat, g: nat, limit: nat)
    requires f < limit && g < limit
    ensures Verdict([f, g], limit) == if g == f + 1 && f % 2 == 1 then NotABlock else Freed
    ensures LostFrom([f, g]) == if g == f + 1 then {} else {g}
  {
    hide Dropped, RunsOf, JudgeAll;
    if g == f + 1 {
      OneRun([f, g]);
      SmallOffsets();
      assert PopCount(2) == 1;
      PairIsBlock(f, limit);
      JudgeOne(FrameRun(f, 2), limit);
    } else {
      SecondFrameLost(f, g);
      OnePageGoesBack([f], limit);
      OneRun([f]);
    }
  }

  lemma JudgeOne(r: FrameRun, limit: nat)
    ensures JudgeAll([r], limit) == Judge(r, limit)
  {
    assert JudgeAll([r][1..], limit) == Freed;
  }

  lemma PairIsBlock(f: nat, limit: nat)
    requires f + 1 < limit
    ensures IsBlock(FrameRun(f, 2), limit) <==> f % 2 == 0
  {
    SmallOffsets();
    BlockSizeOrder(1);
    OffsetIsRemainder(f, 1);
  }

  /** The slab of an object. */
  lemma AloneInSlab(st: State, k: nat, s: Slab, q: nat)
    requires Good(st) && k < CACHES && s in SlabsOf(st.caches[k]) && q in LiveIn(s, st.caches[k].layout)
    ensures q / 4096 in st.owner && RangeOf(st.owner[q / 4096]) == s.base && s.used > 0
    ensures st.owner[q / 4096] == SlabPages(k, s.base)
    ensures Alone(st, q) <==> s.used == 1
  {
    hide GoodPages, GoodKept, UniqueRecords, Chained, Fits, Unique, GoodLayout, CacheOk;
    var l := st.caches[k].layout;
    OwnerOfObject(st, k, s, q);
    SlabOnItsPages(st, k, s);
    LiveCount(s, l);
    var i :| i in TakenIn(s, l) && AddressOf(s, l, i) == q;
    if s.used == 1 {
      forall a | a in Live(st) && a / 4096 in st.owner && st.owner[a / 4096] == st.owner[q / 4096] ensures a == q {
        OwnedMeansInSlab(st, k, s, a);
        var j :| j in TakenIn(s, l) && AddressOf(s, l, j) == a;
        OnlyOne(TakenIn(s, l), i, j);
      }
    } else {
      var j := Another(TakenIn(s, l), i);
      assert AddressOf(s, l, j) in LiveIn(s, l);
      OwnerOfObject(st, k, s, AddressOf(s, l, j));
      if AddressOf(s, l, j) == q {
        SameIndex(s, l, i, j);
      }
    }
  }

  lemma OnlyOne(indices: set<nat>, i: nat, j: nat)
    requires |indices| == 1 && i in indices && j in indices
    ensures i == j
  {
    assert |indices - {i}| == 0;
  }

  lemma Another(indices: set<nat>, i: nat) returns (j: nat)
    requires |indices| > 1 && i in indices
    ensures j in indices && j != i
  {
    assert |indices - {i}| != 0;
    j :| j in indices - {i};
  }

  /** What is live on the pages of a slab is an object of it. */
  lemma OwnedMeansInSlab(st: State, k: nat, s: Slab, a: nat)
    requires Good(st) && k < CACHES && s in SlabsOf(st.caches[k]) && a in Live(st)
    requires a / 4096 in st.owner && st.owner[a / 4096] == SlabPages(k, s.base)
    ensures a in LiveIn(s, st.caches[k].layout)
  {
    hide GoodKept, UniqueRecords, Chained, Fits, Unique, GoodLayout;
    forall r | r in st.records ensures r.ptr != a {
      assert RecordOk(st.owner, r) && RecordPage(r, r.ptr / 4096);
    }
    var j :| 0 <= j < CACHES && a in LiveObjects(st.caches[j]);
    var r :| r in SlabsOf(st.caches[j]) && a in LiveIn(r, st.caches[j].layout);
    OwnerOfObject(st, j, r, a);
    SameBaseSameSlab(st.caches[k], k, r, s);
  }

  /** A page allocation is alone on its pages. */
  lemma AloneOnPages(st: State, r: PageRecord)
    requires Good(st) && r in st.records
    ensures Alone(st, r.ptr) && st.owner[r.ptr / 4096] == ObjectPages(r.ptr)
  {
    hide GoodKept, UniqueRecords, Chained, Fits, Unique, GoodLayout, LiveIn;
    assert RecordOk(st.owner, r) && RecordPage(r, r.ptr / 4096);
    forall a | a in Live(st) && a / 4096 in st.owner && st.owner[a / 4096] == ObjectPages(r.ptr) ensures a == r.ptr {
      if a in SlabLive(st.caches) {
        var k :| 0 <= k < CACHES && a in LiveObjects(st.caches[k]);
        var s :| s in SlabsOf(st.caches[k]) && a in LiveIn(s, st.caches[k].layout);
        OwnerOfObject(st, k, s, a);
      } else {
        var q :| q in st.records && q.ptr == a;
        assert RecordOk(st.owner, q) && RecordPage(q, q.ptr / 4096);
      }
    }
  }

  /** An object of a slab that carries its header is freed by itself. */
  lemma FreedByItself(st: State, k: nat, s: Slab, q: nat)
    requires Good(st) && NoLeak(st) && k < ON_SLAB_CACHES && s in SlabsOf(st.caches[k])
             && q in LiveIn(s, st.caches[k].layout)
    ensures FreedWith(st, q) == {q}
    ensures GivesUp(st, q) == if s.used == 1 then {s.base} else {}
  {
    hide Good, GoodPages, SlabOk, LiveIn, Alone;
    AloneInSlab(st, k, s, q);
    assert forall h <- st.kept :: Needed(st.caches, st.records, h, st.kept[h]);
    assert FreedWith(st, q) == {q};
  }

  /** An object that is freed with another gives up what it does by itself. */
  lemma FreedWithIt(st: State, q: nat, h: nat)
    requires Alone(st, q) && FreedWith(st, q) == {q, h} && FreedWith(st, h) == {h}
    ensures GivesUp(st, q) == {RangeOf(st.owner[q / 4096])} + GivesUp(st, h)
  {
    hide Alone, FreedWith;
  }

  lemma RecordObject(st: State, h: nat) returns (s: Slab)
    requires Good(st) && h in st.kept
    ensures s in SlabsOf(st.caches[RECORD_CACHE]) && h in LiveIn(s, st.caches[RECORD_CACHE].layout)
  {
    assert h in LiveObjects(st.caches[RECORD_CACHE]);
    s :| s in SlabsOf(st.caches[RECORD_CACHE]) && h in LiveIn(s, st.caches[RECORD_CACHE].layout);
  }

  /** Freeing the last object of a slab with its header elsewhere gives up the slab and what that header does. */
  lemma GivesUpOffSlab(st: State, k: nat, s: Slab, q: nat)
    requires Good(st) && NoLeak(st) && ON_SLAB_CACHES <= k < CACHES && s in SlabsOf(st.caches[k])
             && q in LiveIn(s, st.caches[k].layout)
    ensures s.addr in st.kept
    ensures GivesUp(st, q) == if s.used == 1 then {s.base} + GivesUp(st, s.addr) else {}
  {
    hide GoodPages, SlabOk, LiveIn, Alone, CacheOk, LiveObjects, UniqueRecords;
    AloneInSlab(st, k, s, q);
    assert s.addr in st.kept && st.kept[s.addr] == HeaderOf(k, s.base);
    if s.used == 1 {
      var r := RecordObject(st, s.addr);
      FreedByItself(st, RECORD_CACHE, r, s.addr);
      forall h | h in st.kept && KeptFor(st.kept[h], SlabPages(k, s.base)) ensures h == s.addr {
        assert Needed(st.caches, st.records, h, st.kept[h]);
        var t :| t in SlabsOf(st.caches[k]) && t.base == s.base && t.addr == h;
        assert CacheOk(st.caches[k], k) by { CacheIsOk(st, k); }
        SameBaseSameSlab(st.caches[k], k, s, t);
      }
      assert FreedWith(st, q) == {q, s.addr};
      FreedWithIt(st, q, s.addr);
    }
  }

  /** What freeing an object gives up. */
  lemma ObjectGivesUp(st: State, k: nat, s: Slab, q: nat)
    requires Good(st) && NoLeak(st) && k < CACHES && s in SlabsOf(st.caches[k]) && q in LiveIn(s, st.caches[k].layout)
    ensures q / 4096 in st.owner && RangeOf(st.owner[q / 4096]) == s.base && s.used > 0
    ensures Alone(st, q) <==> s.used == 1
    ensures GivesUp(st, q) == if s.used != 1 then {}
                              else {s.base} + if k < ON_SLAB_CACHES then {} else GivesUp(st, s.addr)
  {
    hide Good, NoLeak, LiveIn, GivesUp, Alone;
    AloneInSlab(st, k, s, q);
    if k < ON_SLAB_CACHES {
      FreedByItself(st, k, s, q);
    } else {
      GivesUpOffSlab(st, k, s, q);
    }
  }

  /** Freeing a page allocation gives up its pages and what its record does. */
  lemma PagesGiveUp(st: State, r: PageRecord)
    requires Good(st) && NoLeak(st) && r in st.records
    ensures r.addr in st.kept
    ensures Alone(st, r.ptr) && r.ptr / 4096 in st.owner && RangeOf(st.owner[r.ptr / 4096]) == r.ptr
    ensures GivesUp(st, r.ptr) == {r.ptr} + GivesUp(st, r.addr)
  {
    hide GoodPages, SlabOk, LiveIn, Alone, CacheOk, LiveObjects, UniqueRecords;
    AloneOnPages(st, r);
    AloneIsOwned(st, r.ptr);
    assert r.addr in st.kept && st.kept[r.addr] == RecordOf(r.ptr);
    var s := RecordObject(st, r.addr);
    FreedByItself(st, RECORD_CACHE, s, r.addr);
    forall h | h in st.kept && KeptFor(st.kept[h], ObjectPages(r.ptr)) ensures h == r.addr {
      assert Needed(st.caches, st.records, h, st.kept[h]);
      var q :| q in st.records && q.ptr == r.ptr && q.addr == h;
      SamePointerSameRecord(st, r, q);
    }
    assert FreedWith(st, r.ptr) == {r.ptr, r.addr};
    FreedWithIt(st, r.ptr, r.addr);
  }

  // ----- what that means for each kind of pointer

  /** The range that the last object of a slab gives up is the slab's. */
  lemma LastOfSlab(st: State, mapped: map<nat, seq<nat>>, limit: nat, k: nat, s: Slab, q: nat)
    requires Good(st) && NoLeak(st) && Backed(st.owner, mapped, limit) && k < CACHES && s in SlabsOf(st.caches[k])
             && q in LiveIn(s, st.caches[k].layout)
    ensures s.base in mapped && |mapped[s.base]| == PagesPerSlab(k) && forall f <- mapped[s.base] :: f < limit
    ensures FreeingOf(st, q, mapped, limit) == if s.used == 1 then Verdict(mapped[s.base], limit) else Freed
    ensures LostWith(st, q, mapped, limit) == if s.used == 1 then LostFrom(mapped[s.base]) else {}
  {
    hide Good, NoLeak, LiveIn, Alone, Verdict, LostFrom;
    AloneInSlab(st, k, s, q);
    SlabIsMapped(st, mapped, limit, k, s);
    CacheIsOk(st, k);
  }

  /** Objects of up to 1024 bytes always go back, and no frame is lost with them. */
  lemma SmallObjectGoesBack(st: State, mapped: map<nat, seq<nat>>, limit: nat, k: nat, q: nat)
    requires Good(st) && NoLeak(st) && Backed(st.owner, mapped, limit) && k < CACHES - 1
             && q in LiveObjects(st.caches[k])
    ensures FreeingOf(st, q, mapped, limit) == Freed && LostWith(st, q, mapped, limit) == {}
  {
    hide Good, NoLeak, LiveIn, FreeingOf, LostWith, Backed, Verdict, LostFrom;
    CacheIsOk(st, k);
    var s :| s in SlabsOf(st.caches[k]) && q in LiveIn(s, st.caches[k].layout);
    LastOfSlab(st, mapped, limit, k, s, q);
    assert mapped[s.base][0] in mapped[s.base];
    OnePageGoesBack(mapped[s.base], limit);
  }

  /** Objects of 2048 bytes: the last one of a slab goes back as the slab's two frames lie. */
  lemma LargeObjectGoesBack(st: State, mapped: map<nat, seq<nat>>, limit: nat, s: Slab, q: nat)
    requires Good(st) && NoLeak(st) && Backed(st.owner, mapped, limit)
    requires s in SlabsOf(st.caches[CACHES - 1]) && q in LiveIn(s, st.caches[CACHES - 1].layout)
    ensures s.base in mapped && |mapped[s.base]| == 2
    ensures var f, g := mapped[s.base][0], mapped[s.base][1];
            && FreeingOf(st, q, mapped, limit) ==
               (if s.used == 1 && g == f + 1 && f % 2 == 1 then NotABlock else Freed)
            && LostWith(st, q, mapped, limit) == (if s.used == 1 && g != f + 1 then {g} else {})
  {
    hide Good, NoLeak, LiveIn, FreeingOf, LostWith, Backed, Verdict, LostFrom;
    LastOfSlab(st, mapped, limit, CACHES - 1, s, q);
    var frames := mapped[s.base];
    assert frames == [frames[0], frames[1]] && frames[0] in frames && frames[1] in frames;
    TwoPagesGoBack(frames[0], frames[1], limit);
  }

  /** A page allocation goes back well exactly if its frames are cut into blocks, and completely if they are one. */
  lemma PagesGoBack(st: State, mapped: map<nat, seq<nat>>, limit: nat, r: PageRecord)
    requires Good(st) && NoLeak(st) && Backed(st.owner, mapped, limit) && r in st.records
    ensures r.ptr in mapped && |mapped[r.ptr]| == r.pages > 0
    ensures FreeingOf(st, r.ptr, mapped, limit) == Freed <==> AllBlocks(RunsOf(mapped[r.ptr]), limit)
    ensures FreeingOf(st, r.ptr, mapped, limit) == Freed && LostWith(st, r.ptr, mapped, limit) == {} <==>
            SingleRun(mapped[r.ptr]) && IsBlock(FrameRun(mapped[r.ptr][0], r.pages), limit)
  {
    hide Good, NoLeak, SingleRun, IsBlock, JudgeAll, AllBlocks, RunsOf, Dropped;
    RecordIsMapped(st, mapped, limit, r);
    AloneOnPages(st, r);
    FreedMeansBlocks(RunsOf(mapped[r.ptr]), limit);
    RightForOneBlockOnly(mapped[r.ptr], limit);
    assert LostFrom(mapped[r.ptr]) == {} <==> Dropped(mapped[r.ptr]) == [] by {
      NothingIn(Dropped(mapped[r.ptr]));
    }
  }

  lemma NothingIn(list: seq<nat>)
    ensures FrameSet(list) == {} <==> list == []
  {
    assert list != [] ==> list[0] in FrameSet(list);
  }

  /** An object kept for a slab or page record gives up the same while its cache stays as it is. */
  lemma SameGivesUp(st: State, u: State, h: nat)
    requires Good(st) && NoLeak(st) && Good(u) && NoLeak(u) && u.caches[RECORD_CACHE] == st.caches[RECORD_CACHE]
    requires h in LiveObjects(st.caches[RECORD_CACHE])
    ensures GivesUp(u, h) == GivesUp(st, h)
  {
    hide Good, NoLeak, LiveIn, GivesUp;
    CacheIsOk(st, RECORD_CACHE);
    var c := st.caches[RECORD_CACHE];
    var s :| s in SlabsOf(c) && h in LiveIn(s, c.layout);
    FreedByItself(st, RECORD_CACHE, s, h);
    FreedByItself(u, RECORD_CACHE, s, h);
  }

  /** The frames lost when these ranges are given up. */
  ghost function LostFromAll(mapped: map<nat, seq<nat>>, ranges: set<nat>): set<nat> {
    set b, f | b in ranges && b in mapped && f in LostFrom(mapped[b]) :: f
  }

  /** Freeing p ends well exactly when every range it gives up is cut into blocks, and loses what those scans drop. */
  lemma FreedExactlyAsRangesGoBack(st: State, mapped: map<nat, seq<nat>>, limit: nat, p: nat)
    requires Good(st) && NoLeak(st) && Backed(st.owner, mapped, limit)
    ensures GivesUp(st, p) <= mapped.Keys
    ensures FreeingOf(st, p, mapped, limit) == Freed <==>
            forall b <- GivesUp(st, p) :: AllBlocks(RunsOf(mapped[b]), limit)
    ensures LostWith(st, p, mapped, limit) == LostFromAll(mapped, GivesUp(st, p))
  {
    hide Good, NoLeak, Alone, LostFrom, AllBlocks, RunsOf, JudgeAll;
    forall q | q in FreedWith(st, p) && Alone(st, q)
      ensures q / 4096 in st.owner && RangeOf(st.owner[q / 4096]) in mapped
              && var frames := mapped[RangeOf(st.owner[q / 4096])];
              (Verdict(frames, limit) == Freed <==> AllBlocks(RunsOf(frames), limit))
              && (q == p || (Verdict(frames, limit) == Freed && LostFrom(frames) == {}))
    {
      AloneIsOwned(st, q);
      FreedMeansBlocks(RunsOf(mapped[RangeOf(st.owner[q / 4096])]), limit);
      if q != p {
        var s := RecordObject(st, q);
        SmallObjectGoesBack(st, mapped, limit, RECORD_CACHE, q);
      }
    }
    if Alone(st, p) {
      AloneIsOwned(st, p);
      assert RangeOf(st.owner[p / 4096]) in GivesUp(st, p);
    }
  }

  lemma AloneIsOwned(st: State, q: nat)
    requires Alone(st, q)
    ensures q / 4096 in st.owner
  {
  }
}
