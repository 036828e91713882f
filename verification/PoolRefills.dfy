/**
 What alloc_pages(1) takes from the entry pool while it refills it.  Every split of a block takes an entry.
 The mapping may have to refill the pool of table pages as well, which allocates ten more frames and takes
 an entry for each of their pages.
 */
module PoolRefills {
  import opened Blocks
  import opened EntryPool
  import opened FrameAllocator
  import opened PageTables
  import opened FreeLists

  // ----- the pool of table pages

  /** The counter after a page is taken; a refill raises it, and mapping its pages takes `inner` pages meanwhile. */
  function CountAfter(count: nat, inner: nat): int {
    if count <= PAGE_POOL_THRESHOLD then count + PAGE_POOL_THRESHOLD - inner - 1 else count - 1
  }

  /** The page tables and page directories over a run of pages. */
  function TablesOver(first: nat, pages: nat): nat
    requires pages > 0
  {
    var last := first + pages - 1;
    (last / 512 - first / 512 + 1) + (last / 512 / 512 - first / 512 / 512 + 1)
  }

  lemma FewTables(first: nat, pages: nat)
    requires 0 < pages <= PAGE_POOL_THRESHOLD
    ensures TablesOver(first, pages) <= if pages == 1 then 2 else 4
  {
  }

  /**
   With the threshold reached or passed before, it is again, and whatever a refill takes for the mapping of
   its own pages starts no other refill; nor does the next page that is taken.  So mapping one page, which
   needs two tables at most, refills the pool once at most.
   */
  lemma OneRefillAtMost(count: nat, first: nat, inner: nat, taken: nat)
    requires count >= PAGE_POOL_THRESHOLD && inner <= TablesOver(first, PAGE_POOL_THRESHOLD)
    ensures CountAfter(count, inner) >= PAGE_POOL_THRESHOLD
    ensures count <= PAGE_POOL_THRESHOLD ==> CountAfter(count, inner) > PAGE_POOL_THRESHOLD
    ensures count <= PAGE_POOL_THRESHOLD && taken < inner ==>
              count + PAGE_POOL_THRESHOLD - taken > PAGE_POOL_THRESHOLD
  {
    FewTables(first, PAGE_POOL_THRESHOLD);
  }

  // ----- entries that a refill of the entry pool takes

  /**
   The frames of a refill that refills the page pool too: one, and then ten.  They cost at most seven splits
   together, so that the spare entries of the threshold serve these and an entry for each of the ten pages,
   whatever is given back in between.
   */
  method FramesForRefill(frames: FrameAllocator) returns (one: FrameResult, ten: FrameResult, ghost splits: nat)
    requires frames.Valid()
    modifies frames.lists, frames.buddies.words
    ensures one.Frames? && one.blocks != [] && ten.Frames? && ten.blocks != [] ==> splits <= TOP_ORDER
    ensures one.Frames? && one.blocks != [] && ten.Frames? && ten.blocks != [] ==>
              forall calls :: Gets(calls) <= splits + PAGE_POOL_THRESHOLD ==>
                Gets(calls) <= SPARE && Served(calls, SPARE)
  {
    hide Splits, LeftBy, TakenFrom;
    ghost var l: ByOrder := frames.lists[..];
    one, splits := frames.AllocFrames(1);
    ten := one;
    if one.Frames? && one.blocks != [] {
      ghost var more;
      ten, more := frames.AllocFrames(PAGE_POOL_THRESHOLD);
      splits := splits + more;
      OneThenTen(l);
      forall calls | Gets(calls) <= splits + PAGE_POOL_THRESHOLD && splits <= TOP_ORDER
        ensures Served(calls, SPARE)
      {
        FewGetsServed(calls, SPARE);
      }
    }
  }

  /** The frame of a refill that does not: at most seven splits, which the spare entries serve as well. */
  method FrameForRefill(frames: FrameAllocator) returns (r: FrameResult, ghost splits: nat)
    requires frames.Valid()
    modifies frames.lists, frames.buddies.words
    ensures r.Frames? && r.blocks != [] ==> splits <= TOP_ORDER
    ensures r.Frames? && r.blocks != [] ==>
              forall calls :: Gets(calls) <= splits ==> Gets(calls) <= SPARE && Served(calls, SPARE)
  {
    hide Splits, LeftBy, TakenFrom;
    ghost var l: ByOrder := frames.lists[..];
    r, splits := frames.AllocFrames(1);
    if r.Frames? && r.blocks != [] {
      OneThenTen(l);
      forall calls | Gets(calls) <= splits && splits <= TOP_ORDER ensures Served(calls, SPARE) {
        FewGetsServed(calls, SPARE);
      }
    }
  }
}
