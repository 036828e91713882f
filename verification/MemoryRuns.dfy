/**
 Runs of the kernel's page allocator.  With a virtual range allocator that subtracts when it carves, the
 invariant holds along every run of requests, so that live results never share a page or a frame; with
 the addition of the source it holds until a request is carved off a larger range.
 */
module MemoryRuns {
  import opened Blocks
  import opened FreeSets
  import opened FrameAllocator
  import opened Intervals
  import opened Lists
  import opened PageTables
  import opened AddressSpace
  import opened VirtualRanges
  import opened FrameScan
  import opened Holdings
  import opened Memory

  datatype Request = GetPages(pages: nat, flags: Flags) | GetWhole(pages: nat, flags: Flags) | GiveBack(which: nat)

  /** A live result as its owner knows it: of alloc_pages, or of alloc_pages_contiguous. */
  datatype Loan = Scattered(virt: nat, pages: nat) | Whole(virt: nat, pages: nat)

  datatype Outcome = Served | Declined | Stopped

  ghost predicate Distinct(loans: seq<Loan>) {
    forall i, j :: 0 <= i < j < |loans| ==> loans[i].virt != loans[j].virt
  }

  /** What the record of the memory says about a loan; `starts` has the first frame of every whole block. */
  ghost predicate Known(loan: Loan, held: map<nat, Holding>, starts: map<nat, nat>, limit: nat) {
    && loan.virt in held && |held[loan.virt].list| == loan.pages
    && match loan
       case Scattered(virt, pages) => held[virt].kept == FrameSet(held[virt].list)
       case Whole(virt, pages) =>
         && 0 < pages && MinSizeOrder(pages) < FRAME_ORDERS && virt in starts
         && WellFormed(Block(MinSizeOrder(pages), starts[virt]), limit)
         && held[virt] == Holding(Consecutive(starts[virt], pages), PagesOf(Block(MinSizeOrder(pages), starts[virt])))
  }

  ghost predicate AllKnown(loans: seq<Loan>, held: map<nat, Holding>, starts: map<nat, nat>, limit: nat) {
    Distinct(loans) && forall loan <- loans :: Known(loan, held, starts, limit)
  }

  lemma OneLoanMore(loans: seq<Loan>, held: map<nat, Holding>, starts: map<nat, nat>, limit: nat,
                    loan: Loan, h: Holding, start: nat)
    requires AllKnown(loans, held, starts, limit) && loan.virt !in held
    requires Known(loan, held[loan.virt := h], starts[loan.virt := start], limit)
    ensures AllKnown(loans + [loan], held[loan.virt := h], starts[loan.virt := start], limit)
  {
    forall i | 0 <= i < |loans|
      ensures loans[i].virt != loan.virt && Known(loans[i], held[loan.virt := h], starts[loan.virt := start], limit)
    {
      assert Known(loans[i], held, starts, limit);
    }
  }

  lemma OneLoanLess(loans: seq<Loan>, held: map<nat, Holding>, starts: map<nat, nat>, limit: nat, i: nat)
    requires AllKnown(loans, held, starts, limit) && i < |loans|
    ensures AllKnown(Without(loans, i), held - {loans[i].virt}, starts, limit)
  {
    var rest := Without(loans, i);
    forall j | 0 <= j < |rest|
      ensures rest[j] == loans[if j < i then j else j + 1] && Known(rest[j], held - {loans[i].virt}, starts, limit)
    {
      assert Known(loans[if j < i then j else j + 1], held, starts, limit);
    }
  }

  class Client {
    const memory: Memory
    var loans: seq<Loan>
    ghost var starts: map<nat, nat>

    constructor (memory: Memory)
      requires memory.Valid()
      ensures Valid() && this.memory == memory && loans == []
    {
      this.memory, loans, starts := memory, [], map[];
    }

    ghost predicate Valid()
      reads this, memory, memory.frames.lists, memory.frames.buddies.words
      reads memory.space, memory.space.mem, memory.ranges
    {
      memory.Valid() && AllKnown(loans, memory.held, starts, memory.frames.limit)
    }

    predicate Allowed(request: Request) {
      request.GetWhole? ==> 0 < request.pages && MinSizeOrder(request.pages) < FRAME_ORDERS
    }

    /** The request is not served by carving with an addition. */
    predicate Fair(request: Request)
      reads memory.ranges
    {
      match request
      case GetPages(pages, _) => memory.ranges.Fair(Wrapped(pages))
      case GetWhole(pages, _) => memory.ranges.Fair(pages)
      case GiveBack(_) => true
    }

    /** Enough free frames and room to map them; or a loan whose frames go back as blocks. */
    ghost predicate WillBeServed(request: Request)
      requires Valid() && Allowed(request)
      reads this, memory, memory.frames.lists, memory.frames.buddies.words
      reads memory.space, memory.space.mem, memory.ranges
    {
      match request
      case GetPages(pages, _) => memory.CanServe(Wrapped(pages))
      case GetWhole(pages, _) =>
        && memory.frames.HasRun(MinSizeOrder(pages)) && !memory.frames.ContiguousFaults(MinSizeOrder(pages))
        && memory.HasRoom(pages)
      case GiveBack(i) => i < |loans| && ReturnsBlocks(loans[i])
    }

    ghost predicate ReturnsBlocks(loan: Loan)
      requires Valid() && loan in loans
      reads this, memory, memory.frames.lists, memory.frames.buddies.words
      reads memory.space, memory.space.mem, memory.ranges
    {
      assert Known(loan, memory.held, starts, memory.frames.limit);
      loan.Whole? || AllBlocks(RunsOf(memory.held[loan.virt].list), memory.frames.limit)
    }

    /** alloc_pages, alloc_pages_contiguous, free_pages or free_pages_contiguous for a client */
    method Serve(request: Request) returns (r: Outcome)
      requires Valid() && Allowed(request) && Fair(request)
      modifies this, memory, memory.frames.lists, memory.frames.buddies.words
      modifies memory.space, memory.space.mem, memory.ranges
      ensures r != Stopped ==> Valid()
      ensures old(WillBeServed(request)) ==> r == Served
      ensures request.GiveBack? && request.which < old(|loans|) ==> (r == Served <==> old(WillBeServed(request)))
      ensures r == Served ==>
                match request
                case GetPages(pages, _) =>
                  && |loans| == old(|loans|) + 1
                  && loans == old(loans) + [Scattered(loans[|loans| - 1].virt, Wrapped(pages))]
                case GetWhole(pages, _) =>
                  |loans| == old(|loans|) + 1 && loans == old(loans) + [Whole(loans[|loans| - 1].virt, pages)]
                case GiveBack(i) => i < old(|loans|) && loans == old(Without(loans, i))
      ensures r == Declined ==> loans == old(loans)
    {
      match request {
        case GetPages(pages, flags) => r := ServePages(pages, flags);
        case GetWhole(pages, flags) => r := ServeWhole(pages, flags);
        case GiveBack(i) =>
          if i >= |loans| {
            return Declined;
          }
          r := ServeGiveBack(i);
      }
    }

    method ServePages(pages: nat, flags: Flags) returns (r: Outcome)
      requires Valid() && memory.ranges.Fair(Wrapped(pages))
      modifies this, memory, memory.frames.lists, memory.frames.buddies.words
      modifies memory.space, memory.space.mem, memory.ranges
      ensures r != Stopped ==> Valid()
      ensures old(WillBeServed(GetPages(pages, flags))) ==> r == Served
      ensures r == Served ==>
                && |loans| == old(|loans|) + 1
                && loans == old(loans) + [Scattered(loans[|loans| - 1].virt, Wrapped(pages))]
      ensures r == Declined ==> loans == old(loans)
    {
      hide GoodTree, GoodStock, AllGood, SameOutside, AllHeld, TablesApart, TablesIn, Partitioned, LivePages, FirstFit,
           Canonical, NoBuddies, FrameSet, MinSizeOrder, AllKnown, Leaf, PtAt, PdAt, Find, Carves, FreeSets.Disjoint,
           AllWellFormed, MapsList, Wrapped, Memory.HasRoom, Memory.CanServe, Memory.MapsNewly, FrameAllocator.HasRun,
           FrameAllocator.ContiguousFaults, FrameAllocator.FreePages, VirtualRanges.Fair;
      var a, list := memory.AllocPages(pages, flags);
      match a {
        case Stop => r := Stopped;
        case Null => r := Declined;
        case At(virt) =>
          var loan := Scattered(virt, Wrapped(pages));
          OneLoanMore(loans, old(memory.held), starts, memory.frames.limit, loan, Holding(list, FrameSet(list)), 0);
          loans, starts, r := loans + [loan], starts[virt := 0], Served;
      }
    }

    method ServeWhole(pages: nat, flags: Flags) returns (r: Outcome)
      requires Valid() && 0 < pages && MinSizeOrder(pages) < FRAME_ORDERS && memory.ranges.Fair(pages)
      modifies this, memory, memory.frames.lists, memory.frames.buddies.words
      modifies memory.space, memory.space.mem, memory.ranges
      ensures r != Stopped ==> Valid()
      ensures old(WillBeServed(GetWhole(pages, flags))) ==> r == Served
      ensures r == Served ==>
                |loans| == old(|loans|) + 1 && loans == old(loans) + [Whole(loans[|loans| - 1].virt, pages)]
      ensures r == Declined ==> loans == old(loans)
    {
      hide GoodTree, GoodStock, AllGood, SameOutside, AllHeld, TablesApart, TablesIn, Partitioned, LivePages, FirstFit,
           Canonical, NoBuddies, FrameSet, MinSizeOrder, AllKnown, Leaf, PtAt, PdAt, Find, Carves, FreeSets.Disjoint,
           AllWellFormed, MapsList, Wrapped, Memory.HasRoom, Memory.CanServe, Memory.MapsNewly, FrameAllocator.HasRun,
           FrameAllocator.ContiguousFaults, FrameAllocator.FreePages, VirtualRanges.Fair;
      var a;
      ghost var addr;
      a, addr := memory.AllocPagesContiguous(pages, flags);
      match a {
        case Stop => r := Stopped;
        case Null => r := Declined;
        case At(virt) =>
          var loan := Whole(virt, pages);
          ghost var h := Holding(Consecutive(addr, pages), PagesOf(Block(MinSizeOrder(pages), addr)));
          OneLoanMore(loans, old(memory.held), starts, memory.frames.limit, loan, h, addr);
          loans, starts, r := loans + [loan], starts[virt := addr], Served;
      }
    }

    method ServeGiveBack(i: nat) returns (r: Outcome)
      requires Valid() && i < |loans|
      modifies this, memory, memory.frames.lists, memory.frames.buddies.words
      modifies memory.space, memory.space.mem, memory.ranges
      ensures r != Declined && (r == Served ==> Valid() && loans == old(Without(loans, i)))
      ensures r == Served <==> old(ReturnsBlocks(loans[i]))
    {
      hide GoodTree, GoodStock, AllHeld, TablesApart, TablesIn, Partitioned, LivePages, Canonical, NoBuddies, JudgeAll,
           AllBlocks, RunsOf, FrameSet, MinSizeOrder;
      var loan := loans[i];
      assert Known(loan, memory.held, starts, memory.frames.limit);
      OneLoanLess(loans, memory.held, starts, memory.frames.limit, i);
      r := Served;
      match loan {
        case Scattered(virt, pages) =>
          FreedMeansBlocks(RunsOf(memory.held[virt].list), memory.frames.limit);
          var freeing := memory.FreePages(virt, pages);
          if !freeing.Freed? {
            return Stopped;
          }
        case Whole(virt, pages) =>
          memory.FreePagesContiguous(virt, pages, starts[virt]);
      }
      loans := Without(loans, i);
    }

    ghost predicate OnLoan(v: nat)
      reads this
    {
      exists loan <- loans :: loan.virt <= v < loan.virt + loan.pages
    }

    /** Different pages of all loans together are mapped, to different frames. */
    ghost predicate NothingShared()
      requires memory.space.Valid()
      reads this, memory, memory.space, memory.space.mem
    {
      forall v: nat, w: nat :: OnLoan(v) && OnLoan(w) && v != w ==>
        memory.space.View(v).Some? && memory.space.View(w).Some?
        && memory.space.View(v).value.frame != memory.space.View(w).value.frame
    }

    lemma ValidSharesNothing()
      requires Valid()
      ensures NothingShared()
    {
      forall v: nat, w: nat | OnLoan(v) && OnLoan(w) && v != w
        ensures memory.space.View(v).Some? && memory.space.View(w).Some?
        ensures memory.space.View(v).value.frame != memory.space.View(w).value.frame
      {
        PairSharesNothing(v, w);
      }
    }

    lemma PairSharesNothing(v: nat, w: nat)
      requires Valid() && OnLoan(v) && OnLoan(w) && v != w
      ensures memory.space.View(v).Some? && memory.space.View(w).Some?
      ensures memory.space.View(v).value.frame != memory.space.View(w).value.frame
    {
      hide GoodTree, GoodStock, AllHeld, Leaf;
      var one :| one in loans && one.virt <= v < one.virt + one.pages;
      var two :| two in loans && two.virt <= w < two.virt + two.pages;
      assert Known(one, memory.held, starts, memory.frames.limit);
      assert Known(two, memory.held, starts, memory.frames.limit);
      LiveTranslationIsInjective(memory.space.State(), memory.space.slot, memory.ranges.Live(),
                                 memory.frames.FreePages(), memory.held, one.virt, two.virt, v, w);
    }

    /**
     Every run of the corrected allocator, until it stops if it does: the invariant holds and live results
     share nothing.
     */
    method ServeAll(requests: seq<Request>) returns (stopped: bool)
      requires Valid() && memory.ranges.subtracts && forall request <- requests :: Allowed(request)
      modifies this, memory, memory.frames.lists, memory.frames.buddies.words
      modifies memory.space, memory.space.mem, memory.ranges
      ensures !stopped ==> Valid() && NothingShared()
    {
      for i := 0 to |requests|
        invariant Valid()
      {
        assert requests[i] in requests;
        var r := Serve(requests[i]);
        if r == Stopped {
          return true;
        }
      }
      ValidSharesNothing();
      stopped := false;
    }

    /** The allocator as written: the same as long as no request is carved off a larger range. */
    method ServeUntilCarved(requests: seq<Request>) returns (served: nat, stopped: bool)
      requires Valid() && forall request <- requests :: Allowed(request)
      modifies this, memory, memory.frames.lists, memory.frames.buddies.words
      modifies memory.space, memory.space.mem, memory.ranges
      ensures served <= |requests| && (!stopped ==> Valid() && NothingShared())
      ensures !stopped && served < |requests| ==> !Fair(requests[served])
    {
      served := 0;
      while served < |requests| && Fair(requests[served])
        invariant served <= |requests| && Valid()
      {
        assert requests[served] in requests;
        var r := Serve(requests[served]);
        if r == Stopped {
          return served, true;
        }
        served := served + 1;
      }
      ValidSharesNothing();
      stopped := false;
    }
  }

  /**
   Memory of the kernel to start from: addresses of which the boot code has used some, an empty tree with
   pages in stock for tables, and a frame allocator from which the frames of that stock are removed.
   */
  method KernelMemory(tops: nat, junk: bool, canDisableExecution: bool, pages: nat, stock: seq<Mapping>,
                      booted: nat, subtracts: bool) returns (memory: Memory)
    requires 0 < tops && 0 < pages && booted <= SLOT_PAGES
    requires forall m <- stock :: 0 < m.page < pages && 0 < m.frame < PAGES_IN_64_BITS - 1
    requires forall i, j :: 0 <= i < j < |stock| ==> stock[i].page != stock[j].page && stock[i].frame != stock[j].frame
    ensures memory.Valid() && memory.space.slot == KERNEL_SLOT && memory.space.isKernel && memory.held == map[]
    ensures memory.frames.FreePages() == Range(0, memory.frames.limit) - FramesOfTables(stock)
    ensures memory.ranges.subtracts == subtracts && memory.ranges.Live() == Range(memory.ranges.start, booted)
    ensures memory.space.stock == stock && fresh(memory)
    ensures fresh(memory.frames.lists) && fresh(memory.frames.buddies.words)
    ensures fresh(memory.space) && fresh(memory.space.mem) && fresh(memory.ranges)
  {
    var frames := new FrameAllocator(tops, junk);
    for i := 0 to |stock|
      invariant frames.Valid() && fresh(frames.lists) && fresh(frames.buddies.words)
      invariant frames.FreePages() == Range(0, frames.limit) - FramesOfTables(stock[..i])
    {
      ghost var before := frames.FreePages();
      var ok;
      ghost var done;
      ok, done := frames.RemoveRange(stock[i].frame, 1);
      OneFrameLess(before, stock, i, done, frames.FreePages());
    }
    assert stock[..|stock|] == stock;
    var space := new AddressSpace.Kernel(canDisableExecution, pages, stock);
    var ranges := new VirtualRanges.Kernel(booted, subtracts);
    memory := new Memory(frames, space, ranges);
  }

  lemma OneFrameLess(before: set<nat>, stock: seq<Mapping>, i: nat, done: nat, after: set<nat>)
    requires i < |stock| && done <= 1 && (Range(stock[i].frame, 1) <= before <==> done == 1)
    requires after == before - Range(stock[i].frame, done)
    ensures forall total: set<nat> :: before == total - FramesOfTables(stock[..i]) ==>
                                      after == total - FramesOfTables(stock[..i + 1])
  {
    var f := stock[i].frame;
    assert stock[..i + 1] == stock[..i] + [stock[i]];
    assert FramesOfTables(stock[..i + 1]) == FramesOfTables(stock[..i]) + {f};
    assert Range(f, 1) == {f} by {
      assert InRun(f, 1, f);
    }
    assert Range(f, 0) == {};
  }
}
