/**
 Runs of the frame allocator: arbitrary sequences of requests, the conservation of pages along them,
 and the operations that undo each other.  All of it rests on the canonical form of the free lists.
 */
module FrameRuns {
  import opened Blocks
  import opened FreeSets
  import opened FrameAllocator
  import opened Intervals
  import opened Lists
  import FreeLists

  // ----- the free lists depend only on the free pages

  /** Two allocators with the same free pages agree on every free list, as a set, and on every buddy bit. */
  lemma HistoryDoesNotMatter(a: FrameAllocator, b: FrameAllocator)
    requires a.Valid() && b.Valid() && a.limit == b.limit && a.FreePages() == b.FreePages()
    ensures forall k :: 0 <= k < FRAME_ORDERS ==> multiset(a.lists[k]) == multiset(b.lists[k])
    ensures a.buddies.Bits() == b.buddies.Bits()
  {
    CanonicalForm(a.Free(), b.Free(), a.limit);
    forall k | 0 <= k < FRAME_ORDERS ensures multiset(a.lists[k]) == multiset(b.lists[k]) {
      forall x: nat ensures x in a.lists[k] <==> x in b.lists[k] {
        InLists(a.lists[..], Block(k, x));
        InLists(b.lists[..], Block(k, x));
      }
      SameElements(a.lists[k], b.lists[k]);
    }
  }

  lemma {:induction false} SameElements(one: seq<nat>, two: seq<nat>)
    requires NoRepeats(one) && NoRepeats(two) && forall x :: x in one <==> x in two
    ensures multiset(one) == multiset(two)
  {
    forall x: nat ensures multiset(one)[x] == multiset(two)[x] {
      Multiplicity(one, x);
      Multiplicity(two, x);
    }
  }

  lemma {:induction false} Multiplicity(list: seq<nat>, x: nat)
    requires NoRepeats(list)
    ensures multiset(list)[x] == if x in list then 1 else 0
  {
    if list != [] {
      Multiplicity(list[1..], x);
      assert list == [list[0]] + list[1..];
    }
  }

  // ----- operations that undo each other

  /** Giving back exactly the pages that were taken restores the free blocks. */
  lemma Restored(now: set<Block>, was: set<Block>, limit: nat, taken: set<nat>)
    requires Canonical(now, limit) && Canonical(was, limit) && taken <= Pages(was)
    requires Pages(now) == Pages(was) - taken + taken
    ensures now == was
  {
    assert Pages(was) - taken + taken == Pages(was);
    CanonicalForm(now, was, limit);
  }

  /** free_frames(alloc_frames(n)) undoes every split: each free list has its old entries again. */
  method AllocThenFree(frames: FrameAllocator, pages: nat) returns (fault: bool)
    requires frames.Valid()
    modifies frames.lists, frames.buddies.words
    ensures fault <==> frames.junkPastTable && WholeTops(Wrapped(pages)) > old(|frames.lists[TOP_ORDER]|)
    ensures !fault ==> frames.Valid() && frames.Free() == old(frames.Free())
  {
    var r;
    ghost var splits;
    r, splits := frames.AllocFrames(pages);
    if r.FrameFault? {
      return true;
    }
    if r.blocks != [] {
      frames.FreeFrames(r.blocks);
      Restored(frames.Free(), old(frames.Free()), frames.limit, AllocatedPages(r.blocks));
    }
    fault := false;
  }

  /** free_frames_contiguos with the same page count undoes alloc_frames_contiguos exactly. */
  method AllocThenFreeContiguous(frames: FrameAllocator, pages: nat) returns (fault: bool)
    requires frames.Valid() && 0 < pages && MinSizeOrder(pages) < FRAME_ORDERS
    modifies frames.lists, frames.buddies.words
    ensures fault <==> old(frames.ContiguousFaults(MinSizeOrder(pages)))
    ensures !fault ==> frames.Valid() && frames.Free() == old(frames.Free())
  {
    var r := frames.AllocContiguous(pages);
    if r.RunFault? {
      return true;
    }
    if r.RunAt? {
      frames.FreeContiguous(r.addr, pages);
      CanonicalForm(frames.Free(), old(frames.Free()), frames.limit);
    }
    fault := false;
  }

  /** Removing a free range and releasing it again, in whatever blocks, restores every free list. */
  method RemoveThenRelease(frames: FrameAllocator, start: nat, pages: nat) returns (ok: bool)
    requires frames.Valid() && start + pages < PAGES_IN_64_BITS
    modifies frames.lists, frames.buddies.words
    ensures ok <==> Range(start, pages) <= old(frames.FreePages())
    ensures frames.Valid() && (ok ==> frames.Free() == old(frames.Free()))
  {
    ghost var done;
    RangeIsManaged(frames, start, pages);
    ok, done := frames.RemoveRange(start, pages);
    if ok {
      frames.ReleaseRange(start, pages);
      CanonicalForm(frames.Free(), old(frames.Free()), frames.limit);
    }
  }

  lemma RangeIsManaged(frames: FrameAllocator, start: nat, pages: nat)
    requires frames.Valid()
    ensures Range(start, pages) <= frames.FreePages() && pages > 0 ==> start + pages <= frames.limit
  {
    if Range(start, pages) <= frames.FreePages() && pages > 0 {
      assert InRun(start, pages, start + pages - 1);
      frames.FreeBelowLimit(start + pages - 1);
    }
  }

  // ----- where the written allocator departs from its promises

  /** A page count means itself exactly when its byte count fits in 64 bits. */
  lemma WrappedIsExact(pages: nat)
    ensures Wrapped(pages) == pages <==> pages < PAGES_IN_64_BITS
  {
  }

  /** While all of memory is free, in top-order blocks, asking for a single page pops an empty list. */
  method SinglePageFaultsAtFirst(tops: nat, junk: bool) returns (r: RunResult)
    requires 0 < tops
    ensures r.RunFault?
  {
    var frames := new FrameAllocator(tops, junk);
    r := frames.AllocContiguous(1);
  }

  /** With no top-order block free, a request for as many pages as one has reads past the table, either way. */
  method TopRequestReadsPastTable(frames: FrameAllocator, contiguous: bool) returns (fault: bool)
    requires frames.Valid() && frames.lists[TOP_ORDER] == []
    modifies frames.lists, frames.buddies.words
    ensures fault <==> frames.junkPastTable
  {
    TopSize();
    BlockSizeOrder(TOP_ORDER);
    if contiguous {
      var r := frames.AllocContiguous(TOP_PAGES);
      fault := r.RunFault?;
    } else {
      var r;
      ghost var splits;
      r, splits := frames.AllocFrames(TOP_PAGES);
      fault := r.FrameFault?;
    }
  }

  // ----- any sequence of requests

  datatype Request = Get(pages: nat) | GetRun(pages: nat) | Remove(start: nat, pages: nat) | Return(which: nat)

  /** What a client holds: a chain from alloc_frames, a run with the page count asked for, or a removed range. */
  datatype Grant = Chain(blocks: seq<Block>) | Run(addr: nat, pages: nat) | Removed(start: nat, pages: nat)

  ghost predicate Sound(h: Grant, limit: nat) {
    match h
    case Chain(blocks) => Separate(blocks, limit)
    case Run(addr, pages) =>
      0 < pages && MinSizeOrder(pages) < FRAME_ORDERS && WellFormed(Block(MinSizeOrder(pages), addr), limit)
    case Removed(start, pages) => 0 < pages && start + pages <= limit && start + pages < PAGES_IN_64_BITS
  }

  ghost function HeldBy(h: Grant): set<nat>
    requires h.Run? ==> h.pages > 0
  {
    match h
    case Chain(blocks) => AllocatedPages(blocks)
    case Run(addr, pages) => PagesOf(Block(MinSizeOrder(pages), addr))
    case Removed(start, pages) => Range(start, pages)
  }

  ghost predicate HeldIn(held: seq<Grant>, limit: nat, p: nat) {
    exists h <- held :: Sound(h, limit) && p in HeldBy(h)
  }

  /** Every page of `total` is free or held by exactly one holding, and by nothing else. */
  ghost predicate Conserved(free: set<nat>, held: seq<Grant>, total: set<nat>, limit: nat) {
    && (forall i :: 0 <= i < |held| ==> Sound(held[i], limit))
    && (forall i :: 0 <= i < |held| ==> HeldBy(held[i]) <= total - free)
    && (forall i, j :: 0 <= i < j < |held| ==> HeldBy(held[i]) !! HeldBy(held[j]))
    && free <= total
    && (forall p <- total - free :: HeldIn(held, limit, p))
  }

  lemma GrantMore(free: set<nat>, held: seq<Grant>, total: set<nat>, limit: nat, h: Grant)
    requires Conserved(free, held, total, limit) && Sound(h, limit) && HeldBy(h) <= free
    ensures Conserved(free - HeldBy(h), held + [h], total, limit)
  {
    forall p | p in total - (free - HeldBy(h)) ensures HeldIn(held + [h], limit, p) {
      if p in free {
        assert h in held + [h];
      } else {
        assert HeldIn(held, limit, p);
        var k :| k in held && Sound(k, limit) && p in HeldBy(k);
        assert k in held + [h];
      }
    }
  }

  lemma GrantLess(free: set<nat>, held: seq<Grant>, total: set<nat>, limit: nat, i: nat)
    requires Conserved(free, held, total, limit) && i < |held|
    ensures Conserved(free + HeldBy(held[i]), Without(held, i), total, limit)
  {
    var rest := Without(held, i);
    forall j | 0 <= j < |rest|
      ensures rest[j] == held[if j < i then j else j + 1]
      ensures Sound(rest[j], limit) && HeldBy(rest[j]) <= total - (free + HeldBy(held[i]))
    {
    }
    forall p | p in total - (free + HeldBy(held[i])) ensures HeldIn(rest, limit, p) {
      assert HeldIn(held, limit, p);
      StillHeld(held, limit, i, p);
    }
  }

  lemma StillHeld(held: seq<Grant>, limit: nat, i: nat, p: nat)
    requires HeldIn(held, limit, p) && i < |held| && Sound(held[i], limit) && p !in HeldBy(held[i])
    ensures HeldIn(Without(held, i), limit, p)
  {
    var k :| k in held && Sound(k, limit) && p in HeldBy(k);
    var j :| 0 <= j < |held| && held[j] == k;
    LeftWithout(held, i, j);
  }

  lemma NotHeld(limit: nat, p: nat)
    ensures !HeldIn([], limit, p)
  {
  }

  lemma NothingHeld(free: set<nat>, total: set<nat>, limit: nat)
    requires Conserved(free, [], total, limit)
    ensures free == total
  {
    forall p | p in total ensures p in free {
      assert p in total - free ==> HeldIn([], limit, p);
      NotHeld(limit, p);
    }
  }

  /** Free pages that nobody can use any more count as gone. */
  lemma LoseSome(free: set<nat>, held: seq<Grant>, total: set<nat>, limit: nat, gone: set<nat>)
    requires Conserved(free, held, total, limit) && gone <= free
    ensures Conserved(free - gone, held, total - gone, limit)
  {
    assert total - gone - (free - gone) == total - free;
  }

  /** What a request that is granted adds to the holdings. */
  ghost predicate Granted(request: Request, had: seq<Grant>, has: seq<Grant>) {
    && |has| == |had| + 1 && has[..|had|] == had
    && match request
       case Get(pages) => has[|had|].Chain? && TotalPages(has[|had|].blocks) == Wrapped(pages)
       case GetRun(pages) => has[|had|].Run? && has[|had|].pages == pages
       case Remove(start, pages) => has[|had|] == Removed(start, pages)
       case Return(_) => false
  }

  /**
   A client of the allocator, serving any requests until one of them faults.  A removal that fails has
   taken the front of its range out of the free pages; nobody holds those, and `lost` collects them.
   */
  class Client {
    const frames: FrameAllocator
    var held: seq<Grant>
    ghost var lost: set<nat>

    constructor (frames: FrameAllocator)
      requires frames.Valid()
      ensures this.frames == frames && held == [] && lost == {}
    {
      this.frames := frames;
      held, lost := [], {};
    }

    ghost predicate Valid(total: set<nat>)
      reads this, frames.lists, frames.buddies.words
    {
      frames.Valid() && lost <= total && Conserved(frames.FreePages(), held, total - lost, frames.limit)
    }

    /** Requests that the source allows: a run is of at least one page and at most a top-order block. */
    predicate Allowed(request: Request) {
      && (request.GetRun? ==> 0 < request.pages && MinSizeOrder(request.pages) < FRAME_ORDERS)
      && (request.Remove? ==> request.start + request.pages < PAGES_IN_64_BITS)
    }

    ghost predicate Faults(request: Request)
      requires frames.Valid() && Allowed(request)
      reads frames.lists, frames.buddies.words
    {
      match request
      case Get(pages) => frames.junkPastTable && WholeTops(Wrapped(pages)) > |frames.lists[TOP_ORDER]|
      case GetRun(pages) => frames.ContiguousFaults(MinSizeOrder(pages))
      case Remove(_, _) => false
      case Return(_) => false
    }

    ghost predicate CanBeMet(request: Request)
      requires frames.Valid() && Allowed(request)
      reads frames.lists, frames.buddies.words
    {
      match request
      case Get(pages) => 0 < Wrapped(pages) <= |frames.FreePages()|
      case GetRun(pages) => frames.HasRun(MinSizeOrder(pages))
      case Remove(start, pages) => 0 < pages && Range(start, pages) <= frames.FreePages()
      case Return(_) => false
    }

    /** alloc_frames for a client */
    method ServeGet(pages: nat, ghost total: set<nat>) returns (fault: bool)
      requires Valid(total)
      modifies this, frames.lists, frames.buddies.words
      ensures fault <==> old(Faults(Get(pages)))
      ensures !fault ==> Valid(total) && lost == old(lost)
      ensures !fault ==> if old(CanBeMet(Get(pages))) then Granted(Get(pages), old(held), held)
                         else held == old(held) && frames.Free() == old(frames.Free())
    {
      hide FreeLists.Splits, FreeLists.LeftBy, FreeLists.TakenFrom, Disjoint, NoBuddies, AllWellFormed, Pages;
      var r;
      ghost var splits;
      r, splits := frames.AllocFrames(pages);
      if r.FrameFault? {
        return true;
      }
      if r.blocks != [] {
        GrantMore(old(frames.FreePages()), held, total - lost, frames.limit, Chain(r.blocks));
        held := held + [Chain(r.blocks)];
      }
      fault := false;
    }

    /** alloc_frames_contiguos for a client */
    method ServeGetRun(pages: nat, ghost total: set<nat>) returns (fault: bool)
      requires Valid(total) && Allowed(GetRun(pages))
      modifies this, frames.lists, frames.buddies.words
      ensures fault <==> old(Faults(GetRun(pages)))
      ensures !fault ==> Valid(total) && lost == old(lost)
      ensures !fault ==> if old(CanBeMet(GetRun(pages))) then Granted(GetRun(pages), old(held), held)
                         else held == old(held) && frames.Free() == old(frames.Free())
    {
      var r := frames.AllocContiguous(pages);
      if r.RunFault? {
        return true;
      }
      if r.RunAt? {
        GrantMore(old(frames.FreePages()), held, total - lost, frames.limit, Run(r.addr, pages));
        held := held + [Run(r.addr, pages)];
      }
      fault := false;
    }

    /** remove_range for a client */
    method ServeRemove(start: nat, pages: nat, ghost total: set<nat>)
      requires Valid(total) && Allowed(Remove(start, pages))
      modifies this, frames.lists, frames.buddies.words
      ensures Valid(total)
      ensures old(lost) <= lost
      ensures if old(CanBeMet(Remove(start, pages)))
              then Granted(Remove(start, pages), old(held), held) && lost == old(lost)
              else held == old(held) && frames.FreePages() == old(frames.FreePages()) - (lost - old(lost))
    {
      ghost var done;
      var ok;
      RangeIsManaged(frames, start, pages);
      ghost var free := frames.FreePages();
      ok, done := frames.RemoveRange(start, pages);
      if ok && pages > 0 {
        GrantMore(free, held, total - lost, frames.limit, Removed(start, pages));
        held := held + [Removed(start, pages)];
      } else {
        ghost var gone := Range(start, done);
        LoseSome(free, held, total - lost, frames.limit, gone);
        assert gone <= total - lost;
        assert total - lost - gone == total - (lost + gone);
        lost := lost + gone;
      }
    }

    /** free_frames, free_frames_contiguos or the release loop for a client */
    method ServeReturn(i: nat, ghost total: set<nat>)
      requires Valid(total)
      modifies this, frames.lists, frames.buddies.words
      ensures Valid(total) && lost == old(lost)
      ensures held == if i < old(|held|) then old(Without(held, i)) else old(held)
    {
      if i < |held| {
        GrantLess(frames.FreePages(), held, total - lost, frames.limit, i);
        match held[i] {
          case Chain(blocks) => frames.FreeFrames(blocks);
          case Run(addr, pages) => frames.FreeContiguous(addr, pages);
          case Removed(start, pages) => frames.ReleaseRange(start, pages);
        }
        held := Without(held, i);
      }
    }

    /** Serves a request: a fault, a grant or a refusal exactly when it must be, and pages are conserved. */
    method Serve(request: Request, ghost total: set<nat>) returns (fault: bool)
      requires Valid(total) && Allowed(request)
      modifies this, frames.lists, frames.buddies.words
      ensures fault <==> old(Faults(request))
      ensures !fault ==> Valid(total)
      ensures !fault && !request.Return? ==>
                if old(CanBeMet(request)) then Granted(request, old(held), held)
                else held == old(held) && frames.FreePages() == old(frames.FreePages()) - (lost - old(lost))
      ensures !fault ==> old(lost) <= lost
      ensures !fault && (!request.Remove? || old(CanBeMet(request))) ==> lost == old(lost)
      ensures request.Return? ==>
                held == if request.which < old(|held|)
                        then old(held[..request.which] + held[request.which + 1..]) else old(held)
    {
      fault := false;
      match request {
        case Get(pages) => fault := ServeGet(pages, total);
        case GetRun(pages) => fault := ServeGetRun(pages, total);
        case Remove(start, pages) => ServeRemove(start, pages, total);
        case Return(i) => ServeReturn(i, total);
      }
    }

    /** Conservation over every run, and the invariant of the allocator with it. */
    method ServeAll(requests: seq<Request>, ghost total: set<nat>) returns (fault: bool)
      requires Valid(total) && forall r <- requests :: Allowed(r)
      modifies this, frames.lists, frames.buddies.words
      ensures !fault ==> Valid(total)
      ensures !fault && (forall r <- requests :: !r.Remove?) ==> lost == old(lost)
      ensures !frames.junkPastTable && (forall r <- requests :: !r.GetRun?) ==> !fault
    {
      fault := false;
      for i := 0 to |requests|
        invariant Valid(total)
        invariant (forall r <- requests :: !r.Remove?) ==> lost == old(lost)
      {
        assert requests[i] in requests;
        fault := Serve(requests[i], total);
        if fault {
          return;
        }
      }
    }

    /**
     Whatever run came before, returning everything brings back all pages but those that failed removals
     lost; if there are none, the free lists and buddy bits are those the run began with.
     */
    method RunAndReturnAll(requests: seq<Request>) returns (fault: bool)
      requires frames.Valid() && held == [] && lost == {} && forall r <- requests :: Allowed(r)
      modifies this, frames.lists, frames.buddies.words
      ensures !frames.junkPastTable && (forall r <- requests :: !r.GetRun?) ==> !fault
      ensures !fault ==> frames.Valid() && frames.FreePages() == old(frames.FreePages()) - lost
      ensures !fault && (forall r <- requests :: !r.Remove?) ==> lost == {}
      ensures !fault && lost == {} ==> frames.Free() == old(frames.Free())
      ensures !fault && lost == {} ==> frames.buddies.Bits() == old(frames.buddies.Bits())
    {
      ghost var total := frames.FreePages();
      fault := ServeAll(requests, total);
      while !fault && held != []
        invariant !fault ==> Valid(total)
        invariant !frames.junkPastTable && (forall r <- requests :: !r.GetRun?) ==> !fault
        invariant !fault && (forall r <- requests :: !r.Remove?) ==> lost == {}
        decreases !fault, |held|
      {
        fault := Serve(Return(0), total);
      }
      if !fault {
        NothingHeld(frames.FreePages(), total - lost, frames.limit);
        if lost == {} {
          CanonicalForm(frames.Free(), old(frames.Free()), frames.limit);
        }
      }
    }
  }
}
