/**
 The buddy frame allocator.  Each order has a free list (head first) and, below the top order, a
 buddy map.  Free list entries are modelled by the frame number they carry; the memory entries that
 hold them come from the entry pool, which is taken to be stocked.
 */
module FrameAllocator {
  import opened Blocks
  import opened FreeSets
  import opened BuddyMap
  import opened Intervals
  import opened Lists
  import opened FreeLists

  /** A frame allocation, page count or address is a 64-bit byte count in the source. */
  const PAGES_IN_64_BITS: nat := 0x10_0000_0000_0000

  /** The pages that pages * PAGE_SIZE stands for once it has wrapped to 64 bits. */
  function Wrapped(pages: nat): (r: nat)
    ensures 4096 * r == 4096 * pages % 0x1_0000_0000_0000_0000
  {
    pages % PAGES_IN_64_BITS
  }

  // ----- free lists as values

  ghost function BlocksIn(lists: seq<seq<nat>>): set<Block> {
    set k, i | 0 <= k < |lists| && 0 <= i < |lists[k]| :: Block(k, lists[k][i])
  }

  lemma InLists(lists: seq<seq<nat>>, b: Block)
    ensures b in BlocksIn(lists) <==> b.order < |lists| && b.addr in lists[b.order]
  {
    if b.order < |lists| && b.addr in lists[b.order] {
      var i :| 0 <= i < |lists[b.order]| && lists[b.order][i] == b.addr;
    }
  }

  lemma PushedBlock(lists: seq<seq<nat>>, b: Block)
    requires b.order < |lists| && b !in BlocksIn(lists) && NoRepeats(lists[b.order])
    ensures BlocksIn(lists[b.order := [b.addr] + lists[b.order]]) == BlocksIn(lists) + {b}
    ensures NoRepeats([b.addr] + lists[b.order])
  {
    var after := lists[b.order := [b.addr] + lists[b.order]];
    InLists(lists, b);
    forall c ensures c in BlocksIn(after) <==> c in BlocksIn(lists) + {b} {
      InLists(lists, c);
      InLists(after, c);
    }
  }

  lemma CutBlock(lists: seq<seq<nat>>, order: nat, i: nat)
    requires order < |lists| && i < |lists[order]| && NoRepeats(lists[order])
    ensures BlocksIn(lists[order := Without(lists[order], i)]) == BlocksIn(lists) - {Block(order, lists[order][i])}
    ensures NoRepeats(Without(lists[order], i))
    ensures Block(order, lists[order][i]) in BlocksIn(lists)
  {
    var list := lists[order];
    var after := lists[order := Without(list, i)];
    forall c ensures c in BlocksIn(after) <==> c in BlocksIn(lists) - {Block(order, list[i])} {
      InLists(lists, c);
      InLists(after, c);
      if c.order == order {
        assert list == list[..i] + [list[i]] + list[i + 1..];
      }
    }
  }

  // ----- allocations

  /** calculate_allocation_pages: the pages of all blocks of a chain. */
  function TotalPages(allocation: seq<Block>): nat {
    if allocation == [] then 0 else Size(allocation[0].order) + TotalPages(allocation[1..])
  }

  method CalculateAllocationPages(allocation: seq<Block>) returns (size: nat)
    ensures size == TotalPages(allocation)
  {
    size := 0;
    var i := 0;
    while i < |allocation|
      invariant i <= |allocation| && size + TotalPages(allocation[i..]) == TotalPages(allocation)
    {
      assert allocation[i..][1..] == allocation[i + 1..];
      size := size + Size(allocation[i].order);
      i := i + 1;
    }
  }

  ghost function BlockSet(allocation: seq<Block>): set<Block> {
    set b | b in allocation
  }

  ghost function AllocatedPages(allocation: seq<Block>): set<nat> {
    Pages(BlockSet(allocation))
  }

  /** Blocks inside memory, no two of which overlap. */
  ghost predicate Separate(allocation: seq<Block>, limit: nat) {
    && (forall b <- allocation :: WellFormed(b, limit))
    && (forall i, j :: 0 <= i < j < |allocation| ==> Apart(allocation[i], allocation[j]))
  }

  lemma {:induction false} TotalOfMore(allocation: seq<Block>, b: Block)
    ensures TotalPages(allocation + [b]) == TotalPages(allocation) + Size(b.order)
  {
    if allocation == [] {
      assert TotalPages([b][1..]) == 0;
      assert allocation + [b] == [b];
    } else {
      TotalOfMore(allocation[1..], b);
      assert (allocation + [b])[1..] == allocation[1..] + [b];
    }
  }

  lemma PagesOfMore(allocation: seq<Block>, b: Block)
    ensures AllocatedPages(allocation + [b]) == AllocatedPages(allocation) + PagesOf(b)
  {
    var one, more := BlockSet(allocation), BlockSet(allocation + [b]);
    assert more == one + {b};
    forall p | p in Pages(more) ensures p in Pages(one) + PagesOf(b) {
      var c :| c in more && Holds(c, p);
    }
    forall p | p in PagesOf(b) ensures p in Pages(more) {
      assert b in more && Holds(b, p);
    }
    forall p | p in Pages(one) ensures p in Pages(more) {
      var c :| c in one && Holds(c, p);
      assert c in more;
    }
  }

  lemma ApartFromMore(allocation: seq<Block>, limit: nat, b: Block)
    requires Separate(allocation, limit) && WellFormed(b, limit) && PagesOf(b) !! AllocatedPages(allocation)
    ensures Separate(allocation + [b], limit)
  {
    forall i | 0 <= i < |allocation| ensures Apart(allocation[i], b) {
      var c := allocation[i];
      var p := if b.addr < c.addr then c.addr else b.addr;
      assert c in BlockSet(allocation);
      assert Holds(c, p) ==> p in AllocatedPages(allocation);
      assert Holds(b, p) ==> p in PagesOf(b);
    }
  }

  lemma LaterBlockIsApart(allocation: seq<Block>, limit: nat, i: nat)
    requires Separate(allocation, limit) && i < |allocation|
    ensures PagesOf(allocation[i]) !! AllocatedPages(allocation[..i])
  {
  }

  /** 64 - __builtin_clzll(n) */
  function BitLength(n: nat): nat {
    if n == 0 then 0 else 1 + BitLength(n / 2)
  }

  /** get_min_size_frame_order, where a basic block is one page */
  function MinSizeOrder(pages: nat): nat
    requires pages > 0
  {
    if pages == 1 then 0 else if BitLength(pages - 1) < FRAME_ORDERS then BitLength(pages - 1) else FRAME_ORDERS
  }

  lemma {:induction false} BitLengthBounds(n: nat)
    ensures n < Size(BitLength(n))
    ensures n > 0 ==> Size(BitLength(n) - 1) <= n
  {
    if n > 0 {
      BitLengthBounds(n / 2);
    }
  }

  /** The least order whose blocks have room for so many pages, or FRAME_ORDERS when no order has. */
  lemma MinSizeOrderIsLeast(pages: nat, order: nat)
    requires pages > 0 && order < FRAME_ORDERS
    ensures MinSizeOrder(pages) <= order <==> pages <= Size(order)
    ensures MinSizeOrder(pages) < FRAME_ORDERS <==> pages <= TOP_PAGES
  {
    BitLengthBounds(pages - 1);
    TopSize();
    var k := BitLength(pages - 1);
    if k <= order {
      SizeGrows(k, order);
    } else {
      SizeGrows(order, k - 1);
    }
    if k <= TOP_ORDER {
      SizeGrows(k, TOP_ORDER);
    } else {
      SizeGrows(TOP_ORDER, k - 1);
    }
  }

  /** A chain of frame allocation records; the null pointer is the empty chain. */
  datatype FrameResult = Frames(blocks: seq<Block>) | FrameFault

  datatype RunResult = RunAt(addr: nat) | NoRun | RunFault

  datatype Taken = Taken(block: Block) | NothingFree | TakeFault

  // ----- the blocks that memory starts with

  /** The addresses of the first so many top-order blocks. */
  function TopAddresses(tops: nat): (r: seq<nat>)
    ensures |r| == tops && forall i :: 0 <= i < tops ==> r[i] == i * TOP_PAGES
  {
    if tops == 0 then [] else TopAddresses(tops - 1) + [(tops - 1) * TOP_PAGES]
  }

  ghost function TopBlocks(tops: nat): set<Block> {
    set i: nat | i < tops :: Block(TOP_ORDER, i * TOP_PAGES)
  }

  lemma OnlyTopBlocks(lists: seq<seq<nat>>, tops: nat)
    requires |lists| == FRAME_ORDERS && lists[TOP_ORDER] == TopAddresses(tops)
    requires forall k :: 0 <= k < TOP_ORDER ==> lists[k] == []
    ensures BlocksIn(lists) == TopBlocks(tops) && NoRepeats(TopAddresses(tops))
  {
    forall i: nat | i < tops ensures Block(TOP_ORDER, i * TOP_PAGES) in BlocksIn(lists) {
      assert lists[TOP_ORDER][i] == i * TOP_PAGES;
    }
  }

  lemma TopBlockIsWellFormed(tops: nat, i: nat)
    requires i < tops
    ensures WellFormed(Block(TOP_ORDER, i * TOP_PAGES), tops * TOP_PAGES)
    ensures EndOf(Block(TOP_ORDER, i * TOP_PAGES)) == (i + 1) * TOP_PAGES
  {
    hide Offset, Size;
    TopSize();
    OffsetIsRemainder(i * TOP_PAGES, TOP_ORDER);
    RemainderIsUnique(i * TOP_PAGES, TOP_PAGES, i, 0);
    assert (i + 1) * TOP_PAGES <= tops * TOP_PAGES;
  }

  lemma TopBlocksAreCanonical(tops: nat)
    ensures Canonical(TopBlocks(tops), tops * TOP_PAGES) && Expected(TopBlocks(tops)) == {}
  {
    hide WellFormed, EndOf;
    forall i: nat | i < tops
      ensures WellFormed(Block(TOP_ORDER, i * TOP_PAGES), tops * TOP_PAGES)
      ensures EndOf(Block(TOP_ORDER, i * TOP_PAGES)) == (i + 1) * TOP_PAGES
    {
      TopBlockIsWellFormed(tops, i);
    }
  }

  lemma PagesOfTopBlocks(tops: nat)
    ensures Pages(TopBlocks(tops)) == Range(0, tops * TOP_PAGES)
  {
    TopSize();
    forall p: nat | p < tops * TOP_PAGES ensures p in Pages(TopBlocks(tops)) {
      var b := Block(TOP_ORDER, p / TOP_PAGES * TOP_PAGES);
      assert b in TopBlocks(tops) && Holds(b, p);
    }
    forall p | p in Pages(TopBlocks(tops)) ensures InRun(0, tops * TOP_PAGES, p) {
      var b :| b in TopBlocks(tops) && Holds(b, p);
    }
  }

  /** What merging two free buddies does to the free blocks, their pages and the bits that should be set. */
  lemma MergedSets(blocks: set<Block>, limit: nat, entry: Block)
    requires AllWellFormed(blocks, limit) && Disjoint(blocks) && NoBuddies(blocks - {entry})
    requires entry in blocks && entry.order < TOP_ORDER && BuddyOf(entry) in blocks
    requires WellFormed(ParentOf(entry), limit)
    ensures var after := blocks - {entry, BuddyOf(entry)} + {ParentOf(entry)};
            && AllWellFormed(after, limit) && Disjoint(after) && NoBuddies(after - {ParentOf(entry)})
            && Pages(after) == Pages(blocks) && Expected(after) == AfterToggle(Expected(blocks), ParentOf(entry))
    ensures ParentOf(entry) !in blocks - {entry, BuddyOf(entry)}
  {
    hide Pages, PagesOf;
    var rest, parent := blocks - {entry, BuddyOf(entry)}, ParentOf(entry);
    BuddiesMakeParent(entry);
    MergeBlocks(blocks, limit, entry);
    RemoveBlock(blocks, limit, entry);
    RemoveBlock(blocks - {entry}, limit, BuddyOf(entry));
    assert blocks - {entry} - {BuddyOf(entry)} == rest && rest + {entry, BuddyOf(entry)} == blocks;
    BothBuddiesCancel(rest, limit, entry);
    ToggleMatches(rest, limit, parent);
    assert rest + {parent} - {parent} == rest;
  }

  /** The largest order, from k down, that a range starts on a boundary of and has room for. */
  function PieceFrom(addr: nat, size: nat, k: nat): (w: nat)
    requires size > 0
    ensures w <= k && Size(w) <= size
  {
    if k == 0 || (Offset(addr, k) == 0 && Size(k) <= size) then k else PieceFrom(addr, size, k - 1)
  }

  lemma {:induction false} PieceIs(addr: nat, size: nat, w: nat, k: nat)
    requires size > 0 && w <= k && Offset(addr, w) == 0 && Size(w) <= size
    requires w < k ==> Offset(addr, w + 1) != 0 || size < Size(w + 1)
    ensures PieceFrom(addr, size, k) == w
  {
    if w < k {
      if Offset(addr, k) == 0 {
        AlignedBelow(w + 1, k, addr);
      }
      SizeGrows(w + 1, k);
      PieceIs(addr, size, w, k - 1);
    }
  }

  /** How many pages of a range remove_range gets, largest pieces first, before it meets one that is not free. */
  ghost function Removable(free: set<nat>, addr: nat, size: nat): (done: nat)
    ensures done <= size
    decreases size
  {
    if size == 0 then 0
    else
      var b := Block(PieceFrom(addr, size, TOP_ORDER), addr);
      if PagesOf(b) <= free then Size(b.order) + Removable(free, addr + Size(b.order), size - Size(b.order)) else 0
  }

  class FrameAllocator {
    /** The number of frames managed, a whole number of top-order blocks. */
    const limit: nat
    /** Whether the word behind the table of list heads, g_free_lists[FRAME_ORDERS].head, reads as non-null. */
    const junkPastTable: bool
    const lists: array<seq<nat>>
    const buddies: BuddyWords

    /** The free blocks of all orders. */
    ghost function Free(): set<Block>
      reads lists
    {
      BlocksIn(lists[..])
    }

    ghost function FreePages(): set<nat>
      reads lists
    {
      Pages(Free())
    }

    /** What holds even between the two halves of a split and the taking of one of them. */
    ghost predicate Consistent()
      reads lists, buddies.words
    {
      && lists.Length == FRAME_ORDERS
      && Offset(limit, TOP_ORDER) == 0
      && buddies.words.Length0 == MAP_ORDERS && limit <= 2 * WORD_BITS * buddies.words.Length1
      && (forall k :: 0 <= k < FRAME_ORDERS ==> NoRepeats(lists[k]))
      && AllWellFormed(Free(), limit) && Disjoint(Free())
      && buddies.Bits() == Expected(Free())
    }

    /** The invariant of the allocator between calls. */
    ghost predicate Valid()
      reads lists, buddies.words
    {
      Consistent() && NoBuddies(Free())
    }

    /** The lists as initialize_frame_allocator fills them: all of memory is free, in top-order blocks. */
    constructor (tops: nat, junk: bool)
      requires 0 < tops
      ensures Valid() && limit == tops * TOP_PAGES && junkPastTable == junk
      ensures FreePages() == Range(0, limit) && lists[TOP_ORDER] == TopAddresses(tops)
      ensures forall k :: 0 <= k < TOP_ORDER ==> lists[k] == []
      ensures fresh(lists) && fresh(buddies.words)
    {
      limit := tops * TOP_PAGES;
      junkPastTable := junk;
      lists := new seq<nat>[FRAME_ORDERS](_ => []);
      buddies := new BuddyWords(tops);
      new;
      FillTopList(tops);
      AllOfMemory(tops);
    }

    /** The loop that links the top-order blocks in ascending order. */
    method FillTopList(tops: nat)
      requires 0 < tops && lists.Length == FRAME_ORDERS && forall k :: 0 <= k < FRAME_ORDERS ==> lists[k] == []
      modifies lists
      ensures lists[TOP_ORDER] == TopAddresses(tops) && forall k :: 0 <= k < TOP_ORDER ==> lists[k] == []
    {
      lists[TOP_ORDER] := [0];
      var addr := TOP_PAGES;
      for i := 1 to tops
        invariant lists[TOP_ORDER] == TopAddresses(i) && addr == i * TOP_PAGES
        invariant forall k :: 0 <= k < TOP_ORDER ==> lists[k] == []
      {
        lists[TOP_ORDER] := lists[TOP_ORDER] + [addr];
        addr := addr + TOP_PAGES;
      }
    }

    lemma AllOfMemory(tops: nat)
      requires limit == tops * TOP_PAGES && lists.Length == FRAME_ORDERS && lists[TOP_ORDER] == TopAddresses(tops)
      requires forall k :: 0 <= k < TOP_ORDER ==> lists[k] == []
      requires buddies.words.Length0 == MAP_ORDERS && buddies.words.Length1 == tops && buddies.Bits() == {}
      ensures Valid() && FreePages() == Range(0, limit)
    {
      hide WellFormed, Pages, BlocksIn, Expected, Range, TopBlocks, TopAddresses, Disjoint, NoBuddies, Offset;
      TopSize();
      OffsetIsRemainder(limit, TOP_ORDER);
      OnlyTopBlocks(lists[..], tops);
      TopBlocksAreCanonical(tops);
      PagesOfTopBlocks(tops);
    }

    lemma PairInMap(b: Block)
      requires limit <= 2 * WORD_BITS * buddies.words.Length1 && WellFormed(b, limit)
      ensures PairOf(b).index < WORD_BITS * buddies.words.Length1
    {
      PairBound(b.addr, Size(b.order));
    }

    /** Puts an entry at the front of a free list. */
    method Push(b: Block)
      requires lists.Length == FRAME_ORDERS && b.order < FRAME_ORDERS && b !in Free()
      requires forall k :: 0 <= k < FRAME_ORDERS ==> NoRepeats(lists[k])
      modifies lists
      ensures lists[..] == old(lists[..])[b.order := [b.addr] + old(lists[b.order])]
      ensures Free() == old(Free()) + {b}
      ensures forall k :: 0 <= k < FRAME_ORDERS ==> NoRepeats(lists[k])
    {
      PushedBlock(lists[..], b);
      lists[b.order] := [b.addr] + lists[b.order];
      assert lists[..] == old(lists[..])[b.order := [b.addr] + old(lists[b.order])];
    }

    /** Removes an entry from a free list. */
    method Cut(order: nat, i: nat) returns (b: Block)
      requires lists.Length == FRAME_ORDERS && order < FRAME_ORDERS && i < |lists[order]|
      requires forall k :: 0 <= k < FRAME_ORDERS ==> NoRepeats(lists[k])
      modifies lists
      ensures b == Block(order, old(lists[order][i])) && b in old(Free())
      ensures lists[..] == old(lists[..])[order := Without(old(lists[order]), i)]
      ensures Free() == old(Free()) - {b}
      ensures forall k :: 0 <= k < FRAME_ORDERS ==> NoRepeats(lists[k])
    {
      CutBlock(lists[..], order, i);
      b := Block(order, lists[order][i]);
      lists[order] := Without(lists[order], i);
      assert lists[..] == old(lists[..])[order := Without(old(lists[order]), i)];
    }

    /** Removes an entry from its free list and marks the block as allocated. */
    method Take(order: nat, i: nat) returns (b: Block)
      requires Consistent() && order < FRAME_ORDERS && i < |lists[order]|
      requires NoBuddies(Free() - {Block(order, lists[order][i])})
      modifies lists, buddies.words
      ensures Valid() && b == Block(order, old(lists[order][i])) && b in old(Free())
      ensures lists[..] == old(lists[..])[order := Without(old(lists[order]), i)]
      ensures Free() == old(Free()) - {b}
      ensures FreePages() == old(FreePages()) - PagesOf(b) && PagesOf(b) <= old(FreePages())
    {
      b := Cut(order, i);
      RemoveBlock(old(Free()), limit, b);
      PairInMap(b);
      ToggleMatches(old(Free()), limit, b);
      buddies.Toggle(b);
    }

    /** Removes an entry from its free list and splits it: split_entry, left half in front. */
    method Split(order: nat, i: nat)
      requires Consistent() && 0 < order < FRAME_ORDERS && i < |lists[order]|
      requires NoBuddies(Free() - {Block(order, lists[order][i])})
      modifies lists, buddies.words
      ensures Consistent() && FreePages() == old(FreePages())
      ensures var b := Block(order, old(lists[order][i]));
              && lists[..] == old(lists[..])[order := Without(old(lists[order]), i)]
                              [order - 1 := [LeftHalf(b).addr, RightHalf(b).addr] + old(lists[order - 1])]
              && NoBuddies(Free() - {LeftHalf(b)}) && NoBuddies(Free() - {RightHalf(b)})
    {
      ghost var before := Free();
      var b := Cut(order, i);
      PairInMap(b);
      buddies.Toggle(b);
      ToggleMatches(before, limit, b);
      SplitBlock(before, limit, b);
      HalvesOf(b);
      BothBuddiesCancel(before - {b}, limit, LeftHalf(b));
      HalfOfSplit(before, limit, b, LeftHalf(b));
      HalfOfSplit(before, limit, b, RightHalf(b));
      Push(RightHalf(b));
      Push(LeftHalf(b));
      assert Free() == before - {b} + {LeftHalf(b), RightHalf(b)};
      assert [LeftHalf(b).addr] + ([RightHalf(b).addr] + old(lists[order - 1]))
          == [LeftHalf(b).addr, RightHalf(b).addr] + old(lists[order - 1]);
    }

    // ----- alloc_frames

    /** Nothing is left to merge once the front block of this list is taken. */
    ghost predicate FrontMayGo(order: nat)
      requires Consistent()
      reads lists, buddies.words
    {
      order < FRAME_ORDERS && lists[order] != [] && NoBuddies(Free() - {Block(order, lists[order][0])})
    }

    /** Removes the front block of a list and splits it; its left half becomes the front block below. */
    method SplitFront(order: nat)
      requires Consistent() && 0 < order && FrontMayGo(order)
      modifies lists, buddies.words
      ensures Consistent() && FreePages() == old(FreePages()) && FrontMayGo(order - 1)
      ensures forall j :: 0 <= j < FRAME_ORDERS && j != order && j != order - 1 ==> lists[j] == old(lists[j])
      ensures lists[..] == HalvesBelow(old(lists[..]), order)
    {
      hide AllWellFormed, FreeSets.Disjoint, BuddyOf;
      ghost var b := Block(order, lists[order][0]);
      Split(order, 0);
      assert Without(old(lists[order]), 0) == old(lists[order])[1..];
      assert LeftHalf(b).addr == b.addr && RightHalf(b).addr == b.addr + Size(order - 1);
      assert forall j :: 0 <= j < FRAME_ORDERS ==> lists[j] == lists[..][j];
    }

    /** The same on the way from the front block of order `source` down. */
    method SplitToward(order: nat, ghost l: ByOrder, ghost source: nat)
      requires Consistent() && 0 < order <= source < FRAME_ORDERS && FrontMayGo(order)
      requires l[source] != [] && lists[..] == SplitDown(l, source, order)
      modifies lists, buddies.words
      ensures Consistent() && FreePages() == old(FreePages()) && FrontMayGo(order - 1)
      ensures lists[..] == SplitDown(l, source, order - 1)
      ensures forall j :: 0 <= j < FRAME_ORDERS && j != order && j != order - 1 ==> lists[j] == old(lists[j])
    {
      hide Consistent, NoBuddies, Free, SplitDown, HalvesBelow;
      SplitOnce(l, source, order);
      SplitFront(order);
    }

    /** The least order with a block, found list by list. */
    lemma FoundLeast(wanted: nat, order: nat)
      requires lists.Length == FRAME_ORDERS && wanted <= order < FRAME_ORDERS && lists[order] != []
      requires forall j :: wanted <= j < order ==> lists[j] == []
      ensures var l: ByOrder := lists[..];
              Least(l, wanted) == order && l[order] != [] && lists[..] == SplitDown(l, order, order)
    {
      var l: ByOrder := lists[..];
      LeastIs(l, wanted, order);
      SplitStart(l, order, order);
    }

    /** The order that serves a wish when no list from the wanted order up has a block. */
    lemma FoundBelow(wanted: nat, k: int)
      requires lists.Length == FRAME_ORDERS && -1 <= k < wanted < FRAME_ORDERS && (k >= 0 ==> lists[k] != [])
      requires forall j :: k < j < FRAME_ORDERS ==> lists[j] == []
      ensures FreeLists.Serve(lists[..], wanted).order == k
    {
      var l: ByOrder := lists[..];
      assert forall i :: k < i < FRAME_ORDERS ==> l[i] == lists[i] == [];
      assert k >= 0 ==> l[k] == lists[k];
    }

    /** Takes the front block of a list and marks it as allocated. */
    method TakeFront(order: nat) returns (b: Block)
      requires Consistent() && FrontMayGo(order)
      modifies lists, buddies.words
      ensures Valid() && WellFormed(b, limit) && b == Block(order, old(lists[order][0]))
      ensures PagesOf(b) <= old(FreePages()) && FreePages() == old(FreePages()) - PagesOf(b)
      ensures |lists[order]| == old(|lists[order]|) - 1
      ensures lists[..] == Popped(old(lists[..]), order)
    {
      b := Take(order, 0);
      assert Without(old(lists[order]), 0) == old(lists[order])[1..];
      assert lists[order] == lists[..][order];
    }

    /** The largest order below `wanted` with a free block, or -1. */
    method LargestBelow(wanted: nat) returns (k: int)
      requires lists.Length == FRAME_ORDERS && wanted <= FRAME_ORDERS
      ensures -1 <= k < wanted && (k >= 0 ==> lists[k] != [])
      ensures forall j :: k < j < wanted ==> lists[j] == []
    {
      k := wanted - 1;
      while k >= 0
        invariant -1 <= k < wanted && forall j :: k < j < wanted ==> lists[j] == []
      {
        if lists[k] != [] {
          break;
        }
        k := k - 1;
      }
    }

    ghost predicate FreeFrom(order: nat)
      requires lists.Length == FRAME_ORDERS
      reads lists
    {
      exists j :: order <= j < FRAME_ORDERS && lists[j] != []
    }

    /** Which order serves a wish: the wanted one if it or a larger one has a block, else the largest that has. */
    ghost predicate Serves(order: nat, wanted: nat)
      requires lists.Length == FRAME_ORDERS && wanted < FRAME_ORDERS
      reads lists
    {
      if FreeFrom(wanted) then order == wanted
      else order < wanted && lists[order] != [] && !FreeFrom(order + 1)
    }

    /**
     The inner loops of alloc_frames: brings a block of the wanted order to the front of its list, split
     from the smallest larger one if there is none, or else finds the largest smaller order; -1 if nothing
     is free.
     */
    method FindOrder(wanted: nat) returns (k: int, fault: bool, ghost splits: nat)
      requires Valid() && wanted < FRAME_ORDERS
      modifies lists, buddies.words
      ensures fault <==> junkPastTable && wanted == TOP_ORDER && old(lists[TOP_ORDER]) == []
      ensures !fault ==> -1 <= k <= wanted
      ensures !fault && k == -1 ==> unchanged(lists, buddies.words) && !FreeFrom(0)
      ensures !fault && k >= 0 ==>
                Consistent() && FrontMayGo(k) && old(Serves(k, wanted)) && FreePages() == old(FreePages())
      ensures old(lists[wanted]) != [] ==> unchanged(lists, buddies.words)
      ensures !fault ==> k == FreeLists.Serve(old(lists[..]), wanted).order
      ensures !fault && k == wanted ==>
                var l: ByOrder := old(lists[..]);
                && Least(l, wanted) < FRAME_ORDERS && splits == Least(l, wanted) - wanted
                && lists[..] == SplitDown(l, Least(l, wanted), wanted)
      ensures !fault && k != wanted ==> splits == 0 && lists[..] == old(lists[..])
    {
      hide Disjoint, NoBuddies, Pages, PagesOf, AllWellFormed, SplitDown, FreeLists.Serve;
      k, splits := wanted, 0;
      ghost var l: ByOrder := lists[..];
      var order: int := wanted + 1;
      ghost var split := false;
      while lists[k] == []
        invariant k == wanted <= order <= FRAME_ORDERS && Consistent()
        invariant forall j :: wanted < j < order ==> lists[j] == []
        invariant !split ==> wanted < order && unchanged(lists, buddies.words)
        invariant wanted < TOP_ORDER <==> order < FRAME_ORDERS
        invariant split ==> FrontMayGo(order) && (wanted < order ==> lists[wanted] == [])
        invariant split ==> old(FreeFrom(wanted)) && old(lists[wanted]) == []
        invariant FreePages() == old(FreePages())
        invariant !split ==> splits == 0 && lists[..] == l
        invariant split ==> order <= Least(l, wanted) < FRAME_ORDERS && splits == Least(l, wanted) - order
        invariant split ==> lists[..] == SplitDown(l, Least(l, wanted), order)
        decreases !split, if split then order else FRAME_ORDERS - order
      {
        // When the wanted order is the top one, this is a read of g_free_lists[FRAME_ORDERS].
        if order == FRAME_ORDERS && junkPastTable {
          return k, true, splits;
        }
        if order == FRAME_ORDERS || lists[order] == [] {
          order := order + 1;
          if order < FRAME_ORDERS {
            continue;
          }
          // No list from the wanted order up has an entry.
          k := LargestBelow(wanted);
          FoundBelow(wanted, k);
          if k < 0 {
            return k, false, splits;
          }
          assert Serves(k, wanted);
          break;
        }
        if !split {
          FrontCanGo(order);
          FoundLeast(wanted, order);
        }
        SplitToward(order, l, Least(l, wanted));
        order, split, splits := order - 1, true, splits + 1;
      }
      if !split {
        FrontCanGo(k);
        if k == wanted {
          FoundLeast(wanted, wanted);
        }
      }
      assert k == wanted ==> old(FreeFrom(wanted));
      if k == wanted {
        ServedAsWanted(l, wanted);
      }
      fault := false;
    }

    /** A round of alloc_frames takes the front block of the order that serves the wish. */
    method TakeBlock(wanted: nat) returns (r: Taken, ghost splits: nat)
      requires Valid() && wanted < FRAME_ORDERS
      modifies lists, buddies.words
      ensures r.TakeFault? <==> junkPastTable && wanted == TOP_ORDER && old(lists[TOP_ORDER]) == []
      ensures r.NothingFree? ==> unchanged(lists, buddies.words) && Free() == {} && lists[TOP_ORDER] == []
      ensures r.Taken? ==> Valid() && WellFormed(r.block, limit) && old(Serves(r.block.order, wanted))
      ensures r.Taken? ==> PagesOf(r.block) <= old(FreePages()) && FreePages() == old(FreePages()) - PagesOf(r.block)
      ensures r.Taken? && old(lists[wanted]) != [] ==> |lists[wanted]| == old(|lists[wanted]|) - 1
      ensures !r.TakeFault? ==>
                FreeLists.Serve(old(lists[..]), wanted) ==
                if r.Taken? then Round(r.block.order, r.block.addr, splits, lists[..])
                else Round(-1, 0, splits, lists[..])
    {
      var k, fault;
      k, fault, splits := FindOrder(wanted);
      if fault {
        return TakeFault, splits;
      }
      if k < 0 {
        NoListsNoBlocks();
        return NothingFree, splits;
      }
      var b := TakeFront(k);
      r := Taken(b);
    }

    lemma NoListsNoBlocks()
      requires lists.Length == FRAME_ORDERS && forall j :: 0 <= j < FRAME_ORDERS ==> lists[j] == []
      ensures Free() == {}
    {
    }

    /** Between calls the front block of any list can be taken. */
    lemma FrontCanGo(order: nat)
      requires Valid() && order < FRAME_ORDERS && lists[order] != []
      ensures FrontMayGo(order)
    {
      InLists(lists[..], Block(order, lists[order][0]));
      RemoveBlock(Free(), limit, Block(order, lists[order][0]));
    }

    lemma BlockAtHead(order: nat)
      requires lists.Length == FRAME_ORDERS && order < FRAME_ORDERS && lists[order] != []
      ensures Block(order, lists[order][0]) in Free()
    {
      InLists(lists[..], Block(order, lists[order][0]));
    }

    // ----- free_frames

    /** Where a free list holds an address, or its length. */
    method FindEntry(order: nat, addr: nat) returns (i: nat)
      requires lists.Length == FRAME_ORDERS && order < FRAME_ORDERS
      ensures i <= |lists[order]| && (i < |lists[order]| ==> lists[order][i] == addr)
      ensures i == |lists[order]| ==> Block(order, addr) !in Free()
    {
      i := 0;
      while i < |lists[order]| && lists[order][i] != addr
        invariant i <= |lists[order]| && addr !in lists[order][..i]
      {
        i := i + 1;
      }
      InLists(lists[..], Block(order, addr));
    }

    /** Nothing but this block, in front of its list, can have a free buddy. */
    ghost predicate Unsettled(entry: Block)
      requires Consistent()
      reads lists, buddies.words
    {
      && WellFormed(entry, limit) && lists[entry.order] != [] && lists[entry.order][0] == entry.addr
      && NoBuddies(Free() - {entry})
    }

    /** A clear pair bit means both halves are free; they and their parent lie in memory. */
    lemma BuddyIsThere(entry: Block)
      requires Consistent() && Unsettled(entry) && entry.order < TOP_ORDER && PairOf(entry) !in buddies.Bits()
      ensures entry in Free() && BuddyOf(entry) in Free() && BuddyOf(entry) != entry
      ensures WellFormed(ParentOf(entry), limit)
    {
      BlockAtHead(entry.order);
      ExpectedIsXor(Free(), limit, entry);
      BuddiesMakeParent(entry);
      MergeBlocks(Free(), limit, entry);
    }

    /** The two searches of a round of the merge loop: both halves leave their list. */
    method UnlinkPair(entry: Block) returns (left: nat)
      requires Consistent() && Unsettled(entry) && entry.order < TOP_ORDER && PairOf(entry) !in buddies.Bits()
      modifies lists
      ensures left == ParentOf(entry).addr && Free() == old(Free()) - {entry, BuddyOf(entry)}
      ensures forall k :: 0 <= k < FRAME_ORDERS ==> NoRepeats(lists[k])
    {
      hide Disjoint, NoBuddies, AllWellFormed, Pages, PagesOf, BlocksIn, Expected, PairOf;
      BuddyIsThere(entry);
      BuddiesMakeParent(entry);
      var e := Cut(entry.order, 0);
      var other := if Offset(entry.addr, entry.order + 1) == 0 then entry.addr + Size(entry.order)
                   else entry.addr - Size(entry.order);
      var i := FindEntry(entry.order, other);
      // The assertion of the source: the buddy has been found.
      assert i < |lists[entry.order]|;
      var o := Cut(entry.order, i);
      left := if other < entry.addr then other else entry.addr;
    }

    /** One round of the merge loop: the entry at the front of its list and its buddy become their parent. */
    method Merge(entry: Block) returns (parent: Block)
      requires Consistent() && Unsettled(entry) && entry.order < TOP_ORDER && PairOf(entry) !in buddies.Bits()
      modifies lists, buddies.words
      ensures Consistent() && Unsettled(parent) && FreePages() == old(FreePages())
      ensures parent == ParentOf(entry) && Aligned(entry)
      ensures Free() == old(Free()) - {entry, BuddyOf(entry)} + {parent}
    {
      hide Disjoint, NoBuddies, AllWellFormed, Pages, PagesOf, BlocksIn, Expected, PairOf, Flip;
      ghost var before := Free();
      BuddyIsThere(entry);
      MergedSets(before, limit, entry);
      parent := ParentOf(entry);
      var left := UnlinkPair(entry);
      Push(Block(entry.order + 1, left));
      PairInMap(parent);
      buddies.Toggle(parent);
    }

    /** The test of the merge loop. */
    method BuddyIsFree(entry: Block) returns (merge: bool)
      requires Consistent() && Unsettled(entry)
      ensures merge <==> entry.order < TOP_ORDER && PairOf(entry) !in buddies.Bits()
    {
      merge := false;
      if entry.order < TOP_ORDER {
        PairInMap(entry);
        var bit := buddies.Get(entry);
        merge := !bit;
      }
    }

    /** Puts a block in front of its list and toggles its bit. */
    method LinkFreed(b: Block)
      requires Valid() && WellFormed(b, limit) && PagesOf(b) !! FreePages()
      modifies lists, buddies.words
      ensures Consistent() && Unsettled(b) && FreePages() == old(FreePages()) + PagesOf(b)
    {
      hide Disjoint, Pages, BlocksIn, Expected, PagesOf;
      ghost var before := Free();
      AddBlock(before, limit, b);
      PairInMap(b);
      ToggleMatches(before, limit, b);
      buddies.Toggle(b);
      Push(b);
      assert Free() - {b} == before;
    }

    /** Once the merge test fails, no two buddies are free. */
    lemma Settled(entry: Block)
      requires Consistent() && Unsettled(entry)
      requires entry.order < TOP_ORDER ==> PairOf(entry) in buddies.Bits()
      ensures Valid()
    {
      hide Disjoint, Pages, BlocksIn, Expected;
      BlockAtHead(entry.order);
      assert Free() - {entry} + {entry} == Free();
      if entry.order < TOP_ORDER {
        ExpectedIsXor(Free(), limit, entry);
      }
      AddWithoutBuddy(Free() - {entry}, limit, entry);
    }

    /** One round of free_frames: frees a block and merges it as far up as possible. */
    method FreeBlock(b: Block) returns (ghost merges: nat)
      requires Valid() && WellFormed(b, limit) && PagesOf(b) !! FreePages()
      modifies lists, buddies.words
      ensures Valid() && FreePages() == old(FreePages()) + PagesOf(b)
      ensures merges <= TOP_ORDER - b.order
    {
      hide Valid, Consistent, Unsettled, Pages, PagesOf, BlocksIn, Expected, PairOf, WellFormed;
      LinkFreed(b);
      var entry := b;
      merges := 0;
      OrderInRange(b);
      var merge := BuddyIsFree(entry);
      while merge
        invariant Consistent() && Unsettled(entry) && FreePages() == old(FreePages()) + PagesOf(b)
        invariant merge <==> entry.order < TOP_ORDER && PairOf(entry) !in buddies.Bits()
        invariant b.order + merges == entry.order <= TOP_ORDER
        decreases TOP_ORDER - entry.order
      {
        entry := Merge(entry);
        merges := merges + 1;
        merge := BuddyIsFree(entry);
      }
      Settled(entry);
    }

    lemma OrderInRange(b: Block)
      requires WellFormed(b, limit)
      ensures b.order <= TOP_ORDER
    {
    }

    /** Frees every block of an allocation. */
    method FreeFrames(allocation: seq<Block>)
      requires Valid() && Separate(allocation, limit) && AllocatedPages(allocation) !! FreePages()
      modifies lists, buddies.words
      ensures Valid() && FreePages() == old(FreePages()) + AllocatedPages(allocation)
    {
      var i := 0;
      while i < |allocation|
        invariant i <= |allocation| && Valid()
        invariant FreePages() == old(FreePages()) + AllocatedPages(allocation[..i])
      {
        assert allocation[..i + 1] == allocation[..i] + [allocation[i]];
        PagesOfMore(allocation[..i], allocation[i]);
        LaterBlockIsApart(allocation, limit, i);
        assert PagesOf(allocation[i]) <= AllocatedPages(allocation) by {
          assert allocation[i] in BlockSet(allocation);
        }
        ghost var merges := FreeBlock(allocation[i]);
        i := i + 1;
      }
      assert allocation[..i] == allocation;
    }

    /** The largest order whose blocks are no larger than `size` pages. */
    method LargestFitting(size: nat) returns (order: nat)
      requires size > 0
      ensures order < FRAME_ORDERS && Size(order) <= size && (size >= TOP_PAGES ==> order == TOP_ORDER)
      ensures order < TOP_ORDER ==> size < Size(order + 1)
    {
      order := 0;
      while order < FRAME_ORDERS
        invariant order <= FRAME_ORDERS && (order > 0 ==> Size(order - 1) <= size)
      {
        if size < Size(order) {
          break;
        }
        order := order + 1;
      }
      order := order - 1;
      TopSize();
      if order < TOP_ORDER {
        SizeGrows(order + 1, TOP_ORDER);
      }
    }

    /** What alloc_frames has gathered so far: blocks taken out of the pages that were free. */
    ghost predicate Gathered(front: seq<Block>, was: set<nat>, now: set<nat>) {
      && Separate(front, limit)
      && AllocatedPages(front) <= was && now == was - AllocatedPages(front)
      && |now| + TotalPages(front) == |was|
    }

    lemma NothingGathered(free: set<nat>)
      ensures Gathered([], free, free)
    {
    }

    lemma GatherOne(front: seq<Block>, was: set<nat>, now: set<nat>, b: Block)
      requires Gathered(front, was, now) && WellFormed(b, limit) && PagesOf(b) <= now
      ensures Gathered(front + [b], was, now - PagesOf(b))
    {
      var taken, more := PagesOf(b), AllocatedPages(front);
      assert Separate(front + [b], limit) by { ApartFromMore(front, limit, b); }
      assert AllocatedPages(front + [b]) == more + taken by { PagesOfMore(front, b); }
      assert |now - taken| + TotalPages(front + [b]) == |was| by {
        TotalOfMore(front, b);
        PageCount(b);
        SubsetSize(taken, now);
      }
      TakeMore(was, more, taken);
    }

    lemma TakeMore(was: set<nat>, more: set<nat>, taken: set<nat>)
      requires more <= was && taken <= was - more
      ensures more + taken <= was && was - more - taken == was - (more + taken)
    {
    }

    /**
     Top-order blocks still wanted against those still in the list: the difference stays the same until
     less than a top-order block is wanted.
     */
    ghost predicate TopBudget(size: nat, tops: nat, wanted: nat, had: nat) {
      junkPastTable ==>
        if size < TOP_PAGES then WholeTops(wanted) <= had else WholeTops(size) - tops == WholeTops(wanted) - had
    }

    lemma BudgetStep(size: nat, tops: nat, wanted: nat, had: nat, order: nat, left: nat)
      requires TopBudget(size, tops, wanted, had) && order < FRAME_ORDERS && Size(order) <= size
      requires junkPastTable && size >= TOP_PAGES ==> order == TOP_ORDER && left == tops - 1
      ensures TopBudget(size - Size(order), left, wanted, had)
    {
      TopSize();
    }

    /** Out of memory: frees what was gathered, which leaves every free list with its old entries. */
    method GiveBack(front: seq<Block>, ghost was: set<Block>)
      requires Valid() && Canonical(was, limit) && Gathered(front, Pages(was), FreePages())
      modifies lists, buddies.words
      ensures Valid() && Free() == was
    {
      hide Disjoint, NoBuddies, AllWellFormed, Pages, PagesOf, BlocksIn, Expected, TotalPages;
      FreeFrames(front);
      CanonicalForm(Free(), was, limit);
    }

    /** One round of the outer loop of alloc_frames. */
    method Gather(front: seq<Block>, size: nat, ghost was: set<nat>) returns (r: Taken, ghost splits: nat)
      requires Valid() && size > 0 && Gathered(front, was, FreePages())
      modifies lists, buddies.words
      ensures r.TakeFault? <==> junkPastTable && size >= TOP_PAGES && old(lists[TOP_ORDER]) == []
      ensures r.NothingFree? ==> unchanged(lists, buddies.words) && |FreePages()| == 0 && lists[TOP_ORDER] == []
      ensures r.Taken? ==> Valid() && Gathered(front + [r.block], was, FreePages())
      ensures r.Taken? ==> r.block.order < FRAME_ORDERS && Size(r.block.order) <= size
      ensures r.Taken? ==> TotalPages(front + [r.block]) == TotalPages(front) + Size(r.block.order)
      ensures r.Taken? && size >= TOP_PAGES && old(lists[TOP_ORDER]) != [] ==>
                r.block.order == TOP_ORDER && |lists[TOP_ORDER]| == old(|lists[TOP_ORDER]|) - 1
      ensures !r.TakeFault? ==>
                FreeLists.Serve(old(lists[..]), Wish(size)) ==
                if r.Taken? then Round(r.block.order, r.block.addr, splits, lists[..])
                else Round(-1, 0, splits, lists[..])
    {
      hide FreeLists.Serve, Consistent, Free, NoBuddies, AllWellFormed, Disjoint, Pages, PagesOf, WellFormed;
      var wanted := LargestFitting(size);
      WishIs(size, wanted);
      r, splits := TakeBlock(wanted);
      if r.NothingFree? {
        NoPagesNoBlocks(Free());
      } else if r.Taken? {
        GatherOne(front, was, old(FreePages()), r.block);
        TotalOfMore(front, r.block);
        SizeGrows(r.block.order, wanted);
      }
    }

    /** alloc_frames; `splits` counts the calls of split_entry, each of which takes one entry from the pool. */
    method AllocFrames(pages: nat) returns (r: FrameResult, ghost splits: nat)
      requires Valid()
      modifies lists, buddies.words
      ensures r.FrameFault? <==> junkPastTable && WholeTops(Wrapped(pages)) > old(|lists[TOP_ORDER]|)
      ensures r.Frames? ==> Valid()
      ensures r.Frames? ==> (r.blocks != [] <==> 0 < Wrapped(pages) <= old(|FreePages()|))
      ensures r.Frames? && r.blocks == [] ==> Free() == old(Free())
      ensures r.Frames? && r.blocks != [] ==>
                && Separate(r.blocks, limit) && TotalPages(r.blocks) == Wrapped(pages)
                && AllocatedPages(r.blocks) <= old(FreePages())
                && FreePages() == old(FreePages()) - AllocatedPages(r.blocks)
      ensures r.Frames? && r.blocks != [] ==>
                && r.blocks == TakenFrom(old(lists[..]), Wrapped(pages))
                && splits == Splits(old(lists[..]), Wrapped(pages))
                && lists[..] == LeftBy(old(lists[..]), Wrapped(pages))
    {
      hide Disjoint, NoBuddies, AllWellFormed, Pages, PagesOf, BlocksIn, Expected, Wrapped, WellFormed, Underway,
           FreeLists.Serve, Wish;
      var size := Wrapped(pages);
      var front: seq<Block> := [];
      splits := 0;
      ghost var l: ByOrder := lists[..];
      NothingGathered(FreePages());
      NothingGatheredYet(l, size);
      while size != 0
        invariant Valid() && TotalPages(front) + size == Wrapped(pages)
        invariant Gathered(front, old(FreePages()), FreePages())
        invariant front == [] ==> Free() == old(Free())
        invariant Underway(l, Wrapped(pages), lists[..], size, front, splits)
        invariant TopBudget(size, |lists[TOP_ORDER]|, Wrapped(pages), old(|lists[TOP_ORDER]|))
        decreases size
      {
        ghost var tops := |lists[TOP_ORDER]|;
        ghost var now: ByOrder := lists[..];
        var taken;
        ghost var more;
        taken, more := Gather(front, size, old(FreePages()));
        splits := splits + more;
        match taken {
          case TakeFault =>
            return FrameFault, splits;
          case NothingFree =>
            GiveBack(front, old(Free()));
            return Frames([]), splits;
          case Taken(b) =>
            OneRound(l, Wrapped(pages), now, size, front, splits - more);
            BudgetStep(size, tops, Wrapped(pages), old(|lists[TOP_ORDER]|), b.order, |lists[TOP_ORDER]|);
            front := front + [b];
            size := size - Size(b.order);
        }
      }
      AllGathered(l, Wrapped(pages), lists[..], front, splits);
      r := Frames(front);
    }

    // ----- alloc_frames_contiguos and free_frames_contiguos

    /** Whether some naturally aligned run of 2^order pages is wholly free. */
    ghost predicate HasRun(order: nat)
      reads lists
    {
      exists addr: nat :: Offset(addr, order) == 0 && PagesOf(Block(order, addr)) <= FreePages()
    }

    /** A free run of an order exists exactly when a list of that order or above has an entry. */
    lemma RunNeedsEntry(order: nat)
      requires Valid() && order < FRAME_ORDERS
      ensures HasRun(order) <==> exists j :: order <= j < FRAME_ORDERS && lists[j] != []
    {
      if HasRun(order) {
        var addr: nat :| Offset(addr, order) == 0 && PagesOf(Block(order, addr)) <= FreePages();
        var c := RunInOneBlock(Free(), limit, Block(order, addr));
        InLists(lists[..], c);
        assert lists[c.order] != [];
      }
      if j :| order <= j < FRAME_ORDERS && lists[j] != [] {
        var b := Block(j, lists[j][0]);
        BlockAtHead(j);
        AlignedBelow(order, j, b.addr);
        SizeGrows(order, j);
        forall p | p in PagesOf(Block(order, b.addr)) ensures p in FreePages() {
          assert Holds(b, p);
        }
      }
    }

    /**
     The loop that looks for a larger block pops a list head without looking when two lists in a row
     above the wanted order are empty.  For the top order it reads the word behind the table instead.
     */
    ghost predicate ContiguousFaults(order: nat)
      requires lists.Length == FRAME_ORDERS && order < FRAME_ORDERS
      reads lists
    {
      && lists[order] == []
      && if order == TOP_ORDER then junkPastTable
         else order + 2 < FRAME_ORDERS && lists[order + 1] == [] && lists[order + 2] == []
    }

    /** alloc_frames_contiguos: the run is the front of the front block of the smallest order that has one. */
    method AllocContiguous(pages: nat) returns (r: RunResult)
      requires Valid() && 0 < pages && MinSizeOrder(pages) < FRAME_ORDERS
      modifies lists, buddies.words
      ensures var k := MinSizeOrder(pages);
              && (r.RunFault? <==> old(ContiguousFaults(k)))
              && (!r.RunFault? ==> Valid() && (r.RunAt? <==> old(HasRun(k))))
              && (r.NoRun? ==> unchanged(lists, buddies.words))
              && (r.RunAt? ==>
                    && WellFormed(Block(k, r.addr), limit) && PagesOf(Block(k, r.addr)) <= old(FreePages())
                    && FreePages() == old(FreePages()) - PagesOf(Block(k, r.addr)))
      ensures r.RunAt? ==>
                var l: ByOrder, k := old(lists[..]), MinSizeOrder(pages);
                var j := Least(l, k);
                j < FRAME_ORDERS && r.addr == l[j][0] && lists[..] == Popped(SplitDown(l, j, k), k)
    {
      hide MinSizeOrder, SplitDown, Popped, HasRun, AllWellFormed, PagesOf, Disjoint, NoBuddies, Pages;
      var wanted := MinSizeOrder(pages);
      RunNeedsEntry(wanted);
      ghost var l: ByOrder := lists[..];
      var order: int := wanted + 1;
      ghost var split := false;
      while lists[wanted] == []
        invariant wanted <= order <= FRAME_ORDERS && Consistent()
        invariant !split ==> order == wanted + 1 && unchanged(lists, buddies.words)
        invariant split ==> order < FRAME_ORDERS && FrontMayGo(order) && wanted < TOP_ORDER
        invariant split && wanted < order ==> lists[wanted] == []
        invariant split ==> !old(ContiguousFaults(wanted)) && old(HasRun(wanted))
        invariant FreePages() == old(FreePages())
        invariant !split ==> lists[..] == l
        invariant split ==>
                    order <= Least(l, wanted) < FRAME_ORDERS && lists[..] == SplitDown(l, Least(l, wanted), order)
        decreases !split, order
      {
        if order == FRAME_ORDERS && junkPastTable {
          return RunFault;
        }
        if order == FRAME_ORDERS || lists[order] == [] {
          order := order + 1;
          if order >= FRAME_ORDERS {
            return NoRun;
          }
        }
        // Nothing was tested about this list.
        if lists[order] == [] {
          return RunFault;
        }
        if !split {
          FrontCanGo(order);
          FoundLeast(wanted, order);
        }
        SplitToward(order, l, Least(l, wanted));
        order, split := order - 1, true;
      }
      if !split {
        FrontCanGo(wanted);
        FoundLeast(wanted, wanted);
      }
      SplitStart(l, Least(l, wanted), wanted);
      var b := TakeFront(wanted);
      r := RunAt(b.addr);
    }

    /** free_frames_contiguos */
    method FreeContiguous(addr: nat, pages: nat)
      requires Valid() && 0 < pages && MinSizeOrder(pages) < FRAME_ORDERS
      requires WellFormed(Block(MinSizeOrder(pages), addr), limit)
      requires PagesOf(Block(MinSizeOrder(pages), addr)) !! FreePages()
      modifies lists, buddies.words
      ensures Valid() && FreePages() == old(FreePages()) + PagesOf(Block(MinSizeOrder(pages), addr))
    {
      var b := Block(MinSizeOrder(pages), addr);
      PagesOfMore([], b);
      assert [] + [b] == [b];
      FreeFrames([b]);
    }

    // ----- remove_range

    /** The entry of one list whose block contains a page: its index, or the length of the list. */
    method FindContaining(order: nat, addr: nat) returns (i: nat)
      requires lists.Length == FRAME_ORDERS && order < FRAME_ORDERS
      ensures i <= |lists[order]| && (i < |lists[order]| ==> Holds(Block(order, lists[order][i]), addr))
      ensures i == |lists[order]| ==> forall b <- Free() :: b.order == order ==> !Holds(b, addr)
    {
      i := 0;
      while i < |lists[order]| && !Holds(Block(order, lists[order][i]), addr)
        invariant i <= |lists[order]|
        invariant forall j :: 0 <= j < i ==> !Holds(Block(order, lists[order][j]), addr)
      {
        i := i + 1;
      }
    }

    /** Nothing is left to merge once the one free block that holds this page is taken. */
    ghost predicate OwnerMayGo(owner: Block, addr: nat)
      requires Consistent()
      reads lists, buddies.words
    {
      owner in Free() && Holds(owner, addr) && NoBuddies(Free() - {owner})
    }

    /** Splits the block that holds a page; the half with the page becomes its owner. */
    method SplitOwner(order: nat, i: nat, addr: nat) returns (ghost owner: Block)
      requires Consistent() && 0 < order < FRAME_ORDERS && i < |lists[order]|
      requires OwnerMayGo(Block(order, lists[order][i]), addr)
      modifies lists, buddies.words
      ensures Consistent() && FreePages() == old(FreePages())
      ensures owner.order == order - 1 && OwnerMayGo(owner, addr)
    {
      ghost var b := Block(order, lists[order][i]);
      HalvesOf(b);
      Split(order, i);
      owner := if addr < RightHalf(b).addr then LeftHalf(b) else RightHalf(b);
      assert lists[order - 1] == lists[..][order - 1];
      assert lists[order - 1][0] == LeftHalf(b).addr && lists[order - 1][1] == RightHalf(b).addr;
      InLists(lists[..], owner);
    }

    /** One round of remove_range: takes the aligned block at addr out of whatever free block contains it. */
    method TakeAt(wanted: nat, addr: nat) returns (ok: bool)
      requires Valid() && wanted < FRAME_ORDERS && Offset(addr, wanted) == 0
      modifies lists, buddies.words
      ensures Valid() && (ok <==> PagesOf(Block(wanted, addr)) <= old(FreePages()))
      ensures ok ==> FreePages() == old(FreePages()) - PagesOf(Block(wanted, addr))
      ensures !ok ==> unchanged(lists, buddies.words)
    {
      ghost var target := Block(wanted, addr);
      ghost var found := false;
      ghost var owner := target;
      var order: int := TOP_ORDER;
      while order >= 0
        invariant wanted <= order <= TOP_ORDER && Consistent() && FreePages() == old(FreePages())
        invariant !found ==> unchanged(lists, buddies.words)
        invariant !found ==> forall b <- Free() :: order < b.order ==> !Holds(b, addr)
        invariant found ==> owner.order == order && OwnerMayGo(owner, addr) && PagesOf(target) <= old(FreePages())
        decreases order
      {
        var i := FindContaining(order, addr);
        if i == |lists[order]| {
          // No block of this order or above holds addr, so the target is not wholly free.
          if order == wanted {
            if PagesOf(target) <= FreePages() {
              var c := RunInOneBlock(Free(), limit, target);
              assert Holds(c, addr);
            }
            return false;
          }
          order := order - 1;
          continue;
        }
        ghost var b := Block(order, lists[order][i]);
        InLists(lists[..], b);
        if found {
          OwnerIsUnique(Free(), b, owner, addr);
        } else {
          LargeOwner(target, b, addr);
          RemoveBlock(Free(), limit, b);
        }
        if order == wanted {
          LargeOwner(target, b, addr);
          var taken := Take(order, i);
          return true;
        }
        owner := SplitOwner(order, i, addr);
        found := true;
        order := order - 1;
      }
    }

    /** The largest order a range starts on a boundary of and has room for. */
    method LargestAligned(addr: nat, size: nat) returns (order: nat)
      requires size > 0
      ensures order < FRAME_ORDERS && Offset(addr, order) == 0 && Size(order) <= size
      ensures order < TOP_ORDER ==> Offset(addr, order + 1) != 0 || size < Size(order + 1)
    {
      order := 1;
      while order < FRAME_ORDERS
        invariant 1 <= order <= FRAME_ORDERS && Offset(addr, order - 1) == 0 && Size(order - 1) <= size
      {
        if Offset(addr, order) != 0 || size < Size(order) {
          break;
        }
        order := order + 1;
      }
      order := order - 1;
    }

    lemma NextPiece(was: set<nat>, start: nat, done: nat, b: Block, size: nat)
      requires size > 0 && b.addr == start + done && b.order < FRAME_ORDERS && Offset(b.addr, b.order) == 0
      requires Size(b.order) <= size && PagesOf(b) !! Range(start, done)
      requires b.order < TOP_ORDER ==> Offset(b.addr, b.order + 1) != 0 || size < Size(b.order + 1)
      ensures Removable(was, b.addr, size) ==
              if PagesOf(b) <= was - Range(start, done)
              then Size(b.order) + Removable(was, b.addr + Size(b.order), size - Size(b.order)) else 0
    {
      PieceIs(b.addr, size, b.order, TOP_ORDER);
    }

    lemma NothingToRemove(was: set<nat>, addr: nat)
      ensures Removable(was, addr, 0) == 0
    {
    }

    /** remove_range; `done` is how many pages were removed, front to back. */
    method RemoveRange(start: nat, pages: nat) returns (ok: bool, ghost done: nat)
      requires Valid() && start + pages < PAGES_IN_64_BITS
      modifies lists, buddies.words
      ensures Valid() && (ok <==> Range(start, pages) <= old(FreePages()))
      ensures done <= pages && (ok <==> done == pages)
      ensures Range(start, done) <= old(FreePages()) && FreePages() == old(FreePages()) - Range(start, done)
      ensures done == Removable(old(FreePages()), start, pages)
    {
      hide Disjoint, NoBuddies, AllWellFormed, Pages, BlocksIn, Expected, Removable, PieceFrom;
      var addr: nat, size: nat := start, Wrapped(pages);
      done := 0;
      while size != 0
        invariant Valid() && addr == start + done && done + size == pages
        invariant Range(start, done) <= old(FreePages())
        invariant FreePages() == old(FreePages()) - Range(start, done)
        invariant done + Removable(old(FreePages()), addr, size) == Removable(old(FreePages()), start, pages)
        decreases size
      {
        var wanted := LargestAligned(addr, size);
        ghost var b := Block(wanted, addr);
        RangeOfMore(start, done, b);
        NextPiece(old(FreePages()), start, done, b, size);
        var taken := TakeAt(wanted, addr);
        if !taken {
          assert PagesOf(b) <= Range(start, pages);
          return false, done;
        }
        size := size - Size(wanted);
        addr := addr + Size(wanted);
        done := done + Size(wanted);
      }
      NothingToRemove(old(FreePages()), addr);
      ok := true;
    }

    /** Only pages of managed memory are ever free. */
    lemma FreeBelowLimit(p: nat)
      requires Consistent() && p in FreePages()
      ensures p < limit
    {
    }

    // ----- the loop that frees the boot-time regions, a caller of free_frames_contiguos

    method LargestReleasable(addr: nat, size: nat) returns (order: nat)
      requires size > 0
      ensures order < FRAME_ORDERS && Offset(addr, order) == 0 && Size(order) <= size
      ensures order < TOP_ORDER ==> Offset(addr, order + 1) != 0 || size < Size(order + 1)
    {
      order := 0;
      while order < FRAME_ORDERS
        invariant order <= FRAME_ORDERS && (order > 0 ==> Size(order - 1) <= size && Offset(addr, order - 1) == 0)
      {
        if Size(order) > size || Offset(addr, order) != 0 {
          break;
        }
        order := order + 1;
      }
      order := order - 1;
    }

    /** Frees a range in the largest aligned blocks that fit, front to back. */
    method ReleaseRange(start: nat, pages: nat)
      requires Valid() && start + pages < PAGES_IN_64_BITS && (pages > 0 ==> start + pages <= limit)
      requires Range(start, pages) !! FreePages()
      modifies lists, buddies.words
      ensures Valid() && FreePages() == old(FreePages()) + Range(start, pages)
    {
      hide Disjoint, NoBuddies, AllWellFormed, Pages, BlocksIn, Expected;
      var addr: nat, size: nat := start, Wrapped(pages);
      while size != 0
        invariant Valid() && start <= addr && addr + size == start + pages
        invariant FreePages() == old(FreePages()) + Range(start, addr - start)
        decreases size
      {
        var order := LargestReleasable(addr, size);
        BlockSizeOrder(order);
        ghost var b, done := Block(order, addr), addr - start;
        RangeOfMore(start, done, b);
        RangeOfRest(start, done, pages, b);
        FreeContiguous(addr, Size(order));
        size := size - Size(order);
        addr := addr + Size(order);
      }
    }
  }

  lemma RangeOfMore(start: nat, done: nat, b: Block)
    requires b.addr == start + done
    ensures Range(start, done + Size(b.order)) == Range(start, done) + PagesOf(b)
    ensures PagesOf(b) !! Range(start, done)
  {
    forall p: nat
      ensures p in Range(start, done + Size(b.order)) <==> p in Range(start, done) || p in PagesOf(b)
      ensures p in PagesOf(b) ==> p !in Range(start, done)
    {
      assert p in Range(start, done) <==> InRun(start, done, p);
      assert p in Range(start, done + Size(b.order)) <==> InRun(start, done + Size(b.order), p);
      assert p in PagesOf(b) <==> Holds(b, p);
    }
  }

  lemma RangeOfRest(start: nat, done: nat, pages: nat, b: Block)
    requires b.addr == start + done && done + Size(b.order) <= pages
    ensures PagesOf(b) <= Range(start, pages) - Range(start, done)
  {
  }

  /** Asking for exactly one block of an order asks for that order. */
  lemma BlockSizeOrder(order: nat)
    requires order < FRAME_ORDERS
    ensures MinSizeOrder(Size(order)) == order
  {
    MinSizeOrderIsLeast(Size(order), order);
    if order > 0 {
      MinSizeOrderIsLeast(Size(order), order - 1);
    }
  }

  lemma PairBound(addr: nat, size: nat)
    requires size > 0
    ensures addr / size / 2 <= addr / 2
  {
    QuotientTimesDivisor(addr, size);
    GrowsByFactor(addr / size, size);
  }

  lemma GrowsByFactor(q: nat, size: nat)
    requires size > 0
    ensures q <= size * q
  {
    assert (size - 1) * q >= 0;
  }
}
