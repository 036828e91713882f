/**
 The pool of small list entries.  Taking an entry from a pool that runs low first allocates a page of new
 ones, and that allocation takes and returns entries itself; raising the counter by the threshold is what
 keeps it from starting another refill.
 */
module EntryPool {
  import opened Blocks
  import opened Lists

  const THRESHOLD: nat := 20
  const ENTRY_BYTES: nat := 16
  const PAGE_ENTRIES: nat := PAGE_SIZE / ENTRY_BYTES

  /** What alloc_pages(1) does during a refill: its own uses of the pool, and the page that it returns. */
  datatype Refill = Refill(calls: seq<Call>, page: nat)

  /** A use of the pool.  Every get carries what its refill would do, should it start one. */
  datatype Call = Get(refill: Refill) | Free(entry: nat)

  // ----- what calls do to a pool that does not refill

  datatype Pool = Pool(list: seq<nat>, given: set<nat>)

  function Took(pool: Pool): Pool
    requires pool.list != []
  {
    Pool(pool.list[1..], pool.given + {pool.list[0]})
  }

  function GotBack(pool: Pool, entry: nat): Pool {
    Pool([entry] + pool.list, pool.given - {entry})
  }

  /** The calls return only entries that were given out; what follows a get from an empty list does not matter. */
  ghost predicate Legal(calls: seq<Call>, pool: Pool) {
    calls == [] ||
    match calls[0]
    case Get(_) => pool.list != [] ==> Legal(calls[1..], Took(pool))
    case Free(entry) => entry in pool.given && Legal(calls[1..], GotBack(pool, entry))
  }

  /** No get finds the list empty when it has so many entries. */
  predicate Served(calls: seq<Call>, available: nat) {
    calls == [] ||
    match calls[0]
    case Get(_) => available > 0 && Served(calls[1..], available - 1)
    case Free(_) => Served(calls[1..], available + 1)
  }

  ghost function After(calls: seq<Call>, pool: Pool): Pool
    requires Served(calls, |pool.list|)
  {
    if calls == [] then pool
    else match calls[0]
      case Get(_) => After(calls[1..], Took(pool))
      case Free(entry) => After(calls[1..], GotBack(pool, entry))
  }

  function Gets(calls: seq<Call>): nat {
    if calls == [] then 0 else (if calls[0].Get? then 1 else 0) + Gets(calls[1..])
  }

  /** A list of n entries serves any calls with at most n gets. */
  lemma {:induction false} FewGetsServed(calls: seq<Call>, available: nat)
    requires Gets(calls) <= available
    ensures Served(calls, available)
  {
    if calls != [] {
      FewGetsServed(calls[1..], if calls[0].Get? then available - 1 else available + 1);
    }
  }

  /** Entries are in the list or given out, never both; together they are the stock. */
  ghost predicate Conserved(pool: Pool, stock: set<nat>) {
    && NoRepeats(pool.list)
    && (forall e :: e in stock <==> e in pool.list || e in pool.given)
    && (forall e <- pool.list :: e !in pool.given)
  }

  lemma TakingConserves(pool: Pool, stock: set<nat>)
    requires Conserved(pool, stock) && pool.list != []
    ensures Conserved(Took(pool), stock) && pool.list[0] !in pool.given
  {
    assert pool.list == [pool.list[0]] + pool.list[1..];
  }

  lemma ReturningConserves(pool: Pool, stock: set<nat>, entry: nat)
    requires Conserved(pool, stock) && entry in pool.given
    ensures Conserved(GotBack(pool, entry), stock)
  {
  }

  lemma {:induction false} CallsConserve(calls: seq<Call>, pool: Pool, stock: set<nat>)
    requires Conserved(pool, stock) && Served(calls, |pool.list|) && Legal(calls, pool)
    ensures Conserved(After(calls, pool), stock)
  {
    if calls != [] {
      match calls[0]
      case Get(_) =>
        TakingConserves(pool, stock);
        CallsConserve(calls[1..], Took(pool), stock);
      case Free(entry) =>
        ReturningConserves(pool, stock, entry);
        CallsConserve(calls[1..], GotBack(pool, entry), stock);
    }
  }

  // ----- new entries

  /** The entries on a page of memory. */
  ghost function EntriesAt(addr: nat, count: nat): set<nat> {
    set i: nat | i < count :: addr + i * ENTRY_BYTES
  }

  /** A list with the entries of a page put in front, the last one first. */
  function Filled(addr: nat, count: nat, list: seq<nat>): (r: seq<nat>)
    ensures |r| == count + |list|
  {
    if count == 0 then list else [addr + (count - 1) * ENTRY_BYTES] + Filled(addr, count - 1, list)
  }

  lemma {:induction false} FilledAt(addr: nat, count: nat, list: seq<nat>, k: nat)
    requires k < count + |list|
    ensures Filled(addr, count, list)[k] == if k < count then addr + 16 * (count - 1 - k) else list[k - count]
  {
    if k > 0 && count > 0 {
      FilledAt(addr, count - 1, list, k - 1);
    }
  }

  /** The entries of a run of pages come in front, from the end of the last page down. */
  lemma LastEntryFirst(addr: nat, pages: nat, list: seq<nat>)
    ensures var filled := Filled(addr, pages * PAGE_ENTRIES, list);
            forall k: nat :: k < |filled| ==>
              filled[k] == if k < 256 * pages then addr + 4096 * pages - 16 * (k + 1) else list[k - 256 * pages]
  {
    var filled := Filled(addr, pages * PAGE_ENTRIES, list);
    forall k: nat | k < |filled|
      ensures filled[k] == if k < 256 * pages then addr + 4096 * pages - 16 * (k + 1) else list[k - 256 * pages]
    {
      FilledAt(addr, pages * PAGE_ENTRIES, list, k);
    }
  }

  lemma {:induction false} FillingConserves(addr: nat, count: nat, pool: Pool, stock: set<nat>)
    requires Conserved(pool, stock) && EntriesAt(addr, count) !! stock
    ensures Conserved(Pool(Filled(addr, count, pool.list), pool.given), stock + EntriesAt(addr, count))
  {
    if count == 0 {
      assert stock + EntriesAt(addr, 0) == stock;
    } else {
      var last := addr + (count - 1) * ENTRY_BYTES;
      assert last in EntriesAt(addr, count) && last !in EntriesAt(addr, count - 1);
      assert EntriesAt(addr, count) == EntriesAt(addr, count - 1) + {last};
      FillingConserves(addr, count - 1, pool, stock);
      ReturningConserves(Pool(Filled(addr, count - 1, pool.list), pool.given + {last}),
          stock + EntriesAt(addr, count), last);
      assert pool.given + {last} - {last} == pool.given;
    }
  }

  // ----- the pages that entries lie on

  /** The entries on these pages. */
  ghost function EntriesOn(pages: set<nat>): set<nat> {
    set page, e | page in pages && e in EntriesAt(page, PAGE_ENTRIES) :: e
  }

  /** So many pages from addr on. */
  ghost function PagesFrom(addr: nat, pages: nat): set<nat> {
    set i: nat | i < pages :: addr + 4096 * i
  }

  ghost predicate PageAligned(pages: set<nat>) {
    forall page <- pages :: page % 4096 == 0
  }

  predicate OnPage(page: nat, b: nat) {
    page <= b < page + 4096
  }

  /** The 16 bytes of an entry are on the page. */
  predicate LiesOn(page: nat, entry: nat) {
    page <= entry && entry + 16 <= page + 4096
  }

  /** The byte b belongs to the entry. */
  predicate Covers(entry: nat, b: nat) {
    entry <= b < entry + 16
  }

  /** Every entry has its 16 bytes on one of the pages, no two overlap, and together they fill the pages. */
  ghost predicate Spread(entries: set<nat>, pages: set<nat>) {
    && (forall e <- entries :: exists page <- pages :: LiesOn(page, e))
    && (forall e <- entries, f <- entries :: e != f ==> e + 16 <= f || f + 16 <= e)
    && (forall page, b :: page in pages && OnPage(page, b) ==> exists e <- entries :: Covers(e, b))
  }

  lemma EntryOnPage(page: nat, e: nat)
    requires e in EntriesAt(page, PAGE_ENTRIES)
    ensures LiesOn(page, e) && (e - page) % 16 == 0
  {
  }

  lemma PageIsFilled(page: nat, b: nat) returns (e: nat)
    requires OnPage(page, b)
    ensures e in EntriesAt(page, PAGE_ENTRIES) && Covers(e, b)
  {
    var i := (b - page) / 16;
    e := page + i * ENTRY_BYTES;
    assert i < PAGE_ENTRIES;
  }

  /** Entries laid out on different pages, page after page, never overlap. */
  lemma EntriesAreSpread(pages: set<nat>)
    requires PageAligned(pages)
    ensures Spread(EntriesOn(pages), pages)
  {
    hide EntriesAt;
    var entries := EntriesOn(pages);
    forall e | e in entries ensures exists page <- pages :: LiesOn(page, e) {
      var page :| page in pages && e in EntriesAt(page, PAGE_ENTRIES);
      EntryOnPage(page, e);
    }
    forall e, f | e in entries && f in entries && e != f ensures e + 16 <= f || f + 16 <= e {
      var page :| page in pages && e in EntriesAt(page, PAGE_ENTRIES);
      var other :| other in pages && f in EntriesAt(other, PAGE_ENTRIES);
      EntryOnPage(page, e);
      EntryOnPage(other, f);
      SixteenApart(page, e, other, f);
    }
    forall page, b | page in pages && OnPage(page, b) ensures exists e <- entries :: Covers(e, b) {
      var e := PageIsFilled(page, b);
      assert e in entries;
    }
  }

  lemma SixteenApart(page: nat, e: nat, other: nat, f: nat)
    requires page % 4096 == 0 && other % 4096 == 0 && e != f
    requires LiesOn(page, e) && (e - page) % 16 == 0
    requires LiesOn(other, f) && (f - other) % 16 == 0
    ensures e + 16 <= f || f + 16 <= e
  {
  }

  lemma EntryWithIndex(addr: nat, count: nat, i: nat)
    requires i < count
    ensures addr + i * 16 in EntriesAt(addr, count)
  {
  }

  lemma IndexOfEntry(addr: nat, count: nat, e: nat) returns (i: nat)
    requires e in EntriesAt(addr, count)
    ensures i < count && e == addr + i * 16
  {
    i :| i < count && addr + i * ENTRY_BYTES == e;
  }

  lemma PageWithIndex(addr: nat, pages: nat, k: nat)
    requires k < pages
    ensures addr + 4096 * k in PagesFrom(addr, pages)
  {
  }

  lemma IndexOfPage(addr: nat, pages: nat, page: nat) returns (k: nat)
    requires page in PagesFrom(addr, pages)
    ensures k < pages && page == addr + 4096 * k
  {
    k :| k < pages && addr + 4096 * k == page;
  }

  /** The entries of a run of pages are those of its pages. */
  lemma EntriesOfPages(addr: nat, pages: nat)
    ensures EntriesAt(addr, pages * PAGE_ENTRIES) == EntriesOn(PagesFrom(addr, pages))
  {
    hide EntriesAt, PagesFrom;
    assert PAGE_ENTRIES == 256;
    forall e | e in EntriesAt(addr, pages * PAGE_ENTRIES) ensures e in EntriesOn(PagesFrom(addr, pages)) {
      var i := IndexOfEntry(addr, pages * PAGE_ENTRIES, e);
      PageWithIndex(addr, pages, i / 256);
      EntryWithIndex(addr + 4096 * (i / 256), PAGE_ENTRIES, i % 256);
    }
    forall e | e in EntriesOn(PagesFrom(addr, pages)) ensures e in EntriesAt(addr, pages * PAGE_ENTRIES) {
      var page :| page in PagesFrom(addr, pages) && e in EntriesAt(page, PAGE_ENTRIES);
      var k := IndexOfPage(addr, pages, page);
      var j := IndexOfEntry(page, PAGE_ENTRIES, e);
      EntryWithIndex(addr, pages * PAGE_ENTRIES, 256 * k + j);
    }
  }

  /** Pages that were not there before bring entries that were not there before. */
  lemma NewPagesNewEntries(brought: set<nat>, more: set<nat>)
    requires PageAligned(brought) && PageAligned(more) && more !! brought
    ensures EntriesOn(more) !! EntriesOn(brought) && EntriesOn(brought + more) == EntriesOn(brought) + EntriesOn(more)
  {
    hide EntriesAt;
    forall e | e in EntriesOn(more) ensures e !in EntriesOn(brought) {
      var page :| page in more && e in EntriesAt(page, PAGE_ENTRIES);
      EntryOnPage(page, e);
      forall other | other in brought && e in EntriesAt(other, PAGE_ENTRIES) ensures false {
        EntryOnPage(other, e);
        OnePageOnly(page, other, e);
      }
    }
  }

  lemma OnePageOnly(page: nat, other: nat, e: nat)
    requires page % 4096 == 0 && other % 4096 == 0 && page <= e < page + 4096 && other <= e < other + 4096
    ensures page == other
  {
  }

  lemma OnePage(page: nat)
    ensures PagesFrom(page, 1) == {page}
  {
    assert page + 4096 * 0 in PagesFrom(page, 1);
    forall other | other in PagesFrom(page, 1) ensures other == page {
    }
  }

  ghost function AfterRefill(refill: Refill, pool: Pool): (r: Pool)
    requires Served(refill.calls, |pool.list|)
    ensures |r.list| >= PAGE_ENTRIES
  {
    var after := After(refill.calls, pool);
    Pool(Filled(refill.page, PAGE_ENTRIES, after.list), after.given)
  }

  // ----- whole runs

  /** What alloc_pages(1) returns: the address of a page that it has not returned before. */
  ghost predicate NewPage(page: nat, brought: set<nat>) {
    page % 4096 == 0 && page !in brought
  }

  /** Enough entries for a refill that starts at the threshold. */
  const SPARE: nat := THRESHOLD - 1

  /** Can this call be made, outside a refill?  `brought` has the pages of earlier refills. */
  ghost predicate Proper(call: Call, pool: Pool, brought: set<nat>) {
    match call
    case Free(entry) => entry in pool.given
    case Get(refill) =>
      |pool.list| < THRESHOLD ==>
        Gets(refill.calls) <= SPARE && Legal(refill.calls, pool) && NewPage(refill.page, brought)
  }

  ghost function AfterCall(call: Call, pool: Pool): (r: Pool)
    requires |pool.list| >= SPARE
    requires call.Get? && |pool.list| < THRESHOLD ==> Gets(call.refill.calls) <= SPARE
    ensures |r.list| >= SPARE
  {
    match call
    case Free(entry) => GotBack(pool, entry)
    case Get(refill) =>
      if |pool.list| >= THRESHOLD then Took(pool)
      else FewGetsServed(refill.calls, |pool.list|); Took(AfterRefill(refill, pool))
  }

  ghost function BroughtAfter(call: Call, pool: Pool, brought: set<nat>): set<nat> {
    if call.Get? && |pool.list| < THRESHOLD then brought + {call.refill.page} else brought
  }

  /** Every call of a run returns what was given out, and no refill takes more entries than are spare. */
  ghost predicate ProperRun(calls: seq<Call>, pool: Pool, brought: set<nat>)
    requires |pool.list| >= SPARE
  {
    calls == [] ||
    (Proper(calls[0], pool, brought)
     && ProperRun(calls[1..], AfterCall(calls[0], pool), BroughtAfter(calls[0], pool, brought)))
  }

  class EntryPool {
    var count: nat
    var list: seq<nat>
    /** Entries that are given out, and the pages that all entries lie on. */
    ghost var given: set<nat>
    ghost var brought: set<nat>

    constructor ()
      ensures Counts(false) && Valid() && list == [] && given == {} && brought == {}
    {
      count, list, given, brought := 0, [], {}, {};
    }

    ghost function Value(): Pool
      reads this
    {
      Pool(list, given)
    }

    ghost predicate Valid()
      reads this
    {
      Conserved(Value(), Stock()) && PageAligned(brought)
    }

    /** Every entry there is. */
    ghost function Stock(): set<nat>
      reads this
    {
      EntriesOn(brought)
    }

    /** The entries never overlap, and fill the pages brought. */
    lemma StockIsSpread()
      requires Valid()
      ensures Spread(Stock(), brought)
    {
      EntriesAreSpread(brought);
    }

    /** The counter is the length of the list, and more by the threshold while a refill is going on. */
    predicate Counts(refilling: bool)
      reads this
    {
      count == |list| + if refilling then THRESHOLD else 0
    }

    method Fill(addr: nat, pages: nat)
      requires Valid() && addr % 4096 == 0 && PagesFrom(addr, pages) !! brought
      modifies this
      ensures Valid() && count == old(count) + pages * PAGE_ENTRIES && given == old(given)
      ensures list == Filled(addr, pages * PAGE_ENTRIES, old(list))
      ensures forall k: nat :: k < |list| ==>
                list[k] == if k < 256 * pages then addr + 4096 * pages - 16 * (k + 1) else old(list)[k - 256 * pages]
      ensures brought == old(brought) + PagesFrom(addr, pages) && Spread(Stock(), brought)
    {
      EntriesOfPages(addr, pages);
      NewPagesNewEntries(brought, PagesFrom(addr, pages));
      var n := pages * PAGE_ENTRIES;
      var entry := addr;
      FillingConserves(addr, n, Value(), Stock());
      for i := 0 to n
        invariant entry == addr + i * ENTRY_BYTES && list == Filled(addr, i, old(list))
        invariant count == old(count) && given == old(given) && brought == old(brought)
      {
        list := [entry] + list;
        entry := entry + ENTRY_BYTES;
      }
      count := count + n;
      brought := brought + PagesFrom(addr, pages);
      StockIsSpread();
      LastEntryFirst(addr, pages, old(list));
    }

    /**
     get_memory_entry.  `fault` is the read of a null head.  A refill starts exactly outside a refill with
     fewer entries than the threshold, and whatever the calls inside it are, they start none.
     */
    method Get(refill: Refill, ghost refilling: bool) returns (entry: nat, fault: bool, refills: nat)
      requires Valid() && Counts(refilling)
      requires !refilling && |list| < THRESHOLD ==>
                 Legal(refill.calls, Value()) && NewPage(refill.page, brought)
      modifies this
      decreases refill, |refill.calls| + 1
      ensures refills == if !refilling && old(|list|) < THRESHOLD then 1 else 0
      ensures fault <==> if refills == 0 then old(list) == [] else !Served(refill.calls, old(|list|))
      ensures !fault ==> Valid() && Counts(refilling) && entry in given && Spread(Stock(), brought)
      ensures !fault && refills == 0 ==>
                entry == old(list)[0] && Value() == Took(old(Value())) && brought == old(brought)
                && list == old(list)[1..] && given == old(given) + {entry} && count == old(count) - 1
      ensures !fault && refills == 1 ==>
                var filled := AfterRefill(refill, old(Value()));
                entry == filled.list[0] && Value() == Took(filled)
                    && brought == old(brought) + {refill.page}
      ensures !fault && refills == 1 ==> entry == refill.page + 4080
    {
      hide Conserved, Spread, EntriesOn, Filled, Gets, PageAligned;
      refills := 0;
      if count < THRESHOLD {
        refills := 1;
        count := count + THRESHOLD;
        var inner;
        fault, inner := UseEntries(refill, 0);
        refills := refills + inner;
        if fault {
          return 0, true, refills;
        }
        OnePage(refill.page);
        assert {refill.page} !! brought;
        Fill(refill.page, 1);
        count := count - THRESHOLD;
      }
      if list == [] {
        return 0, true, refills;
      }
      StockIsSpread();
      TakingConserves(Value(), Stock());
      entry, fault := list[0], false;
      list, given := list[1..], given + {entry};
      count := count - 1;
    }

    /** free_memory_entry */
    method Free(entry: nat, ghost refilling: bool)
      requires Valid() && Counts(refilling) && entry in given
      modifies this
      ensures Valid() && Counts(refilling) && Value() == GotBack(old(Value()), entry) && brought == old(brought)
      ensures list == [entry] + old(list) && given == old(given) - {entry} && count == old(count) + 1
    {
      ReturningConserves(Value(), Stock(), entry);
      count := count + 1;
      list, given := [entry] + list, given - {entry};
    }

    /** The uses of the pool during a refill, from the i-th on. */
    method UseEntries(refill: Refill, i: nat) returns (fault: bool, refills: nat)
      requires i <= |refill.calls| && Valid() && Counts(true) && Legal(refill.calls[i..], Value())
      modifies this
      decreases refill, |refill.calls| - i
      ensures refills == 0
      ensures fault <==> !Served(refill.calls[i..], old(|list|))
      ensures !fault ==>
                Valid() && Counts(true) && Value() == After(refill.calls[i..], old(Value())) && brought == old(brought)
    {
      if i == |refill.calls| {
        return false, 0;
      }
      var call := refill.calls[i];
      assert refill.calls[i..][1..] == refill.calls[i + 1..];
      refills := 0;
      match call {
        case Get(inner) =>
          var _, nullHead, started := Get(inner, true);
          if nullHead {
            return true, started;
          }
          refills := started;
        case Free(entry) =>
          Free(entry, true);
      }
      var more;
      fault, more := UseEntries(refill, i + 1);
      refills := refills + more;
    }

    /**
     A whole run.  Started with enough spare entries, the pool never gives out a null entry, and it has
     enough spare entries again after every call.
     */
    method Run(calls: seq<Call>) returns (fault: bool)
      requires Valid() && Counts(false) && |list| >= SPARE && ProperRun(calls, Value(), brought)
      modifies this
      ensures !fault && Valid() && Counts(false) && |list| >= SPARE && Spread(Stock(), brought)
    {
      for i := 0 to |calls|
        invariant Valid() && Counts(false) && |list| >= SPARE && ProperRun(calls[i..], Value(), brought)
      {
        assert calls[i..][0] == calls[i] && calls[i..][1..] == calls[i + 1..];
        match calls[i] {
          case Get(refill) =>
            if |list| < THRESHOLD {
              FewGetsServed(refill.calls, |list|);
            }
            var _, nullHead, _ := Get(refill, false);
            if nullHead {
              return true;
            }
          case Free(entry) =>
            Free(entry, false);
        }
      }
      StockIsSpread();
      fault := false;
    }
  }
}
