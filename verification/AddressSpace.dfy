/**
 Mapping, unmapping and translation in one address space, page by page, through a cached location in
 the page tables.  Addresses are page numbers.  The pages that new tables are made of come from a
 stock of mapped, unused pages; running out of it is the "Out of memory" stop of the source.
 */
module AddressSpace {
  import opened PageTables
  import opened Processor

  datatype Level = PT | PD

  /** PagingFlags, one bit each. */
  datatype Flags = Flags(writable: bool, executable: bool, cacheDisable: bool, writeThrough: bool)

  datatype Location = Location(pdIndex: nat, pd: nat, ptIndex: nat, pt: nat)

  class AddressSpace {
    const mem: array<PageEntry>
    const pdp: nat
    /** pdp_index: the PML4 slot all addresses of the space share. */
    const slot: nat
    const prot: nat
    const isKernel: bool
    /** g_paging_execute_disable */
    const canDisableExecution: bool
    var pds: seq<Mapping>
    var pts: seq<Mapping>
    var stock: seq<Mapping>
    ghost var home: map<nat, Place>
    /** The frames that hold tables or are in stock for them; pages move from the stock to the lists. */
    ghost const tableFrames: set<nat>

    /**
     new_address_space: an empty PDP, in page 0 of the table memory, and a stock of table pages.  The
     protection is a four-bit field, and the kernel's own slots are out of bounds.
     */
    constructor (slot: nat, prot: nat, canDisableExecution: bool, pages: nat, stock: seq<Mapping>)
      requires slot < KERNEL_SLOT && prot <= 15 && pages > 0
      requires forall m <- stock :: 0 < m.page < pages && m.frame != 0
      requires forall i, j :: 0 <= i < j < |stock| ==>
                 stock[i].page != stock[j].page && stock[i].frame != stock[j].frame
      ensures Valid() && this.slot == slot && this.prot == prot && !isKernel && this.stock == stock
      ensures tableFrames == FramesOfTables(stock) && forall v: nat :: View(v).None?
      ensures fresh(mem)
    {
      this.slot, this.prot, this.canDisableExecution, this.isKernel := slot, prot, canDisableExecution, false;
      this.pdp, this.pds, this.pts, this.stock, this.home := 0, [], [], stock, map[];
      this.tableFrames := FramesOfTables(stock);
      this.mem := new PageEntry[ENTRIES * pages](_ => EMPTY);
      new;
      assert forall m <- stock :: ENTRIES * m.page + ENTRIES <= ENTRIES * pages;
    }

    /** The space of the kernel itself, in its own slot and with protection 0, before anything is mapped in it. */
    constructor Kernel(canDisableExecution: bool, pages: nat, stock: seq<Mapping>)
      requires pages > 0 && forall m <- stock :: 0 < m.page < pages && m.frame != 0
      requires forall i, j :: 0 <= i < j < |stock| ==>
                 stock[i].page != stock[j].page && stock[i].frame != stock[j].frame
      ensures Valid() && slot == KERNEL_SLOT && prot == 0 && isKernel && this.stock == stock && pds == []
      ensures tableFrames == FramesOfTables(stock) && forall v: nat :: View(v).None?
      ensures fresh(mem)
    {
      this.slot, this.prot, this.canDisableExecution, this.isKernel := KERNEL_SLOT, 0, canDisableExecution, true;
      this.pdp, this.pds, this.pts, this.stock, this.home := 0, [], [], stock, map[];
      this.tableFrames := FramesOfTables(stock);
      this.mem := new PageEntry[ENTRIES * pages](_ => EMPTY);
      new;
      assert forall m <- stock :: ENTRIES * m.page + ENTRIES <= ENTRIES * pages;
    }

    ghost function State(): Tables
      reads this, mem
    {
      Tables(pdp, pds, pts, mem[..], home)
    }

    ghost predicate Valid()
      reads this, mem
    {
      && GoodTree(State()) && GoodStock(State(), stock) && TablesIn(pds + pts + stock, tableFrames)
      && OpenLinks(State(), prot) && (isKernel ==> prot == 0)
    }

    /** The flat map: the leaf entry of a page that is mapped. */
    ghost function View(v: nat): Option<PageEntry>
      requires Valid()
      reads this, mem
    {
      ViewOf(State(), v)
    }

    /** What the processor reads at a byte address while this space is mapped. */
    ghost function Reads(a: nat): Option<Access>
      requires Valid()
      reads this, mem
    {
      Walk(State(), a)
    }

    /** A byte of a page that is mapped with these flags. */
    function AccessWith(addr: nat, flags: Flags): Access {
      Access(addr, flags.writable, prot == 3, flags.executable || !canDisableExecution, flags.cacheDisable,
             flags.writeThrough)
    }

    /** A page that is mapped is read by the processor byte by byte, with the rights its flags ask for. */
    lemma MappedIsRead(v: nat, frame: nat, flags: Flags)
      requires Valid() && MapsTo(View(v), frame, flags)
      ensures forall a: nat :: a / 4096 == v ==> Reads(a) == Some(AccessWith(4096 * frame + a % 4096, flags))
    {
      forall a: nat | a / 4096 == v ensures Reads(a) == Some(AccessWith(4096 * frame + a % 4096, flags)) {
        WalkReadsView(State(), prot, a);
      }
    }

    ghost predicate HasTables(i: nat, j: nat)
      requires Valid() && i < ENTRIES && j < ENTRIES
      reads this, mem
    {
      PtAt(State(), i, j).Some?
    }

    /** The cached location is where a full walk to this page ends. */
    ghost predicate Agrees(loc: Location, v: nat)
      requires Valid()
      reads this, mem
    {
      && loc.pdIndex == PdpIndex(v) && loc.ptIndex == PdIndex(v)
      && PdAt(State(), PdpIndex(v)) == Some(loc.pd) && PtAt(State(), PdpIndex(v), PdIndex(v)) == Some(loc.pt)
    }

    /** get_page_entries */
    method GetPageEntries(maps: seq<Mapping>, frame: nat) returns (table: Option<nat>)
      ensures table == Find(maps, frame)
    {
      var i := 0;
      while i < |maps|
        invariant i <= |maps| && Find(maps, frame) == Find(maps[i..], frame)
      {
        if maps[i].frame == frame {
          return Some(maps[i].page);
        }
        assert maps[i..][1..] == maps[i + 1..];
        i := i + 1;
      }
      table := None;
    }

    /** memset(page, 0, PAGE_SIZE) */
    method ZeroPage(page: nat)
      requires ENTRIES * page + ENTRIES <= mem.Length
      modifies mem
      ensures forall k :: 0 <= k < mem.Length ==>
                mem[k] == if ENTRIES * page <= k < ENTRIES * page + ENTRIES then EMPTY else old(mem[k])
    {
      for i := 0 to ENTRIES
        invariant forall k :: 0 <= k < mem.Length ==>
                    mem[k] == if ENTRIES * page <= k < ENTRIES * page + i then EMPTY else old(mem[k])
      {
        mem[ENTRIES * page + i] := EMPTY;
      }
    }

    /** An upper-level entry once a table hangs below it; the protection is set for spaces of processes only. */
    function LinkTo(e: PageEntry, frame: nat): (link: PageEntry)
      ensures link.present && link.frame == frame
      ensures OpenLink(e, prot) && (isKernel ==> prot == 0) ==> OpenLink(link, prot)
    {
      var link := e.(frame := frame, present := true, write := true);
      if isKernel then link else link.(prot := prot, user := prot == 3)
    }

    /** Links an entry to a page and zeroes that page. */
    method Hang(page: nat, index: nat, table: Mapping)
      requires IsPage(page, mem[..]) && IsPage(table.page, mem[..]) && page != table.page && index < ENTRIES
      modifies mem
      ensures LinkedTo(old(mem[..]), mem[..], Place(page, index), LinkTo(old(mem[512 * page + index]), table.frame),
              table.page)
    {
      mem[ENTRIES * page + index] := LinkTo(mem[ENTRIES * page + index], table.frame);
      ZeroPage(table.page);
    }

    /** Nothing hangs below an upper-level entry yet. */
    ghost predicate NoTable(index: nat, level: Level, parent: nat)
      requires Valid() && index < ENTRIES && parent < ENTRIES
      reads this, mem
    {
      if level == PD then PdAt(State(), index).None? else PtAt(State(), parent, index).None?
    }

    /** A page of the stock becomes the table below an empty upper-level entry. */
    method NewTable(page: nat, index: nat, level: Level, ghost parent: nat) returns (table: nat)
      requires Valid() && index < ENTRIES && parent < ENTRIES && stock != []
      requires level == PD ==> page == pdp && !At(mem[..], pdp, index).present
      requires level == PT ==>
                 PdAt(State(), parent) == Some(page) && IsPage(page, mem[..]) && !At(mem[..], page, index).present
      modifies this, mem
      ensures Valid() && SameMap(old(State()), State()) && stock == old(stock[1..]) && table == old(stock[0].page)
      ensures level == PD ==>
                PdAt(State(), index) == Some(table) && forall b: nat :: b < ENTRIES ==> NoTable(b, PT, index)
      ensures level == PT ==> PtAt(State(), parent, index) == Some(table)
      ensures LinkedTo(old(mem[..]), mem[..], Place(page, index),
              LinkTo(old(mem[512 * page + index]), old(stock[0].frame)), table)
    {
      hide SameMap, LinkedTo;
      ghost var before := State();
      FirstOfStock(before, stock);
      FindIsMember(pds, At(mem[..], pdp, parent).frame);
      assert OpenLink(At(mem[..], page, index), prot);
      var unused := stock[0];
      stock := stock[1..];
      if level == PD {
        pds := [unused] + pds;
      } else {
        pts := [unused] + pts;
      }
      home := home[unused.frame := Place(page, index)];
      ghost var link := LinkTo(mem[512 * page + index], unused.frame);
      Hang(page, index, unused);
      if level == PD {
        LinkPd(before, State(), index, unused, link);
      } else {
        LinkPt(before, State(), parent, index, unused, link);
      }
      HangKeepsLinks(before, State(), Place(page, index), unused, link, prot);
      StockAfterUse(before, State(), old(stock));
      table := unused.page;
    }

    /** How many tables the walk to a page lacks. */
    ghost function Missing(v: nat): nat
      requires Valid()
      reads this, mem
    {
      if NoTable(PdpIndex(v), PD, 0) then 2 else if NoTable(PdIndex(v), PT, PdpIndex(v)) then 1 else 0
    }

    /** An entry without a table names frame 0, where no table is. */
    lemma NotPresentNoTable(page: nat, index: nat, level: Level, parent: nat)
      requires Valid() && index < ENTRIES && parent < ENTRIES
      requires level == PD ==> page == pdp
      requires level == PT ==> PdAt(State(), parent) == Some(page)
      ensures IsPage(page, mem[..]) && (At(mem[..], page, index).present <==> !NoTable(index, level, parent))
    {
      FindIsMember(pds, At(mem[..], pdp, parent).frame);
      NoTableInFrameZero(pds, pdp, mem[..]);
      NoTableInFrameZero(pts, pdp, mem[..]);
      assert GoodLink(State(), page, index, if level == PD then pds else pts);
    }

    /**
     get_or_alloc_page_entries, for entry `index` of the table at `page`: the PDP when a directory is
     wanted, the directory of PDP entry `parent` when a page table is.
     */
    method GetOrAllocPageEntries(page: nat, index: nat, level: Level, ghost parent: nat) returns (table: Option<nat>)
      requires Valid() && index < ENTRIES && parent < ENTRIES
      requires level == PD ==> page == pdp
      requires level == PT ==> PdAt(State(), parent) == Some(page)
      modifies this, mem
      ensures Valid() && SameMap(old(State()), State())
      ensures |stock| >= old(|stock|) - 1
      ensures table.None? <==> old(stock == [] && NoTable(index, level, parent))
      ensures table.None? || !old(NoTable(index, level, parent)) ==> unchanged(this, mem)
      ensures |stock| == old(|stock|) - if table.Some? && old(NoTable(index, level, parent)) then 1 else 0
      ensures table.Some? && level == PD ==> PdAt(State(), index) == table
      ensures level == PD && table.Some? && old(NoTable(index, PD, parent)) ==>
                forall b: nat :: b < ENTRIES ==> NoTable(b, PT, index)
      ensures table.Some? && level == PT ==> PtAt(State(), parent, index) == table
    {
      FindIsMember(pds, At(mem[..], pdp, parent).frame);
      NotPresentNoTable(page, index, level, parent);
      var entry := mem[ENTRIES * page + index];
      assert entry == At(mem[..], page, index);
      if entry.present {
        if level == PD {
          assert GoodLink(State(), pdp, index, pds);
          table := GetPageEntries(pds, entry.frame);
        } else {
          assert GoodLink(State(), page, index, pts);
          table := GetPageEntries(pts, entry.frame);
        }
      } else if stock == [] {
        table := None;
      } else {
        var t := NewTable(page, index, level, parent);
        table := Some(t);
      }
    }

    /** populate_page_table_location; None exactly when more tables have to be made than there are pages in stock. */
    method Populate(v: nat, alloc: bool) returns (loc: Option<Location>)
      requires Valid() && (!alloc ==> HasTables(PdpIndex(v), PdIndex(v)))
      modifies this, mem
      ensures Valid() && SameMap(old(State()), State()) && |stock| >= old(|stock|) - 2
      ensures loc.Some? ==> Agrees(loc.value, v) && |stock| == old(|stock|) - if alloc then old(Missing(v)) else 0
      ensures loc.None? <==> alloc && old(|stock| < Missing(v))
      ensures !alloc ==> unchanged(this, mem)
    {
      var i, j := PdpIndex(v), PdIndex(v);
      var pd: Option<nat>;
      if alloc {
        pd := GetOrAllocPageEntries(pdp, i, PD, i);
      } else {
        pd := GetPageEntries(pds, mem[ENTRIES * pdp + i].frame);
      }
      if pd.None? {
        return None;
      }
      var pt: Option<nat>;
      if alloc {
        pt := GetOrAllocPageEntries(pd.value, j, PT, i);
      } else {
        FindIsMember(pds, At(mem[..], pdp, i).frame);
        pt := GetPageEntries(pts, mem[ENTRIES * pd.value + j].frame);
      }
      if pt.None? {
        return None;
      }
      loc := Some(Location(i, pd.value, j, pt.value));
    }

    /** Where page_table_traversal_helper goes from a page: on a new directory it assumes PT number 0. */
    function Landing(from: nat, v: nat): (j: nat)
      ensures j < ENTRIES
    {
      if PdpIndex(v) == PdpIndex(from) then PdIndex(v) else 0
    }

    /**
     page_table_traversal_helper: the cached location agrees with a full walk to v afterwards exactly
     when v lies below the same directory as before or in the first page table of its own.
     */
    method Traverse(v: nat, loc: Location, alloc: bool, ghost from: nat) returns (next: Option<Location>)
      requires Valid() && Agrees(loc, from) && (!alloc ==> HasTables(PdpIndex(v), Landing(from, v)))
      modifies this, mem
      ensures Valid() && SameMap(old(State()), State()) && |stock| >= old(|stock|) - 2
      ensures next.Some? ==> (Agrees(next.value, v) <==> PdpIndex(v) == PdpIndex(from) || PdIndex(v) == 0)
      ensures next.None? ==> alloc && old(|stock|) < 2
      ensures !alloc || v / 512 == from / 512 ==> unchanged(this, mem)
      ensures v / 512 == from / 512 ==> next.Some?
    {
      var i, j := PdpIndex(v), PdIndex(v);
      if i == loc.pdIndex && j == loc.ptIndex {
        return Some(loc);
      }
      var pd := Some(loc.pd);
      if i != loc.pdIndex {
        j := 0;
        if alloc {
          pd := GetOrAllocPageEntries(pdp, i, PD, i);
        } else {
          pd := GetPageEntries(pds, mem[ENTRIES * pdp + i].frame);
        }
        if pd.None? {
          return None;
        }
      }
      var pt: Option<nat>;
      if alloc {
        pt := GetOrAllocPageEntries(pd.value, j, PT, i);
      } else {
        FindIsMember(pds, At(mem[..], pdp, i).frame);
        pt := GetPageEntries(pts, mem[ENTRIES * pd.value + j].frame);
      }
      if pt.None? {
        return None;
      }
      next := Some(Location(i, pd.value, j, pt.value));
    }

    /** A store through the cached location: the flat map changes at that page only. */
    method SetLeaf(loc: Location, v: nat, e: PageEntry)
      requires Valid() && Agrees(loc, v)
      modifies mem
      ensures Valid() && SameTables(old(State()), State()) && stock == old(stock)
      ensures forall w: nat :: Slot(w) == Slot(v) ==>
                View(w) == if w == v then (if e.present then Some(e) else None) else old(View(w))
    {
      ghost var before := State();
      var k := PtIndex(v);
      FindsPages(before);
      WriteLeaf(before, PdpIndex(v), PdIndex(v), k, e);
      mem[ENTRIES * loc.pt + k] := e;
      assert State() == before.(mem := before.mem[512 * loc.pt + k := e]);
      LeafKeepsLinks(before, State(), PdpIndex(v), PdIndex(v), k, e, prot);
      forall w: nat | Slot(w) == Slot(v)
        ensures View(w) == if w == v then (if e.present then Some(e) else None) else ViewOf(before, w)
      {
        ChangedPage(before, State(), v, if e.present then Some(e) else None, w);
      }
    }

    // ----- ranges of pages

    /** A run of pages inside this address space. */
    ghost predicate InSpace(virt: nat, pages: nat) {
      forall v :: virt <= v < virt + pages ==> Slot(v) == slot
    }

    predicate HasFlags(e: PageEntry, flags: Flags) {
      && e.write == flags.writable && e.cacheDisable == flags.cacheDisable && e.writeThrough == flags.writeThrough
      && e.executeDisable == (!flags.executable && canDisableExecution)
    }

    /** The entry that maps a page to a frame with the given flags and the protection of this space. */
    predicate MapsTo(r: Option<PageEntry>, frame: int, flags: Flags) {
      && r.Some? && r.value.present && r.value.frame == frame && HasFlags(r.value, flags)
      && r.value.prot == prot && r.value.user == (prot == 3)
    }

    /** set_flags */
    function WithFlags(e: PageEntry, flags: Flags): (r: PageEntry)
      ensures HasFlags(r, flags) && r.frame == e.frame && r.present == e.present && r.prot == e.prot && r.user == e.user
    {
      e.(write := flags.writable, cacheDisable := flags.cacheDisable, writeThrough := flags.writeThrough,
         executeDisable := !flags.executable && canDisableExecution)
    }

    /** One round of map_range_helper. */
    method MapPage(v: nat, frame: nat, flags: Flags, loc: Location, ghost from: nat) returns (here: Option<Location>)
      requires Valid() && Agrees(loc, from) && (from == v || from + 1 == v) && Slot(v) == slot
      modifies this, mem
      ensures Valid() && SameTables(old(State()), State()) && |stock| >= old(|stock|) - 2
      ensures here.None? ==> old(|stock|) < 2 && SameMap(old(State()), State())
      ensures here.Some? ==> Agrees(here.value, v) && MapsTo(View(v), frame, flags)
      ensures here.Some? ==>
                forall a: nat :: a / 4096 == v ==> Reads(a) == Some(AccessWith(4096 * frame + a % 4096, flags))
      ensures v / 512 == from / 512 ==> here.Some? && stock == old(stock)
      ensures SameOutside(old(State()), State(), slot, v, v + 1)
    {
      hide Unrelated, GoodLink, Find;
      NextPage(from);
      here := Traverse(v, loc, true, from);
      if here.Some? {
        FindsPages(State());
        var e := mem[ENTRIES * here.value.pt + PtIndex(v)];
        e := WithFlags(e.(frame := frame, present := true), flags);
        SetLeaf(here.value, v, e.(prot := prot, user := prot == 3));
        MappedIsRead(v, frame, flags);
      }
    }

    ghost function Mapped(virt: nat, frame: nat, flags: Flags): (nat, Option<PageEntry>) -> bool {
      (v, r) => MapsTo(r, frame + v - virt, flags)
    }

    /** Page i of the run is mapped to the i-th frame of the list. */
    ghost function ListMapped(virt: nat, list: seq<nat>, flags: Flags): (nat, Option<PageEntry>) -> bool {
      (v: nat, r: Option<PageEntry>) => virt <= v < virt + |list| ==> MapsTo(r, list[v - virt], flags)
    }

    /**
     map_range_helper: maps consecutive pages to consecutive frames, starting from a location that
     agrees with the first page or the page before it.
     */
    method MapRange(virt: nat, frame: nat, pages: nat, flags: Flags, loc: Location, ghost from: nat)
      returns (last: Option<Location>)
      requires Valid() && Agrees(loc, from) && (from == virt || from + 1 == virt) && InSpace(virt, pages)
      modifies this, mem
      ensures Valid() && SameTables(old(State()), State()) && |stock| >= old(|stock|) - 2 * pages
      ensures last.None? ==> old(|stock|) < 2 * pages
      ensures last.Some? ==> Agrees(last.value, if pages == 0 then from else virt + pages - 1)
      ensures last.Some? ==> AllGood(State(), virt, virt + pages, Mapped(virt, frame, flags))
      ensures SameOutside(old(State()), State(), slot, virt, virt + pages)
    {
      hide GoodTree, GoodStock, TablesIn, SameTables, SameOutside, AllGood, Leaf, PtAt, PdAt, Find;
      last := Some(loc);
      ghost var before := State();
      NoPageYet(before, slot, virt, Mapped(virt, frame, flags));
      for i := 0 to pages
        invariant Valid() && SameTables(before, State()) && |stock| >= old(|stock|) - 2 * i
        invariant last.Some? && Agrees(last.value, if i == 0 then from else virt + i - 1)
        invariant AllGood(State(), virt, virt + i, Mapped(virt, frame, flags))
        invariant SameOutside(before, State(), slot, virt, virt + i)
      {
        ghost var now := State();
        last := MapPage(virt + i, frame + i, flags, last.value, if i == 0 then from else virt + i - 1);
        if last.None? {
          NoPageMore(before, now, State(), slot, virt, virt + i, virt + pages);
          return;
        }
        OnePageMore(before, now, State(), slot, virt, virt + i, Mapped(virt, frame, flags));
      }
    }

    // ----- filling an entry when the kernel's pool of table pages runs low

    /** A page of the stock becomes the page table below an entry, whatever hung there. */
    method ReplaceTable(page: nat, index: nat, ghost parent: nat) returns (table: nat)
      requires Valid() && index < ENTRIES && parent < ENTRIES && stock != [] && PdAt(State(), parent) == Some(page)
      modifies this, mem
      ensures Valid() && stock == old(stock[1..]) && PtAt(State(), parent, index) == Some(table)
      ensures forall w: nat :: View(w) == if PdpIndex(w) == parent && PdIndex(w) == index then None else old(View(w))
    {
      hide LinkedTo;
      ghost var before := State();
      FirstOfStock(before, stock);
      FindIsMember(pds, At(mem[..], pdp, parent).frame);
      assert OpenLink(At(mem[..], page, index), prot);
      var unused := stock[0];
      stock := stock[1..];
      pts := [unused] + pts;
      home := home[unused.frame := Place(page, index)];
      ghost var link := LinkTo(mem[512 * page + index], unused.frame);
      Hang(page, index, unused);
      RelinkPt(before, State(), parent, index, unused, link);
      HangKeepsLinks(before, State(), Place(page, index), unused, link, prot);
      StockAfterUse(before, State(), old(stock));
      table := unused.page;
      forall w: nat
        ensures View(w) == if PdpIndex(w) == parent && PdIndex(w) == index then None else ViewOf(before, w)
      {
        assert View(w) == Leaf(State(), PdpIndex(w), PdIndex(w), PtIndex(w));
      }
    }

    /** Maps the pages of a refill, with the frames in the order of their allocation. */
    method MapList(virt: nat, list: seq<nat>, flags: Flags) returns (ok: bool)
      requires Valid() && InSpace(virt, |list|) && list != []
      modifies this, mem
      ensures Valid()
      ensures ok ==> SameTables(old(State()), State())
      ensures ok ==> AllGood(State(), virt, virt + |list|, ListMapped(virt, list, flags))
      ensures ok ==> SameOutside(old(State()), State(), slot, virt, virt + |list|)
      ensures (virt + |list| - 1) / 512 == virt / 512 && old(|stock| >= Missing(virt)) ==> ok
      ensures (virt + |list| - 1) / 512 == virt / 512 && ok ==> |stock| == old(|stock| - Missing(virt))
    {
      hide GoodTree, GoodStock, TablesIn, SameTables, SameMap, SameOutside, AllGood, Leaf, PtAt, PdAt, Find,
           AddressSpace.NoTable;
      ghost var before := State();
      var loc := Populate(virt, true);
      if loc.None? {
        return false;
      }
      ghost var mid := State();
      ghost var left := |stock|;
      NoPageYet(mid, slot, virt, ListMapped(virt, list, flags));
      for i := 0 to |list|
        invariant Valid() && SameTables(mid, State()) && loc.Some?
        invariant Agrees(loc.value, if i == 0 then virt else virt + i - 1)
        invariant AllGood(State(), virt, virt + i, ListMapped(virt, list, flags))
        invariant SameOutside(mid, State(), slot, virt, virt + i)
        invariant (virt + |list| - 1) / 512 == virt / 512 ==> |stock| == left
      {
        ghost var now := State();
        loc := MapPage(virt + i, list[i], flags, loc.value, if i == 0 then virt else virt + i - 1);
        if loc.None? {
          return false;
        }
        OnePageMore(mid, now, State(), slot, virt, virt + i, ListMapped(virt, list, flags));
      }
      NothingThenChanged(before, mid, State(), slot, virt, virt + |list|);
      TablesStay(before, mid, State());
      ok := true;
    }

    /** The directory below an entry of the PDP. */
    method Directory(i: nat) returns (pd: nat)
      requires Valid() && i < ENTRIES && PdAt(State(), i).Some?
      ensures PdAt(State(), i) == Some(pd)
    {
      var found := GetPageEntries(pds, mem[ENTRIES * pdp + i].frame);
      pd := found.value;
    }

    /** The pages of a refill as they are mapped before the entry is filled. */
    ghost predicate Refilled(mid: Tables, virt: nat, list: seq<nat>, flags: Flags) {
      GoodTree(mid) && AllGood(mid, virt, virt + |list|, ListMapped(virt, list, flags))
    }

    /**
     get_or_alloc_page_entries for a page table of the kernel's own space.  With no more than ten pages in
     stock it first maps those of a refill, at `virt`, and does not look at the entry again: of everything
     mapped by then, exactly what lies below that entry is lost.  (The new pages do not join the stock here.)
     */
    method FillEntry(v: nat, virt: nat, list: seq<nat>, flags: Flags) returns (filled: bool, ghost mid: Tables)
      requires Valid() && isKernel && Slot(v) == slot && InSpace(virt, |list|) && |list| == PAGE_POOL_THRESHOLD
      requires PdAt(State(), PdpIndex(v)).Some? && NoTable(PdIndex(v), PT, PdpIndex(v))
      modifies this, mem
      ensures Valid()
      ensures filled && old(|stock|) > PAGE_POOL_THRESHOLD ==> forall w: nat :: View(w) == old(View(w))
      ensures filled && old(|stock|) <= PAGE_POOL_THRESHOLD ==>
                && Refilled(mid, virt, list, flags) && SameOutside(old(State()), mid, slot, virt, virt + |list|)
                && forall w: nat :: Slot(w) == slot ==>
                     View(w) == if w / 512 == v / 512 then None else ViewOf(mid, w)
      ensures (virt + |list| - 1) / 512 == virt / 512 && old(|stock| >= Missing(virt) + 1) ==> filled
    {
      hide GoodTree, GoodStock, TablesIn, SameTables, SameMap, SameOutside, AllGood, Leaf, Find;
      var i, j := PdpIndex(v), PdIndex(v);
      mid := State();
      var pd := Directory(i);
      forall w: nat | PdpIndex(w) == i && PdIndex(w) == j ensures View(w).None? {
        NothingWithoutTable(mid, w);
      }
      if |stock| <= PAGE_POOL_THRESHOLD {
        filled := MapList(virt, list, flags);
        if !filled {
          return;
        }
        DirectoryStays(mid, State(), i);
        mid := State();
      }
      if stock == [] {
        return false, mid;
      }
      var table := ReplaceTable(pd, j, i);
      filled := true;
      forall w: nat | Slot(w) == slot ensures PdpIndex(w) == i && PdIndex(w) == j <==> w / 512 == v / 512 {
        SameTableSameQuotient(v, w);
      }
    }

    /** Every page of the run is reached by a full walk, as the source asserts along the way. */
    ghost predicate Walkable(virt: nat, pages: nat)
      requires Valid()
      reads this, mem
    {
      HasTables(PdpIndex(virt), PdIndex(virt)) && WalkableIn(State(), virt, pages)
    }

    /** One step of a walk over existing tables. */
    method Advance(v: nat, loc: Location, ghost from: nat) returns (here: Location)
      requires Valid() && Agrees(loc, from) && (from == v || from + 1 == v) && HasTables(PdpIndex(v), PdIndex(v))
      modifies this, mem
      ensures unchanged(this, mem) && Agrees(here, v) && IsPage(here.pt, mem[..])
    {
      NextPage(from);
      var next := Traverse(v, loc, false, from);
      here := next.value;
      FindsPages(State());
    }

    ghost function Unmapped(): (nat, Option<PageEntry>) -> bool {
      (v: nat, r: Option<PageEntry>) => r.None?
    }

    /** The walk to a page that is mapped, and the frame it is mapped to. */
    method Peek(v: nat, loc: Location, ghost from: nat) returns (here: Location, frame: nat)
      requires Valid() && Agrees(loc, from) && (from == v || from + 1 == v) && View(v).Some?
      modifies this, mem
      ensures unchanged(this, mem) && Agrees(here, v) && frame == View(v).value.frame
    {
      here := Advance(v, loc, from);
      frame := mem[ENTRIES * here.pt + PtIndex(v)].frame;
    }

    /** Clears the entry of a page. */
    method Wipe(v: nat, here: Location)
      requires Valid() && Agrees(here, v) && Slot(v) == slot
      modifies mem
      ensures Valid() && SameTables(old(State()), State()) && stock == old(stock)
      ensures Agrees(here, v) && View(v).None? && SameOutside(old(State()), State(), slot, v, v + 1)
    {
      SetLeaf(here, v, EMPTY);
    }

    /** One round of the loop of unmap_range. */
    method ClearPage(v: nat, loc: Location, ghost from: nat) returns (here: Location)
      requires Valid() && Agrees(loc, from) && (from == v || from + 1 == v) && HasTables(PdpIndex(v), PdIndex(v))
      requires Slot(v) == slot
      modifies this, mem
      ensures Valid() && SameTables(old(State()), State()) && stock == old(stock)
      ensures Agrees(here, v) && View(v).None? && SameOutside(old(State()), State(), slot, v, v + 1)
    {
      here := Advance(v, loc, from);
      Wipe(v, here);
    }

    /** The loop of unmap_range. */
    method ClearRange(virt: nat, pages: nat)
      requires Valid() && InSpace(virt, pages) && Walkable(virt, pages)
      modifies this, mem
      ensures Valid() && SameTables(old(State()), State()) && stock == old(stock)
      ensures AllGood(State(), virt, virt + pages, Unmapped())
      ensures SameOutside(old(State()), State(), slot, virt, virt + pages)
    {
      hide GoodTree, GoodStock, TablesIn, SameTables, SameOutside, AllGood, WalkableIn, Leaf, PtAt, PdAt, Find;
      var loc := Populate(virt, false);
      var here := loc.value;
      ghost var before := State();
      NoPageYet(before, slot, virt, Unmapped());
      for i := 0 to pages
        invariant Valid() && SameTables(before, State()) && stock == old(stock)
        invariant Agrees(here, if i == 0 then virt else virt + i - 1)
        invariant AllGood(State(), virt, virt + i, Unmapped())
        invariant SameOutside(before, State(), slot, virt, virt + i)
      {
        ghost var now := State();
        StaysWalkable(before, now, virt, pages, virt + i);
        here := ClearPage(virt + i, here, if i == 0 then virt else virt + i - 1);
        OnePageMore(before, now, State(), slot, virt, virt + i, Unmapped());
      }
    }

    ghost function Reflagged(was: Tables, flags: Flags): (nat, Option<PageEntry>) -> bool
      requires GoodTree(was)
    {
      (v: nat, r: Option<PageEntry>) => ViewOf(was, v).Some? && r == Some(WithFlags(ViewOf(was, v).value, flags))
    }

    /** One round of the loop of range_set_flags. */
    method ReflagPage(v: nat, flags: Flags, loc: Location, ghost from: nat) returns (here: Location, ok: bool)
      requires Valid() && Agrees(loc, from) && (from == v || from + 1 == v) && HasTables(PdpIndex(v), PdIndex(v))
      requires Slot(v) == slot
      modifies this, mem
      ensures Valid() && SameTables(old(State()), State()) && stock == old(stock)
      ensures Agrees(here, v) && (ok <==> old(View(v)).Some?)
      ensures if ok then View(v) == Some(WithFlags(old(View(v)).value, flags)) else unchanged(this, mem)
      ensures SameOutside(old(State()), State(), slot, v, v + 1)
    {
      here := Advance(v, loc, from);
      var e := mem[ENTRIES * here.pt + PtIndex(v)];
      ok := e.present;
      if ok {
        SetLeaf(here, v, WithFlags(e, flags));
      }
    }

    /** range_set_flags: stops at the first page that is not mapped. */
    method RangeSetFlags(virt: nat, pages: nat, flags: Flags) returns (ok: bool, ghost done: nat)
      requires Valid() && InSpace(virt, pages) && Walkable(virt, pages)
      modifies this, mem
      ensures Valid() && SameTables(old(State()), State()) && stock == old(stock)
      ensures done <= pages && (ok <==> done == pages) && (!ok ==> old(View(virt + done)).None?)
      ensures AllGood(State(), virt, virt + done, Reflagged(old(State()), flags))
      ensures SameOutside(old(State()), State(), slot, virt, virt + done)
    {
      hide GoodTree, GoodStock, TablesIn, SameTables, SameOutside, AllGood, WalkableIn, Leaf, PtAt, PdAt, Find;
      var loc := Populate(virt, false);
      var here := loc.value;
      ghost var before := State();
      NoPageYet(before, slot, virt, Reflagged(before, flags));
      done := 0;
      for i := 0 to pages
        invariant Valid() && SameTables(before, State()) && stock == old(stock) && done == i
        invariant Agrees(here, if i == 0 then virt else virt + i - 1)
        invariant AllGood(State(), virt, virt + i, Reflagged(before, flags))
        invariant SameOutside(before, State(), slot, virt, virt + i)
      {
        ghost var now := State();
        StaysWalkable(before, now, virt, pages, virt + i);
        OutsideIsSame(before, now, slot, virt, virt + i, virt + i);
        here, ok := ReflagPage(virt + i, flags, here, if i == 0 then virt else virt + i - 1);
        if !ok {
          return;
        }
        OnePageMore(before, now, State(), slot, virt, virt + i, Reflagged(before, flags));
        done := done + 1;
      }
      ok := true;
    }

    /** virt_to_phys_addr, from byte address to byte address */
    method VirtToPhys(addr: nat) returns (phys: Option<nat>)
      requires Valid()
      ensures phys == match View(addr / 4096) case None => None case Some(e) => Some(4096 * e.frame + addr % 4096)
      ensures phys == match Reads(addr) case None => None case Some(access) => Some(access.addr)
    {
      hide Walk, GoodLink, Unrelated, OpenLink;
      WalkReadsView(State(), prot, addr);
      var v := addr / 4096;
      FindsPages(State());
      var pd := GetPageEntries(pds, mem[ENTRIES * pdp + PdpIndex(v)].frame);
      if pd.None? {
        return None;
      }
      FindIsMember(pds, At(mem[..], pdp, PdpIndex(v)).frame);
      var pt := GetPageEntries(pts, mem[ENTRIES * pd.value + PdIndex(v)].frame);
      if pt.None? {
        return None;
      }
      FindIsMember(pts, At(mem[..], pd.value, PdIndex(v)).frame);
      var e := mem[ENTRIES * pt.value + PtIndex(v)];
      if !e.present {
        return None;
      }
      phys := Some(4096 * e.frame + addr % 4096);
    }
  }

  lemma SameTableSameQuotient(v: nat, w: nat)
    requires Slot(v) == Slot(w)
    ensures PdpIndex(w) == PdpIndex(v) && PdIndex(w) == PdIndex(v) <==> w / 512 == v / 512
  {
    SameQuotient(v / 512, w / 512);
    SameQuotient(v / 512 / 512, w / 512 / 512);
  }

  /**
   The first page that the kernel maps, with few table pages: it fills the entry of its page table, and the
   refill that this starts maps ten pages behind it.  They lie below the same entry, and all of them are lost.
   */
  method RefillLosesPages(list: seq<nat>, flags: Flags) returns (space: AddressSpace, ghost mid: Tables)
    requires |list| == PAGE_POOL_THRESHOLD
    ensures space.Valid() && space.slot == KERNEL_SLOT
    ensures var first := KERNEL_SLOT * 512 * 512 * 512 + 1;
            && space.Refilled(mid, first, list, flags)
            && forall w: nat :: first <= w < first + |list| ==> space.View(w).None?
  {
    hide GoodTree, GoodStock, TablesIn, SameMap, AllGood, Leaf, AddressSpace.Refilled;
    var v := KERNEL_SLOT * 512 * 512 * 512;
    space := new AddressSpace.Kernel(false, 4, [Mapping(1, 1), Mapping(2, 2), Mapping(3, 3)]);
    FirstPages(v);
    var pd := space.GetOrAllocPageEntries(space.pdp, 0, PD, 0);
    var filled;
    filled, mid := space.FillEntry(v, v + 1, list, flags);
  }

  lemma FirstPages(v: nat)
    requires v == KERNEL_SLOT * 512 * 512 * 512
    ensures Slot(v) == KERNEL_SLOT && PdpIndex(v) == 0 && PdIndex(v) == 0
    ensures forall w: nat :: v <= w < v + 512 ==> Slot(w) == KERNEL_SLOT && w / 512 == v / 512
  {
  }
}
