/**
 The three levels of tables below one PML4 slot, as values: a PDP of page directories, each a
 directory of page tables, each a table of leaf entries (section 4.5 of the Intel 64 and IA-32
 Software Developer's Manual, Volume 3A).  All tables live in one memory of page entries, 512 to a
 page; a table pointer is the number of its page in that memory.  Entries hold frame numbers, and the
 mapping lists turn the frame of a table back into its pointer.
 */
module PageTables {

  datatype Option<T> = None | Some(value: T)

  const ENTRIES: nat := 512
  /** The PML4 slot of the kernel. */
  const KERNEL_SLOT: nat := 480
  const PAGE_POOL_THRESHOLD: nat := 10

  datatype PageEntry = PageEntry(present: bool, write: bool, user: bool, writeThrough: bool,
                                 cacheDisable: bool, frame: nat, prot: nat, executeDisable: bool)

  const EMPTY: PageEntry := PageEntry(false, false, false, false, false, 0, 0, false)

  // ----- virtual page numbers

  /** GET_LEVEL_INDEX of a page number, for the levels PT, PD and PDP: nine bits each. */
  function PtIndex(v: nat): (i: nat)
    ensures i < ENTRIES
  {
    v % 512
  }

  function PdIndex(v: nat): (i: nat)
    ensures i < ENTRIES
  {
    v / 512 % 512
  }

  function PdpIndex(v: nat): (i: nat)
    ensures i < ENTRIES
  {
    v / 512 / 512 % 512
  }

  /** The PML4 slot of a page. */
  function Slot(v: nat): nat {
    v / 512 / 512 / 512
  }

  /** The slot and the indices are the digits of the page number, and so identify the page. */
  lemma DigitsOfPage(v: nat, w: nat)
    ensures v == ((Slot(v) * 512 + PdpIndex(v)) * 512 + PdIndex(v)) * 512 + PtIndex(v)
    ensures Slot(v) == Slot(w) && PdpIndex(v) == PdpIndex(w) && PdIndex(v) == PdIndex(w) && PtIndex(v) == PtIndex(w)
       <==> v == w
  {
    SameQuotient(v, w);
    SameQuotient(v / 512, w / 512);
    SameQuotient(v / 512 / 512, w / 512 / 512);
  }

  lemma SameQuotient(v: nat, w: nat)
    ensures v == w <==> v / 512 == w / 512 && v % 512 == w % 512
  {
  }

  /** Stepping to the next page moves to a new PDP index only with PD index 0. */
  lemma NextPage(v: nat)
    ensures PdpIndex(v + 1) == PdpIndex(v) || PdIndex(v + 1) == 0
  {
    NextQuotient(v);
    NextQuotient(v / 512);
  }

  lemma NextQuotient(v: nat)
    ensures (v + 1) / 512 == v / 512 || ((v + 1) / 512 == v / 512 + 1 && (v + 1) % 512 == 0)
  {
  }

  // ----- tables and mapping lists

  datatype Mapping = Mapping(frame: nat, page: nat)

  /** Where an upper-level entry lives: the page of its table and its index there. */
  datatype Place = Place(page: nat, index: nat)

  /** `home` records, for the frame of every table below the PDP, the one entry that names it. */
  datatype Tables = Tables(pdp: nat, pds: seq<Mapping>, pts: seq<Mapping>, mem: seq<PageEntry>, home: map<nat, Place>)

  /** The pointer get_page_entries returns for a frame, if any. */
  function Find(maps: seq<Mapping>, frame: nat): Option<nat> {
    if maps == [] then None
    else if maps[0].frame == frame then Some(maps[0].page)
    else Find(maps[1..], frame)
  }

  predicate IsPage(page: nat, mem: seq<PageEntry>) {
    ENTRIES * page + ENTRIES <= |mem|
  }

  function At(mem: seq<PageEntry>, page: nat, i: nat): PageEntry
    requires IsPage(page, mem) && i < ENTRIES
  {
    mem[512 * page + i]
  }

  /** No pointer and no frame twice in one list; all of them real pages, and none in frame 0. */
  ghost predicate GoodMaps(maps: seq<Mapping>, pdp: nat, mem: seq<PageEntry>) {
    && (forall m <- maps :: IsPage(m.page, mem) && m.page != pdp && m.frame != 0)
    && (forall i, j :: 0 <= i < j < |maps| ==> maps[i].page != maps[j].page && maps[i].frame != maps[j].frame)
  }

  ghost predicate Unrelated(one: seq<Mapping>, two: seq<Mapping>) {
    forall m <- one, n <- two :: m.page != n.page && m.frame != n.frame
  }

  /** An upper-level entry is either empty or names a table of the given list that no other entry names. */
  ghost predicate GoodLink(t: Tables, page: nat, i: nat, maps: seq<Mapping>)
    requires IsPage(page, t.mem) && i < ENTRIES
  {
    var e := At(t.mem, page, i);
    if e.present then Find(maps, e.frame).Some? && e.frame in t.home && t.home[e.frame] == Place(page, i)
    else e.frame == 0
  }

  /** The table tree is well linked and no table hangs below two entries. */
  ghost predicate GoodTree(t: Tables) {
    && IsPage(t.pdp, t.mem)
    && GoodMaps(t.pds, t.pdp, t.mem) && GoodMaps(t.pts, t.pdp, t.mem) && Unrelated(t.pds, t.pts)
    && (forall i :: 0 <= i < ENTRIES ==> GoodLink(t, t.pdp, i, t.pds))
    && (forall m, i :: m in t.pds && 0 <= i < ENTRIES ==> GoodLink(t, m.page, i, t.pts))
  }

  /** An upper-level entry is all zero, or lets through whatever the leaf allows to pages of this protection. */
  predicate OpenLink(e: PageEntry, prot: nat) {
    e == if e.present then PageEntry(true, true, prot == 3, false, false, e.frame, prot, false) else EMPTY
  }

  ghost predicate OpenLinks(t: Tables, prot: nat)
    requires GoodTree(t)
  {
    && (forall i :: 0 <= i < ENTRIES ==> OpenLink(At(t.mem, t.pdp, i), prot))
    && (forall m, i :: m in t.pds && 0 <= i < ENTRIES ==> OpenLink(At(t.mem, m.page, i), prot))
  }

  /** Table pages in stock: real, zeroable pages that no table uses. */
  ghost predicate GoodStock(t: Tables, stock: seq<Mapping>) {
    GoodMaps(stock, t.pdp, t.mem) && Unrelated(t.pds, stock) && Unrelated(t.pts, stock)
  }

  ghost predicate TablesIn(maps: seq<Mapping>, frames: set<nat>) {
    forall m <- maps :: m.frame in frames
  }

  ghost function FramesOfTables(maps: seq<Mapping>): set<nat> {
    set m | m in maps :: m.frame
  }

  // ----- the walk

  function PdAt(t: Tables, i: nat): Option<nat>
    requires IsPage(t.pdp, t.mem) && i < ENTRIES
  {
    Find(t.pds, At(t.mem, t.pdp, i).frame)
  }

  function PtAt(t: Tables, i: nat, j: nat): Option<nat>
    requires IsPage(t.pdp, t.mem) && (forall m <- t.pds :: IsPage(m.page, t.mem)) && i < ENTRIES && j < ENTRIES
  {
    match PdAt(t, i)
    case None => None
    case Some(pd) => FindIsMember(t.pds, At(t.mem, t.pdp, i).frame); Find(t.pts, At(t.mem, pd, j).frame)
  }

  lemma {:induction false} FindIsMember(maps: seq<Mapping>, frame: nat)
    ensures Find(maps, frame).Some? ==> Mapping(frame, Find(maps, frame).value) in maps
    ensures Find(maps, frame).None? ==> forall m <- maps :: m.frame != frame
  {
    if maps != [] {
      FindIsMember(maps[1..], frame);
      if maps[0].frame == frame {
        assert maps[0] == Mapping(frame, Find(maps, frame).value);
      } else if Find(maps, frame).Some? {
        assert Mapping(frame, Find(maps[1..], frame).value) in maps[1..];
      }
    }
  }

  lemma {:induction false} FindUnique(maps: seq<Mapping>, pdp: nat, mem: seq<PageEntry>, m: Mapping)
    requires GoodMaps(maps, pdp, mem) && m in maps
    ensures Find(maps, m.frame) == Some(m.page)
  {
    if m != maps[0] {
      FindUnique(maps[1..], pdp, mem, m);
    }
  }

  /** Different frames lead to different tables. */
  lemma FindInjective(maps: seq<Mapping>, pdp: nat, mem: seq<PageEntry>, f: nat, g: nat)
    requires GoodMaps(maps, pdp, mem) && Find(maps, f).Some? && Find(maps, f) == Find(maps, g)
    ensures f == g
  {
    FindIsMember(maps, f);
    FindIsMember(maps, g);
  }

  /** Walk agreement rests on this: no page table is reached in two ways. */
  lemma WalkIsInjective(t: Tables, i: nat, j: nat, k: nat, l: nat)
    requires GoodTree(t) && i < ENTRIES && j < ENTRIES && k < ENTRIES && l < ENTRIES
    requires PtAt(t, i, j).Some? && PtAt(t, i, j) == PtAt(t, k, l)
    ensures i == k && j == l
  {
    var pd, qd := PdAt(t, i).value, PdAt(t, k).value;
    FindIsMember(t.pds, At(t.mem, t.pdp, i).frame);
    FindIsMember(t.pds, At(t.mem, t.pdp, k).frame);
    FindInjective(t.pts, t.pdp, t.mem, At(t.mem, pd, j).frame, At(t.mem, qd, l).frame);
    NoTableInFrameZero(t.pts, t.pdp, t.mem);
    NoTableInFrameZero(t.pds, t.pdp, t.mem);
    assert GoodLink(t, pd, j, t.pts) && GoodLink(t, qd, l, t.pts);
    assert GoodLink(t, t.pdp, i, t.pds) && GoodLink(t, t.pdp, k, t.pds);
    assert pd == qd && j == l;
    FindInjective(t.pds, t.pdp, t.mem, At(t.mem, t.pdp, i).frame, At(t.mem, t.pdp, k).frame);
  }

  lemma {:induction false} NoTableInFrameZero(maps: seq<Mapping>, pdp: nat, mem: seq<PageEntry>)
    requires GoodMaps(maps, pdp, mem)
    ensures Find(maps, 0).None?
  {
    FindIsMember(maps, 0);
  }

  // ----- the flat map the tables stand for

  predicate HasPages(t: Tables) {
    IsPage(t.pdp, t.mem) && (forall m <- t.pds :: IsPage(m.page, t.mem)) && (forall m <- t.pts :: IsPage(m.page, t.mem))
  }

  /** The leaf entry of a page, if the walk reaches one that is present. */
  function Leaf(t: Tables, i: nat, j: nat, k: nat): Option<PageEntry>
    requires HasPages(t)
    requires i < ENTRIES && j < ENTRIES && k < ENTRIES
  {
    FindsPages(t);
    match PtAt(t, i, j)
    case None => None
    case Some(pt) => if At(t.mem, pt, k).present then Some(At(t.mem, pt, k)) else None
  }

  lemma FindsPages(t: Tables)
    requires HasPages(t)
    ensures forall i, j :: 0 <= i < ENTRIES && 0 <= j < ENTRIES && PtAt(t, i, j).Some? ==>
            IsPage(PtAt(t, i, j).value, t.mem)
  {
    forall i, j | 0 <= i < ENTRIES && 0 <= j < ENTRIES && PtAt(t, i, j).Some?
      ensures IsPage(PtAt(t, i, j).value, t.mem)
    {
      var pd := PdAt(t, i).value;
      FindIsMember(t.pds, At(t.mem, t.pdp, i).frame);
      FindIsMember(t.pts, At(t.mem, pd, j).frame);
    }
  }

  /** Nothing the tables translate differs, and no table is gone. */
  ghost predicate SameMap(t: Tables, u: Tables)
    requires GoodTree(t) && GoodTree(u)
  {
    SameLeaves(t, u) && SameTables(t, u)
  }

  ghost predicate SameLeaves(t: Tables, u: Tables)
    requires HasPages(t) && HasPages(u)
  {
    forall a, b, c :: 0 <= a < ENTRIES && 0 <= b < ENTRIES && 0 <= c < ENTRIES ==> Leaf(u, a, b, c) == Leaf(t, a, b, c)
  }

  ghost predicate SameTables(t: Tables, u: Tables)
    requires GoodTree(t) && GoodTree(u)
  {
    && (forall a :: 0 <= a < ENTRIES && PdAt(t, a).Some? ==> PdAt(u, a) == PdAt(t, a))
    && (forall a, b :: 0 <= a < ENTRIES && 0 <= b < ENTRIES && PtAt(t, a, b).Some? ==> PtAt(u, a, b) == PtAt(t, a, b))
  }

  /** The flat map: the leaf entry of a page, if it is mapped. */
  function ViewOf(t: Tables, v: nat): Option<PageEntry>
    requires HasPages(t)
  {
    Leaf(t, PdpIndex(v), PdIndex(v), PtIndex(v))
  }

  /** Only the walk to one leaf ends differently, namely at r. */
  ghost predicate LeafChanged(t: Tables, u: Tables, i: nat, j: nat, k: nat, r: Option<PageEntry>)
    requires GoodTree(t) && GoodTree(u)
  {
    && SameTables(t, u)
    && forall a, b, c :: 0 <= a < ENTRIES && 0 <= b < ENTRIES && 0 <= c < ENTRIES ==>
         Leaf(u, a, b, c) == if a == i && b == j && c == k then r else Leaf(t, a, b, c)
  }

  lemma ChangedPage(t: Tables, u: Tables, v: nat, r: Option<PageEntry>, w: nat)
    requires GoodTree(t) && GoodTree(u) && LeafChanged(t, u, PdpIndex(v), PdIndex(v), PtIndex(v), r)
    requires Slot(v) == Slot(w)
    ensures ViewOf(u, w) == if w == v then r else ViewOf(t, w)
  {
    DigitsOfPage(v, w);
  }

  /** Pages of a slot outside [low, high) are mapped as before. */
  ghost predicate SameOutside(t: Tables, u: Tables, slot: nat, low: nat, high: nat)
    requires GoodTree(t) && GoodTree(u)
  {
    forall w: nat :: Slot(w) == slot && !(low <= w < high) ==> ViewOf(u, w) == ViewOf(t, w)
  }

  /** Every page of [low, high) is mapped as `good` wants it. */
  ghost predicate AllGood(u: Tables, low: nat, high: nat, good: (nat, Option<PageEntry>) -> bool)
    requires GoodTree(u)
  {
    forall w: nat :: low <= w < high ==> good(w, ViewOf(u, w))
  }

  /** Every page of a run is reached by a full walk. */
  ghost predicate WalkableIn(t: Tables, virt: nat, pages: nat)
    requires GoodTree(t)
  {
    forall v: nat :: virt <= v < virt + pages ==> PtAt(t, PdpIndex(v), PdIndex(v)).Some?
  }

  lemma StaysWalkable(t: Tables, u: Tables, virt: nat, pages: nat, v: nat)
    requires GoodTree(t) && GoodTree(u) && SameTables(t, u) && WalkableIn(t, virt, pages) && virt <= v < virt + pages
    ensures PtAt(u, PdpIndex(v), PdIndex(v)).Some?
  {
  }

  lemma OutsideIsSame(t: Tables, u: Tables, slot: nat, low: nat, high: nat, v: nat)
    requires GoodTree(t) && GoodTree(u) && SameOutside(t, u, slot, low, high) && Slot(v) == slot && !(low <= v < high)
    ensures ViewOf(u, v) == ViewOf(t, v)
  {
  }

  lemma NoPageYet(t: Tables, slot: nat, low: nat, good: (nat, Option<PageEntry>) -> bool)
    requires GoodTree(t)
    ensures SameTables(t, t) && SameOutside(t, t, slot, low, low) && AllGood(t, low, low, good)
  {
  }

  lemma OnePageMore(s: Tables, t: Tables, u: Tables, slot: nat, low: nat, v: nat,
      good: (nat, Option<PageEntry>) -> bool)
    requires GoodTree(s) && GoodTree(t) && GoodTree(u) && low <= v
    requires forall w: nat :: low <= w <= v ==> Slot(w) == slot
    requires SameTables(s, t) && SameOutside(s, t, slot, low, v) && AllGood(t, low, v, good)
    requires SameTables(t, u) && SameOutside(t, u, slot, v, v + 1) && good(v, ViewOf(u, v))
    ensures SameTables(s, u) && SameOutside(s, u, slot, low, v + 1) && AllGood(u, low, v + 1, good)
  {
  }

  lemma MorePages(s: Tables, t: Tables, u: Tables, slot: nat, low: nat, mid: nat, high: nat,
                  good: (nat, Option<PageEntry>) -> bool)
    requires GoodTree(s) && GoodTree(t) && GoodTree(u) && low <= mid <= high
    requires forall w: nat :: low <= w < high ==> Slot(w) == slot
    requires SameTables(s, t) && SameOutside(s, t, slot, low, mid) && AllGood(t, low, mid, good)
    requires SameTables(t, u) && SameOutside(t, u, slot, mid, high) && AllGood(u, mid, high, good)
    ensures SameTables(s, u) && SameOutside(s, u, slot, low, high) && AllGood(u, low, high, good)
  {
  }

  lemma StoppedMidway(s: Tables, t: Tables, u: Tables, slot: nat, low: nat, mid: nat, high: nat, end: nat)
    requires GoodTree(s) && GoodTree(t) && GoodTree(u) && low <= mid <= high <= end
    requires SameTables(s, t) && SameOutside(s, t, slot, low, mid)
    requires SameTables(t, u) && SameOutside(t, u, slot, mid, high)
    ensures SameTables(s, u) && SameOutside(s, u, slot, low, end)
  {
  }

  lemma NothingThenChanged(s: Tables, t: Tables, u: Tables, slot: nat, low: nat, high: nat)
    requires GoodTree(s) && GoodTree(t) && GoodTree(u) && SameMap(s, t) && SameOutside(t, u, slot, low, high)
    ensures SameOutside(s, u, slot, low, high)
  {
  }

  lemma TablesStay(s: Tables, t: Tables, u: Tables)
    requires GoodTree(s) && GoodTree(t) && GoodTree(u) && SameMap(s, t) && SameTables(t, u)
    ensures SameTables(s, u)
  {
  }

  lemma DirectoryStays(s: Tables, t: Tables, i: nat)
    requires GoodTree(s) && GoodTree(t) && SameTables(s, t) && i < ENTRIES && PdAt(s, i).Some?
    ensures PdAt(t, i) == PdAt(s, i)
  {
  }

  lemma NothingWithoutTable(t: Tables, w: nat)
    requires GoodTree(t) && PtAt(t, PdpIndex(w), PdIndex(w)).None?
    ensures ViewOf(t, w).None?
  {
  }

  lemma NoPageMore(s: Tables, t: Tables, u: Tables, slot: nat, low: nat, v: nat, high: nat)
    requires GoodTree(s) && GoodTree(t) && GoodTree(u) && low <= v <= high
    requires SameTables(s, t) && SameOutside(s, t, slot, low, v) && SameMap(t, u)
    ensures SameTables(s, u) && SameOutside(s, u, slot, low, high)
  {
  }

  // ----- writing a leaf entry

  /** A page table is neither the PDP nor a page directory, so a write to it leaves those alone. */
  lemma LeafIsNotUpper(t: Tables, m: Mapping, k: nat, e: PageEntry)
    requires GoodTree(t) && m in t.pts && k < ENTRIES
    ensures IsPage(m.page, t.mem) && UpperEntriesSame(t, t.(mem := t.mem[512 * m.page + k := e]))
  {
  }

  /** A write through the walk changes the flat map at that one page only. */
  lemma WriteLeaf(t: Tables, i: nat, j: nat, k: nat, e: PageEntry)
    requires GoodTree(t) && i < ENTRIES && j < ENTRIES && k < ENTRIES && PtAt(t, i, j).Some?
    requires IsPage(PtAt(t, i, j).value, t.mem)
    ensures var u := t.(mem := t.mem[512 * PtAt(t, i, j).value + k := e]);
            GoodTree(u) && LeafChanged(t, u, i, j, k, if e.present then Some(e) else None)
  {
    hide Unrelated, GoodLink, Find;
    var pt := PtAt(t, i, j).value;
    var u := t.(mem := t.mem[512 * pt + k := e]);
    PtIsMember(t, i, j);
    var f :| Mapping(f, pt) in t.pts;
    LeafIsNotUpper(t, Mapping(f, pt), k, e);
    SameUpperEntries(t, u);
    FindsPages(t);
    forall a, b, c | 0 <= a < ENTRIES && 0 <= b < ENTRIES && 0 <= c < ENTRIES
      ensures Leaf(u, a, b, c) == if a == i && b == j && c == k then (if e.present then Some(e) else None)
                                  else Leaf(t, a, b, c)
    {
      if PtAt(t, a, b) == Some(pt) {
        WalkIsInjective(t, i, j, a, b);
      }
    }
  }

  ghost predicate UpperEntriesSame(t: Tables, u: Tables)
    requires HasPages(t)
  {
    && u.pdp == t.pdp && u.pds == t.pds && u.pts == t.pts && u.home == t.home && |u.mem| == |t.mem|
    && (forall i :: 0 <= i < ENTRIES ==> At(u.mem, t.pdp, i) == At(t.mem, t.pdp, i))
    && (forall m, i :: m in t.pds && 0 <= i < ENTRIES ==> At(u.mem, m.page, i) == At(t.mem, m.page, i))
  }

  lemma SameUpperEntries(t: Tables, u: Tables)
    requires GoodTree(t) && UpperEntriesSame(t, u)
    ensures GoodTree(u)
    ensures forall a, b :: 0 <= a < ENTRIES && 0 <= b < ENTRIES ==> PtAt(u, a, b) == PtAt(t, a, b)
  {
    forall i | 0 <= i < ENTRIES ensures GoodLink(u, u.pdp, i, u.pds) {
      assert GoodLink(t, t.pdp, i, t.pds);
    }
    forall m, i | m in t.pds && 0 <= i < ENTRIES ensures GoodLink(u, m.page, i, u.pts) {
      assert GoodLink(t, m.page, i, t.pts);
    }
    forall a, b | 0 <= a < ENTRIES && 0 <= b < ENTRIES ensures PtAt(u, a, b) == PtAt(t, a, b) {
      FindIsMember(t.pds, At(t.mem, t.pdp, a).frame);
    }
  }

  // ----- hanging a fresh, zeroed table below an empty upper-level entry

  ghost predicate Fresh(t: Tables, x: Mapping) {
    && IsPage(x.page, t.mem) && x.page != t.pdp && x.frame != 0
    && (forall m <- t.pds :: m.page != x.page && m.frame != x.frame)
    && (forall m <- t.pts :: m.page != x.page && m.frame != x.frame)
  }

  /** The new memory: one entry linked, the page of the new table zeroed, everything else as it was. */
  ghost predicate LinkedTo(mem: seq<PageEntry>, after: seq<PageEntry>, at: Place, link: PageEntry, page: nat) {
    && |after| == |mem|
    && forall p, i :: IsPage(p, mem) && 0 <= i < ENTRIES ==>
         At(after, p, i) == if p == page then EMPTY else if Place(p, i) == at then link else At(mem, p, i)
  }

  /** The tables after a fresh page directory has been hung below PDP entry i. */
  ghost predicate HungPd(t: Tables, u: Tables, i: nat, x: Mapping, link: PageEntry)
    requires GoodTree(t) && i < ENTRIES
  {
    && !At(t.mem, t.pdp, i).present && Fresh(t, x) && link.present && link.frame == x.frame
    && LinkedTo(t.mem, u.mem, Place(t.pdp, i), link, x.page)
    && u == Tables(t.pdp, [x] + t.pds, t.pts, u.mem, t.home[x.frame := Place(t.pdp, i)])
  }

  lemma HungPdTree(t: Tables, u: Tables, i: nat, x: Mapping, link: PageEntry)
    requires GoodTree(t) && i < ENTRIES && HungPd(t, u, i, x, link)
    ensures GoodTree(u)
  {
    assert u.pds[1..] == t.pds;
    FindIsMember(t.pds, x.frame);
    FindIsMember(t.pts, x.frame);
    forall a | 0 <= a < ENTRIES ensures GoodLink(u, u.pdp, a, u.pds) {
      assert GoodLink(t, t.pdp, a, t.pds);
    }
    forall m, a | m in u.pds && 0 <= a < ENTRIES ensures GoodLink(u, m.page, a, u.pts) {
      if m != x {
        assert GoodLink(t, m.page, a, t.pts);
      }
    }
  }

  lemma HungPdWalk(t: Tables, u: Tables, i: nat, x: Mapping, link: PageEntry, a: nat)
    requires GoodTree(t) && i < ENTRIES && HungPd(t, u, i, x, link) && GoodTree(u) && a < ENTRIES
    ensures PdAt(u, a) == if a == i then Some(x.page) else PdAt(t, a)
    ensures forall b :: 0 <= b < ENTRIES ==> PtAt(u, a, b) == PtAt(t, a, b)
  {
    assert u.pds[1..] == t.pds;
    assert GoodLink(t, t.pdp, a, t.pds);
    NoTableInFrameZero(t.pds, t.pdp, t.mem);
    NoTableInFrameZero(t.pts, t.pdp, t.mem);
    FindIsMember(t.pds, At(t.mem, t.pdp, a).frame);
  }

  /** A new page directory leaves the flat map as it was. */
  lemma LinkPd(t: Tables, u: Tables, i: nat, x: Mapping, link: PageEntry)
    requires GoodTree(t) && i < ENTRIES && HungPd(t, u, i, x, link)
    ensures GoodTree(u) && PdAt(u, i) == Some(x.page)
    ensures SameMap(t, u) && forall b :: 0 <= b < ENTRIES ==> PtAt(u, i, b).None?
  {
    HungPdTree(t, u, i, x, link);
    HungPdWalk(t, u, i, x, link, i);
    NoTableInFrameZero(t.pds, t.pdp, t.mem);
    assert GoodLink(t, t.pdp, i, t.pds);
    forall a | 0 <= a < ENTRIES
      ensures PdAt(u, a) == if a == i then Some(x.page) else PdAt(t, a)
      ensures forall b :: 0 <= b < ENTRIES ==> PtAt(u, a, b) == PtAt(t, a, b)
    {
      HungPdWalk(t, u, i, x, link, a);
    }
    forall a, b, c | 0 <= a < ENTRIES && 0 <= b < ENTRIES && 0 <= c < ENTRIES
      ensures Leaf(u, a, b, c) == Leaf(t, a, b, c)
    {
      PtIsMember(t, a, b);
    }
  }

  lemma PtIsMember(t: Tables, a: nat, b: nat)
    requires GoodTree(t) && a < ENTRIES && b < ENTRIES
    ensures PtAt(t, a, b).Some? ==> exists f :: Mapping(f, PtAt(t, a, b).value) in t.pts
  {
    if PtAt(t, a, b).Some? {
      FindIsMember(t.pds, At(t.mem, t.pdp, a).frame);
      FindIsMember(t.pts, At(t.mem, PdAt(t, a).value, b).frame);
    }
  }

  /** The tables after a fresh page table has been hung below entry j of the directory of PDP entry i. */
  ghost predicate HungPt(t: Tables, u: Tables, i: nat, j: nat, x: Mapping, link: PageEntry)
    requires GoodTree(t) && i < ENTRIES && j < ENTRIES
  {
    && PdAt(t, i).Some? && IsPage(PdAt(t, i).value, t.mem)
    && Fresh(t, x) && link.present && link.frame == x.frame
    && LinkedTo(t.mem, u.mem, Place(PdAt(t, i).value, j), link, x.page)
    && u == Tables(t.pdp, t.pds, [x] + t.pts, u.mem, t.home[x.frame := Place(PdAt(t, i).value, j)])
  }

  lemma HungPtTree(t: Tables, u: Tables, i: nat, j: nat, x: Mapping, link: PageEntry)
    requires GoodTree(t) && i < ENTRIES && j < ENTRIES && HungPt(t, u, i, j, x, link)
    ensures GoodTree(u)
  {
    assert u.pts[1..] == t.pts;
    FindIsMember(t.pds, At(t.mem, t.pdp, i).frame);
    FindIsMember(t.pds, x.frame);
    FindIsMember(t.pts, x.frame);
    forall a | 0 <= a < ENTRIES ensures GoodLink(u, u.pdp, a, u.pds) {
      assert GoodLink(t, t.pdp, a, t.pds);
    }
    forall m, b | m in u.pds && 0 <= b < ENTRIES ensures GoodLink(u, m.page, b, u.pts) {
      assert GoodLink(t, m.page, b, t.pts);
    }
  }

  lemma HungPtWalk(t: Tables, u: Tables, i: nat, j: nat, x: Mapping, link: PageEntry, a: nat, b: nat)
    requires GoodTree(t) && i < ENTRIES && j < ENTRIES && HungPt(t, u, i, j, x, link) && GoodTree(u)
    requires a < ENTRIES && b < ENTRIES
    ensures PdAt(u, a) == PdAt(t, a)
    ensures PtAt(u, a, b) == if a == i && b == j then Some(x.page) else PtAt(t, a, b)
  {
    assert u.pts[1..] == t.pts;
    NoTableInFrameZero(t.pts, t.pdp, t.mem);
    FindIsMember(t.pds, At(t.mem, t.pdp, i).frame);
    FindIsMember(t.pds, At(t.mem, t.pdp, a).frame);
    if PdAt(t, a).Some? {
      assert GoodLink(t, PdAt(t, a).value, b, t.pts);
      FindIsMember(t.pts, At(t.mem, PdAt(t, a).value, b).frame);
      if PdAt(t, a) == PdAt(t, i) {
        OneEntryPerPd(t, a, i);
      }
    }
  }

  /** A fresh page table takes the place of whatever hung below its entry: those pages are lost, and no others. */
  lemma RelinkPt(t: Tables, u: Tables, i: nat, j: nat, x: Mapping, link: PageEntry)
    requires GoodTree(t) && i < ENTRIES && j < ENTRIES && HungPt(t, u, i, j, x, link)
    ensures GoodTree(u) && PtAt(u, i, j) == Some(x.page)
    ensures forall a :: 0 <= a < ENTRIES ==> PdAt(u, a) == PdAt(t, a)
    ensures forall a, b :: 0 <= a < ENTRIES && 0 <= b < ENTRIES && !(a == i && b == j) ==>
              PtAt(u, a, b) == PtAt(t, a, b)
    ensures forall a, b, c :: 0 <= a < ENTRIES && 0 <= b < ENTRIES && 0 <= c < ENTRIES ==>
              Leaf(u, a, b, c) == if a == i && b == j then None else Leaf(t, a, b, c)
  {
    HungPtTree(t, u, i, j, x, link);
    forall a | 0 <= a < ENTRIES ensures PdAt(u, a) == PdAt(t, a) {
      HungPtWalk(t, u, i, j, x, link, a, 0);
    }
    forall a, b | 0 <= a < ENTRIES && 0 <= b < ENTRIES
      ensures PtAt(u, a, b) == if a == i && b == j then Some(x.page) else PtAt(t, a, b)
    {
      HungPtWalk(t, u, i, j, x, link, a, b);
    }
    forall a, b, c | 0 <= a < ENTRIES && 0 <= b < ENTRIES && 0 <= c < ENTRIES
      ensures Leaf(u, a, b, c) == if a == i && b == j then None else Leaf(t, a, b, c)
    {
      if a == i && b == j {
        assert At(u.mem, x.page, c) == EMPTY;
      } else {
        RelinkKeepsTable(t, u, i, j, x, link, a, b, c);
      }
    }
  }

  lemma RelinkKeepsTable(t: Tables, u: Tables, i: nat, j: nat, x: Mapping, link: PageEntry, a: nat, b: nat, c: nat)
    requires GoodTree(t) && i < ENTRIES && j < ENTRIES && HungPt(t, u, i, j, x, link)
    requires a < ENTRIES && b < ENTRIES && c < ENTRIES
    ensures |u.mem| == |t.mem| && (PtAt(t, a, b).Some? ==> IsPage(PtAt(t, a, b).value, t.mem))
    ensures PtAt(t, a, b).Some? ==> At(u.mem, PtAt(t, a, b).value, c) == At(t.mem, PtAt(t, a, b).value, c)
  {
    FindIsMember(t.pds, At(t.mem, t.pdp, i).frame);
    PtIsMember(t, a, b);
  }

  /**
   The kernel's own tables come from a pool whose refill maps pages, which may hang a table below this very
   entry; the entry is not looked at again.  The flat map stays as it was if and only if that table mapped
   nothing.
   */
  lemma SecondTableLosesPages(t: Tables, u: Tables, i: nat, j: nat, x: Mapping, link: PageEntry)
    requires GoodTree(t) && i < ENTRIES && j < ENTRIES && HungPt(t, u, i, j, x, link) && GoodTree(u)
    ensures SameLeaves(t, u) <==> forall c :: 0 <= c < ENTRIES ==> Leaf(t, i, j, c).None?
  {
    RelinkPt(t, u, i, j, x, link);
    if SameLeaves(t, u) {
      forall c | 0 <= c < ENTRIES ensures Leaf(t, i, j, c).None? {
        assert Leaf(u, i, j, c) == Leaf(t, i, j, c);
      }
    }
  }

  /** A new page table below an empty entry leaves the flat map as it was. */
  lemma LinkPt(t: Tables, u: Tables, i: nat, j: nat, x: Mapping, link: PageEntry)
    requires GoodTree(t) && i < ENTRIES && j < ENTRIES && HungPt(t, u, i, j, x, link)
    requires !At(t.mem, PdAt(t, i).value, j).present
    ensures GoodTree(u) && PtAt(u, i, j) == Some(x.page)
    ensures SameMap(t, u)
  {
    RelinkPt(t, u, i, j, x, link);
    NoTableInFrameZero(t.pts, t.pdp, t.mem);
    FindIsMember(t.pds, At(t.mem, t.pdp, i).frame);
    assert PtAt(t, i, j) == None by {
      assert GoodLink(t, PdAt(t, i).value, j, t.pts);
    }
  }

  lemma OneEntryPerPd(t: Tables, a: nat, i: nat)
    requires GoodTree(t) && a < ENTRIES && i < ENTRIES && PdAt(t, a).Some? && PdAt(t, a) == PdAt(t, i)
    ensures a == i
  {
    NoTableInFrameZero(t.pds, t.pdp, t.mem);
    assert GoodLink(t, t.pdp, a, t.pds) && GoodLink(t, t.pdp, i, t.pds);
    FindInjective(t.pds, t.pdp, t.mem, At(t.mem, t.pdp, a).frame, At(t.mem, t.pdp, i).frame);
  }

  /** Taking the first page of the stock for a table leaves the rest a good stock. */
  /** Storing a leaf leaves the upper-level entries alone. */
  lemma LeafKeepsLinks(t: Tables, u: Tables, i: nat, j: nat, k: nat, e: PageEntry, prot: nat)
    requires GoodTree(t) && GoodTree(u) && i < ENTRIES && j < ENTRIES && k < ENTRIES && PtAt(t, i, j).Some?
    requires IsPage(PtAt(t, i, j).value, t.mem)
    requires u == t.(mem := t.mem[512 * PtAt(t, i, j).value + k := e]) && OpenLinks(t, prot)
    ensures OpenLinks(u, prot)
  {
    var pt := PtAt(t, i, j).value;
    PtIsMember(t, i, j);
    forall a | 0 <= a < ENTRIES ensures OpenLink(At(u.mem, u.pdp, a), prot) {
      assert At(u.mem, u.pdp, a) == At(t.mem, t.pdp, a);
    }
    forall m, a | m in u.pds && 0 <= a < ENTRIES ensures OpenLink(At(u.mem, m.page, a), prot) {
      assert IsPage(m.page, t.mem) && m.page != pt;
      assert At(u.mem, m.page, a) == At(t.mem, m.page, a);
    }
  }

  /** A table hung below an entry brings an open link, and no other entry. */
  lemma HangKeepsLinks(t: Tables, u: Tables, at: Place, x: Mapping, link: PageEntry, prot: nat)
    requires GoodTree(t) && GoodTree(u) && Fresh(t, x) && LinkedTo(t.mem, u.mem, at, link, x.page)
    requires u.pdp == t.pdp && (u.pds == t.pds || u.pds == [x] + t.pds)
    requires OpenLinks(t, prot) && OpenLink(link, prot)
    ensures OpenLinks(u, prot)
  {
    forall m, i | m in u.pds && 0 <= i < ENTRIES ensures OpenLink(At(u.mem, m.page, i), prot) {
      assert m in t.pds ==> IsPage(m.page, t.mem);
    }
  }

  lemma StockAfterUse(t: Tables, u: Tables, stock: seq<Mapping>)
    requires HasPages(t) && GoodStock(t, stock) && stock != [] && u.pdp == t.pdp && |u.mem| == |t.mem|
    requires (u.pds == [stock[0]] + t.pds && u.pts == t.pts) || (u.pds == t.pds && u.pts == [stock[0]] + t.pts)
    ensures GoodStock(u, stock[1..])
  {
  }

  lemma FirstOfStock(t: Tables, stock: seq<Mapping>)
    requires GoodTree(t) && GoodStock(t, stock) && stock != []
    ensures Fresh(t, stock[0])
  {
  }
}
