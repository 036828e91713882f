/**
 The state of the slab allocator as a value: eight caches of slabs, the list of page allocations, and
 two ghost records, one of what every page is used for and one of the objects the allocator keeps for
 itself.  The lemmas say what each change of the lists does to the set of live objects.
 */
module SlabStates {
  import opened Blocks
  import opened SlabLayout
  import opened FreeChain
  import opened Intervals
  import opened Lists

  const CACHES: nat := 8
  const ON_SLAB_CACHES: nat := 5
  /** The cache that slab headers and page records come from: the objects of 32 bytes. */
  const RECORD_CACHE: nat := 1

  /** One page has room for four objects of up to 1024 bytes. */
  function PagesPerSlab(k: nat): nat {
    if k == CACHES - 1 then 2 else 1
  }

  /** addr is the pointer to the slab header, base the start of its pages, mem its first object. */
  datatype Slab = Slab(addr: nat, base: nat, mem: nat, used: nat, nextFree: nat, free: seq<nat>)

  datatype Cache = Cache(layout: Layout, part: seq<Slab>, full: seq<Slab>)

  datatype PageRecord = PageRecord(addr: nat, ptr: nat, pages: nat)

  datatype Owner = SlabPages(cache: nat, base: nat) | ObjectPages(ptr: nat)

  datatype Keeper = HeaderOf(cache: nat, base: nat) | RecordOf(ptr: nat)

  datatype State = State(caches: seq<Cache>, records: seq<PageRecord>, owner: map<nat, Owner>, kept: map<nat, Keeper>)

  // ----- one slab

  ghost predicate SlabOk(s: Slab, l: Layout) {
    && GoodLayout(l) && |s.free| == l.count && s.used <= l.count
    && s.base > 0 && s.base % PAGE_SIZE == 0 && s.mem == s.base + ObjectsAt(l)
    && Chained(s.free, s.nextFree, l.count - s.used)
    && (l.header > 0 ==> s.addr == s.base)
  }

  function AddressOf(s: Slab, l: Layout, i: nat): nat {
    s.mem + i * l.size
  }

  ghost function TakenIn(s: Slab, l: Layout): set<nat>
    requires SlabOk(s, l)
  {
    Allocated(s.free, s.nextFree, l.count - s.used)
  }

  /** The live objects of a slab. */
  ghost function LiveIn(s: Slab, l: Layout): set<nat> {
    if SlabOk(s, l) then set i | i in TakenIn(s, l) :: AddressOf(s, l, i) else {}
  }

  lemma LiveCount(s: Slab, l: Layout)
    requires SlabOk(s, l)
    ensures |TakenIn(s, l)| == s.used && (s.used == 0 ==> LiveIn(s, l) == {})
  {
    AllocatedCount(s.free, s.nextFree, l.count - s.used);
  }

  predicate PageOf(s: Slab, l: Layout, p: nat) {
    s.base / 4096 <= p < s.base / 4096 + l.pages
  }

  lemma ObjectOnPage(s: Slab, l: Layout, i: nat)
    requires SlabOk(s, l) && i < l.count
    ensures PageOf(s, l, AddressOf(s, l, i) / 4096)
    ensures s.mem <= AddressOf(s, l, i) && AddressOf(s, l, i) + l.size <= s.mem + l.count * l.size
    ensures AddressOf(s, l, i) > 0
  {
    PartsDoNotOverlap(l, i);
    var off := ObjectAt(l, i);
    assert AddressOf(s, l, i) == s.base + off;
    PageOfOffset(s.base, off, l.pages);
  }

  lemma PageOfOffset(base: nat, off: nat, pages: nat)
    requires base % 4096 == 0 && off < 4096 * pages
    ensures base / 4096 <= (base + off) / 4096 < base / 4096 + pages
  {
  }

  lemma SameIndex(s: Slab, l: Layout, i: nat, j: nat)
    requires GoodLayout(l) && AddressOf(s, l, i) == AddressOf(s, l, j)
    ensures i == j
  {
    if i < j {
      LaterObject(i, j, l.size);
    } else if j < i {
      LaterObject(j, i, l.size);
    }
  }

  /** Allocating the first object of the chain. */
  lemma PopSlab(s: Slab, l: Layout)
    requires SlabOk(s, l) && s.used < l.count
    ensures s.nextFree < l.count
    ensures var t := s.(nextFree := s.free[s.nextFree], used := s.used + 1);
            && SlabOk(t, l) && LiveIn(t, l) == LiveIn(s, l) + {AddressOf(s, l, s.nextFree)}
            && AddressOf(s, l, s.nextFree) !in LiveIn(s, l)
  {
    hide Path, Allocated, GoodLayout, LiveIn;
    var n := l.count - s.used;
    var t := s.(nextFree := s.free[s.nextFree], used := s.used + 1);
    TakenAfterPop(s.free, s.nextFree, n);
    assert l.count - t.used == n - 1;
    AddressesOfMore(s, t, l, s.nextFree);
    NotYetLive(s, l, s.nextFree);
  }

  /** The address of a free object is not live. */
  lemma NotYetLive(s: Slab, l: Layout, i: nat)
    requires SlabOk(s, l) && i !in TakenIn(s, l)
    ensures AddressOf(s, l, i) !in LiveIn(s, l)
  {
    if AddressOf(s, l, i) in LiveIn(s, l) {
      var j :| j in TakenIn(s, l) && AddressOf(s, l, j) == AddressOf(s, l, i);
      SameIndex(s, l, i, j);
    }
  }

  lemma TakenAfterPop(free: seq<nat>, next: nat, n: nat)
    requires Chained(free, next, n) && n > 0
    ensures Chained(free, free[next], n - 1) && next !in Allocated(free, next, n)
    ensures Allocated(free, free[next], n - 1) == Allocated(free, next, n) + {next}
  {
    PopChain(free, next, n);
    assert ElementsOf(Path(free, next, n)) == {next} + ElementsOf(Path(free, free[next], n - 1));
    assert next in Range(0, |free|) && next !in ElementsOf(Path(free, free[next], n - 1));
  }

  lemma AddressesOfMore(s: Slab, t: Slab, l: Layout, i: nat)
    requires SlabOk(s, l) && SlabOk(t, l) && s.mem == t.mem && TakenIn(t, l) == TakenIn(s, l) + {i}
    ensures LiveIn(t, l) == LiveIn(s, l) + {AddressOf(s, l, i)}
  {
    forall a | a in LiveIn(s, l) + {AddressOf(s, l, i)} ensures a in LiveIn(t, l) {
      if a in LiveIn(s, l) {
        var j :| j in TakenIn(s, l) && AddressOf(s, l, j) == a;
        assert j in TakenIn(t, l) && AddressOf(t, l, j) == a;
      } else {
        assert i in TakenIn(t, l) && AddressOf(t, l, i) == a;
      }
    }
    forall a | a in LiveIn(t, l) ensures a in LiveIn(s, l) + {AddressOf(s, l, i)} {
      var j :| j in TakenIn(t, l) && AddressOf(t, l, j) == a;
      assert AddressOf(s, l, j) == a;
    }
  }

  /** Freeing a live object. */
  lemma PushSlab(s: Slab, l: Layout, i: nat)
    requires SlabOk(s, l) && i in TakenIn(s, l) && s.used > 0
    ensures var t := s.(free := s.free[i := s.nextFree], nextFree := i, used := s.used - 1);
            SlabOk(t, l) && LiveIn(t, l) == LiveIn(s, l) - {AddressOf(s, l, i)}
  {
    var n := l.count - s.used;
    var t := s.(free := s.free[i := s.nextFree], nextFree := i, used := s.used - 1);
    PushChain(s.free, s.nextFree, n, i);
    assert TakenIn(t, l) == TakenIn(s, l) - {i} by {
      assert ElementsOf(Path(t.free, t.nextFree, n + 1)) == {i} + ElementsOf(Path(s.free, s.nextFree, n));
    }
    assert TakenIn(s, l) == TakenIn(t, l) + {i};
    AddressesOfMore(t, s, l, i);
    NotYetLive(t, l, i);
  }

  // ----- one cache

  /** Different positions hold slabs with different pages. */
  ghost predicate Unique(list: seq<Slab>) {
    forall i, j :: 0 <= i < j < |list| ==> list[i].base != list[j].base
  }

  function SlabsOf(c: Cache): set<Slab> {
    (set s | s in c.part) + (set s | s in c.full)
  }

  /** `part` holds slabs with a free object, `full` exactly those without, and no slab is listed twice. */
  ghost predicate CacheOk(c: Cache, k: nat) {
    && GoodLayout(c.layout) && c.layout.size == Size(CACHE_START_ORDER + k)
    && (c.layout.header > 0 <==> k < ON_SLAB_CACHES) && c.layout.pages == PagesPerSlab(k)
    && (forall s <- c.part :: SlabOk(s, c.layout) && s.used < c.layout.count)
    && (forall s <- c.full :: SlabOk(s, c.layout) && s.used == c.layout.count)
    && Unique(c.part) && Unique(c.full)
    && (forall s <- c.part, t <- c.full :: s.base != t.base)
  }

  ghost predicate NoEmptySlab(c: Cache) {
    forall s <- c.part :: s.used > 0
  }

  lemma SameBaseSameSlab(c: Cache, k: nat, s: Slab, t: Slab)
    requires CacheOk(c, k) && s in SlabsOf(c) && t in SlabsOf(c) && s.base == t.base
    ensures s == t
  {
  }

  lemma FrontIsOne(c: Cache, k: nat)
    requires CacheOk(c, k) && c.part != []
    ensures forall r :: r in c.part[1..] || r in c.full ==> r.base != c.part[0].base
    ensures forall r :: r in c.part <==> r == c.part[0] || r in c.part[1..]
    ensures Unique(c.part[1..])
  {
    assert c.part == [c.part[0]] + c.part[1..];
    forall r | r in c.part[1..] ensures r.base != c.part[0].base {
      var j :| 0 <= j < |c.part[1..]| && c.part[1..][j] == r;
      assert c.part[j + 1] == r;
    }
  }

  /** The slab at the front of the part list gains an object and stays. */
  lemma FrontChanges(c: Cache, k: nat, t: Slab)
    requires CacheOk(c, k) && c.part != [] && t.base == c.part[0].base && SlabOk(t, c.layout)
             && t.used < c.layout.count
    ensures CacheOk(c.(part := [t] + c.part[1..]), k)
    ensures SlabsOf(c.(part := [t] + c.part[1..])) == SlabsOf(c) - {c.part[0]} + {t}
  {
    hide SlabOk, GoodLayout;
    FrontIsOne(c, k);
    var d := c.(part := [t] + c.part[1..]);
    forall r ensures r in SlabsOf(d) <==> r in SlabsOf(c) - {c.part[0]} + {t} {
    }
  }

  /** The slab at the front of the part list gains its last object and moves to the full list. */
  lemma FrontFills(c: Cache, k: nat, t: Slab)
    requires CacheOk(c, k) && c.part != [] && t.base == c.part[0].base && SlabOk(t, c.layout)
             && t.used == c.layout.count
    ensures CacheOk(c.(part := c.part[1..], full := [t] + c.full), k)
    ensures SlabsOf(c.(part := c.part[1..], full := [t] + c.full)) == SlabsOf(c) - {c.part[0]} + {t}
  {
    hide SlabOk, GoodLayout;
    FrontIsOne(c, k);
    var d := c.(part := c.part[1..], full := [t] + c.full);
    forall r ensures r in SlabsOf(d) <==> r in SlabsOf(c) - {c.part[0]} + {t} {
    }
  }

  lemma ElementsWithout(list: seq<Slab>, i: nat, r: Slab)
    requires Unique(list) && i < |list|
    ensures r in Without(list, i) <==> r in list && r.base != list[i].base
    ensures Unique(Without(list, i))
  {
    hide Without;
    WithoutAt(list, i);
    if r in list && r.base != list[i].base {
      var j :| 0 <= j < |list| && list[j] == r;
      LeftWithout(list, i, j);
    }
    if r in Without(list, i) {
      var j :| 0 <= j < |Without(list, i)| && Without(list, i)[j] == r;
      assert r == list[if j < i then j else j + 1];
    }
  }

  lemma ElementsReplaced(list: seq<Slab>, i: nat, t: Slab, r: Slab)
    requires Unique(list) && i < |list| && t.base == list[i].base
    ensures r in list[i := t] <==> (r in list && r != list[i]) || r == t
    ensures Unique(list[i := t])
  {
    if r in list && r != list[i] {
      var j :| 0 <= j < |list| && list[j] == r;
      assert list[i := t][j] == r;
    }
    if r in list[i := t] {
      var j :| 0 <= j < |list| && list[i := t][j] == r;
      assert j != i ==> list[j] == r;
    }
    assert list[i := t][i] == t;
  }

  /** A slab in the part list loses an object. */
  lemma PartChanges(c: Cache, k: nat, i: nat, t: Slab)
    requires CacheOk(c, k) && i < |c.part| && t.base == c.part[i].base && SlabOk(t, c.layout) && t.used < c.layout.count
    ensures CacheOk(c.(part := c.part[i := t]), k)
    ensures SlabsOf(c.(part := c.part[i := t])) == SlabsOf(c) - {c.part[i]} + {t}
  {
    var d := c.(part := c.part[i := t]);
    forall r ensures r in d.part <==> (r in c.part && r != c.part[i]) || r == t {
      ElementsReplaced(c.part, i, t, r);
    }
    ElementsReplaced(c.part, i, t, t);
    assert c.part[i] in c.part;
    assert c.part[i] !in c.full;
  }

  /** A full slab loses an object and moves to the front of the part list. */
  lemma FullChanges(c: Cache, k: nat, i: nat, t: Slab)
    requires CacheOk(c, k) && i < |c.full| && t.base == c.full[i].base && SlabOk(t, c.layout) && t.used < c.layout.count
    ensures CacheOk(c.(part := [t] + c.part, full := Without(c.full, i)), k)
    ensures SlabsOf(c.(part := [t] + c.part, full := Without(c.full, i))) == SlabsOf(c) - {c.full[i]} + {t}
  {
    var d := c.(part := [t] + c.part, full := Without(c.full, i));
    forall r ensures r in d.full <==> r in c.full && r.base != c.full[i].base {
      ElementsWithout(c.full, i, r);
    }
    ElementsWithout(c.full, i, t);
    forall r ensures r in SlabsOf(d) <==> r in SlabsOf(c) - {c.full[i]} + {t} {
      if r in c.full && r.base == c.full[i].base {
        SameBaseSameSlab(c, k, r, c.full[i]);
      }
    }
  }

  /** A slab leaves the part list. */
  lemma PartLoses(c: Cache, k: nat, i: nat)
    requires CacheOk(c, k) && i < |c.part|
    ensures CacheOk(c.(part := Without(c.part, i)), k)
    ensures SlabsOf(c.(part := Without(c.part, i))) == SlabsOf(c) - {c.part[i]}
  {
    var d := c.(part := Without(c.part, i));
    forall r ensures r in d.part <==> r in c.part && r.base != c.part[i].base {
      ElementsWithout(c.part, i, r);
    }
    ElementsWithout(c.part, i, c.part[i]);
    forall r ensures r in SlabsOf(d) <==> r in SlabsOf(c) - {c.part[i]} {
      if r in c.part && r.base == c.part[i].base {
        SameBaseSameSlab(c, k, r, c.part[i]);
      }
    }
  }

  /** A slab joins the part list. */
  lemma PartGains(c: Cache, k: nat, t: Slab)
    requires CacheOk(c, k) && SlabOk(t, c.layout) && t.used < c.layout.count
    requires forall s <- SlabsOf(c) :: s.base != t.base
    ensures CacheOk(c.(part := [t] + c.part), k)
    ensures SlabsOf(c.(part := [t] + c.part)) == SlabsOf(c) + {t}
  {
  }

  // ----- the whole state

  ghost predicate SlabOwns(owner: map<nat, Owner>, k: nat, s: Slab, l: Layout) {
    forall p: nat :: PageOf(s, l, p) ==> p in owner && owner[p] == SlabPages(k, s.base)
  }

  predicate RecordPage(r: PageRecord, p: nat) {
    r.ptr / 4096 <= p < r.ptr / 4096 + r.pages
  }

  ghost predicate RecordOk(owner: map<nat, Owner>, r: PageRecord) {
    && r.ptr > 0 && r.ptr % PAGE_SIZE == 0 && r.pages > 0
    && forall p: nat :: RecordPage(r, p) ==> p in owner && owner[p] == ObjectPages(r.ptr)
  }

  ghost predicate UniqueRecords(records: seq<PageRecord>) {
    forall i, j :: 0 <= i < j < |records| ==> records[i].ptr != records[j].ptr
  }

  ghost predicate CachesOk(caches: seq<Cache>) {
    |caches| == CACHES && forall k :: 0 <= k < CACHES ==> CacheOk(caches[k], k)
  }

  /** The live objects of a cache. */
  ghost function LiveObjects(c: Cache): set<nat> {
    set s, a | s in SlabsOf(c) && a in LiveIn(s, c.layout) :: a
  }

  ghost function Union(sets: seq<set<nat>>): set<nat> {
    set k, a | 0 <= k < |sets| && a in sets[k] :: a
  }

  ghost function LivePerCache(caches: seq<Cache>): (live: seq<set<nat>>)
    ensures |live| == |caches| && forall k :: 0 <= k < |caches| ==> live[k] == LiveObjects(caches[k])
  {
    seq(|caches|, k requires 0 <= k < |caches| => LiveObjects(caches[k]))
  }

  ghost function SlabLive(caches: seq<Cache>): set<nat> {
    Union(LivePerCache(caches))
  }

  lemma UnionChanges(sets: seq<set<nat>>, k: nat, gone: set<nat>, came: set<nat>)
    requires k < |sets| && forall j :: 0 <= j < |sets| && j != k ==> sets[j] !! gone
    ensures Union(sets[k := sets[k] - gone + came]) == Union(sets) - gone + came
  {
    var after := sets[k := sets[k] - gone + came];
    forall a | a in Union(after) ensures a in Union(sets) - gone + came {
      var j :| 0 <= j < |after| && a in after[j];
      assert j != k ==> a in sets[j];
    }
    forall a | a in Union(sets) - gone + came ensures a in Union(after) {
      if a in came {
        assert a in after[k];
      } else {
        var j :| 0 <= j < |sets| && a in sets[j];
        assert a in after[j];
      }
    }
  }

  ghost function RecordLive(records: seq<PageRecord>): set<nat> {
    set r | r in records :: r.ptr
  }

  /** Everything kalloc has handed out and kfree has not taken back, the allocator's own objects included. */
  ghost function Live(st: State): set<nat> {
    SlabLive(st.caches) + RecordLive(st.records)
  }

  /** What callers hold. */
  ghost function UserLive(st: State): set<nat> {
    Live(st) - st.kept.Keys
  }

  ghost predicate Good(st: State) {
    CachesOk(st.caches) && GoodPages(st) && UniqueRecords(st.records) && GoodKept(st)
  }

  /** Every page is used for one purpose. */
  ghost predicate GoodPages(st: State)
    requires |st.caches| == CACHES
  {
    && (forall k, s :: 0 <= k < CACHES && s in SlabsOf(st.caches[k]) ==> SlabOwns(st.owner, k, s, st.caches[k].layout))
    && (forall r <- st.records :: RecordOk(st.owner, r))
  }

  /**
     Headers of off-slab slabs and page records are live objects of the record cache, each kept for one
     of them.
   */
  ghost predicate GoodKept(st: State)
    requires |st.caches| == CACHES
  {
    && (forall k, s :: ON_SLAB_CACHES <= k < CACHES && s in SlabsOf(st.caches[k]) ==>
          s.addr in st.kept && st.kept[s.addr] == HeaderOf(k, s.base))
    && (forall r <- st.records :: r.addr in st.kept && st.kept[r.addr] == RecordOf(r.ptr))
    && st.kept.Keys <= LiveObjects(st.caches[RECORD_CACHE])
  }

  ghost predicate Tidy(st: State) {
    forall k :: 0 <= k < |st.caches| ==> NoEmptySlab(st.caches[k])
  }

  /** The page of a live object leads back to its slab. */
  lemma OwnerOfObject(st: State, k: nat, s: Slab, a: nat)
    requires Good(st) && k < CACHES && s in SlabsOf(st.caches[k]) && a in LiveIn(s, st.caches[k].layout)
    ensures a / 4096 in st.owner && st.owner[a / 4096] == SlabPages(k, s.base)
    ensures a in Live(st) && a > 0
  {
    var l := st.caches[k].layout;
    var i :| i in TakenIn(s, l) && AddressOf(s, l, i) == a;
    ObjectOnPage(s, l, i);
    assert a in LiveObjects(st.caches[k]);
  }

  /** No object lies in two slabs. */
  lemma OneSlabPerObject(st: State, k: nat, s: Slab, j: nat, r: Slab, a: nat)
    requires Good(st) && k < CACHES && s in SlabsOf(st.caches[k]) && a in LiveIn(s, st.caches[k].layout)
    requires j < CACHES && r in SlabsOf(st.caches[j]) && a in LiveIn(r, st.caches[j].layout)
    ensures k == j && s == r
  {
    OwnerOfObject(st, k, s, a);
    OwnerOfObject(st, j, r, a);
    SameBaseSameSlab(st.caches[k], k, s, r);
  }

  /** One slab of one cache changes. */
  ghost predicate Swapped(st: State, u: State, k: nat, s: Slab, t: Slab)
    requires Good(st) && k < CACHES
  {
    && s in SlabsOf(st.caches[k]) && t.base == s.base && t.addr == s.addr
    && |u.caches| == CACHES && u == st.(caches := st.caches[k := u.caches[k]])
    && u.caches[k].layout == st.caches[k].layout && CacheOk(u.caches[k], k)
    && SlabsOf(u.caches[k]) == SlabsOf(st.caches[k]) - {s} + {t}
  }

  /** Slabs added to and taken from one cache change its live objects accordingly. */
  lemma CacheLive(c: Cache, d: Cache, gone: set<Slab>, came: set<Slab>)
    requires d.layout == c.layout && SlabsOf(d) == SlabsOf(c) - gone + came && gone <= SlabsOf(c)
    requires forall s <- SlabsOf(c) + came :: SlabOk(s, c.layout)
    requires forall s <- SlabsOf(c) - gone, r <- gone :: LiveIn(s, c.layout) !! LiveIn(r, c.layout)
    ensures forall a :: a in LiveObjects(d) <==>
              (a in LiveObjects(c) && !exists s <- gone :: a in LiveIn(s, c.layout))
                  || exists t <- came :: a in LiveIn(t, c.layout)
  {
    forall a | a in LiveObjects(d)
      ensures (a in LiveObjects(c) && !exists s <- gone :: a in LiveIn(s, c.layout))
              || exists t <- came :: a in LiveIn(t, c.layout)
    {
      var s :| s in SlabsOf(d) && a in LiveIn(s, c.layout);
    }
    forall a | a in LiveObjects(c) && !exists s <- gone :: a in LiveIn(s, c.layout) ensures a in LiveObjects(d) {
      var s :| s in SlabsOf(c) && a in LiveIn(s, c.layout);
    }
  }

  lemma DisjointSlabs(st: State, k: nat, s: Slab, j: nat, r: Slab)
    requires Good(st) && k < CACHES && j < CACHES && s in SlabsOf(st.caches[k]) && r in SlabsOf(st.caches[j])
    requires k != j || s != r
    ensures LiveIn(s, st.caches[k].layout) !! LiveIn(r, st.caches[j].layout)
  {
    if a :| a in LiveIn(s, st.caches[k].layout) && a in LiveIn(r, st.caches[j].layout) {
      OneSlabPerObject(st, k, s, j, r, a);
    }
  }

  lemma SwappedCacheLive(st: State, u: State, k: nat, s: Slab, t: Slab)
    requires Good(st) && k < CACHES && Swapped(st, u, k, s, t)
    ensures LiveObjects(u.caches[k]) ==
            LiveObjects(st.caches[k]) - LiveIn(s, st.caches[k].layout) + LiveIn(t, st.caches[k].layout)
  {
    var c := st.caches[k];
    assert t in SlabsOf(u.caches[k]);
    forall r | r in SlabsOf(c) - {s} ensures LiveIn(r, c.layout) !! LiveIn(s, c.layout) {
      DisjointSlabs(st, k, r, k, s);
    }
    CacheLive(c, u.caches[k], {s}, {t});
  }

  lemma OtherCacheLive(st: State, k: nat, s: Slab, j: nat)
    requires Good(st) && k < CACHES && j < CACHES && j != k && s in SlabsOf(st.caches[k])
    ensures LiveObjects(st.caches[j]) !! LiveIn(s, st.caches[k].layout)
  {
    forall r | r in SlabsOf(st.caches[j]) ensures LiveIn(r, st.caches[j].layout) !! LiveIn(s, st.caches[k].layout) {
      DisjointSlabs(st, k, s, j, r);
    }
  }

  lemma PointersApartFromObjects(st: State, k: nat, s: Slab)
    requires Good(st) && k < CACHES && s in SlabsOf(st.caches[k])
    ensures RecordLive(st.records) !! LiveIn(s, st.caches[k].layout)
  {
    forall r | r in st.records ensures r.ptr !in LiveIn(s, st.caches[k].layout) {
      assert RecordOk(st.owner, r) && RecordPage(r, r.ptr / 4096);
      if r.ptr in LiveIn(s, st.caches[k].layout) {
        OwnerOfObject(st, k, s, r.ptr);
      }
    }
  }

  /** Allocating from, or freeing into, one slab changes the live set by exactly what changes in that slab. */
  lemma SwapLive(st: State, u: State, k: nat, s: Slab, t: Slab)
    requires Good(st) && k < CACHES && Swapped(st, u, k, s, t)
    ensures CachesOk(u.caches)
    ensures Live(u) == Live(st) - LiveIn(s, st.caches[k].layout) + LiveIn(t, st.caches[k].layout)
  {
    var l := st.caches[k].layout;
    var gone, came := LiveIn(s, l), LiveIn(t, l);
    SwappedCacheLive(st, u, k, s, t);
    PointersApartFromObjects(st, k, s);
    var sets := LivePerCache(st.caches);
    forall j | 0 <= j < CACHES && j != k ensures sets[j] !! gone {
      OtherCacheLive(st, k, s, j);
    }
    UnionChanges(sets, k, gone, came);
    assert LivePerCache(u.caches) == sets[k := sets[k] - gone + came];
  }

  lemma SlabObjectsAreLive(st: State, k: nat, s: Slab)
    requires Good(st) && k < CACHES && s in SlabsOf(st.caches[k])
    ensures LiveIn(s, st.caches[k].layout) <= LiveObjects(st.caches[k]) <= Live(st)
  {
    forall a | a in LiveIn(s, st.caches[k].layout) ensures a in LiveObjects(st.caches[k]) {
    }
    assert LivePerCache(st.caches)[k] == LiveObjects(st.caches[k]);
  }

  lemma SwapGood(st: State, u: State, k: nat, s: Slab, t: Slab)
    requires Good(st) && k < CACHES && Swapped(st, u, k, s, t)
    requires k == RECORD_CACHE ==>
               st.kept.Keys !! LiveIn(s, st.caches[k].layout) - LiveIn(t, st.caches[k].layout)
    ensures Good(u)
  {
    hide GoodLayout, LiveIn, TakenIn, Chained, Fits, Unique, SlabOk, NoEmptySlab;
    SwappedCacheLive(st, u, k, s, t);
    forall j, r | 0 <= j < CACHES && r in SlabsOf(u.caches[j])
      ensures SlabOwns(u.owner, j, r, u.caches[j].layout)
      ensures j >= ON_SLAB_CACHES ==> r.addr in u.kept && u.kept[r.addr] == HeaderOf(j, r.base)
    {
      var was := if j == k && r == t then s else r;
      assert was in SlabsOf(st.caches[j]);
      assert SlabOwns(st.owner, j, was, st.caches[j].layout);
      assert forall p: nat :: PageOf(r, u.caches[j].layout, p) <==> PageOf(was, st.caches[j].layout, p);
    }
  }

  // ----- slabs and page records come and go

  predicate OnPages(base: nat, pages: nat, p: nat) {
    InRun(base / 4096, pages, p)
  }

  /** The pages of an allocation of so many pages at base. */
  ghost function PageSet(base: nat, pages: nat): set<nat> {
    Range(base / 4096, pages)
  }

  ghost function Owned(owner: map<nat, Owner>, base: nat, pages: nat, use: Owner): map<nat, Owner> {
    owner + map p | p in PageSet(base, pages) :: use
  }

  ghost predicate Added(st: State, u: State, k: nat, t: Slab)
    requires Good(st) && k < CACHES
  {
    var l := st.caches[k].layout;
    && |u.caches| == CACHES && u.caches == st.caches[k := u.caches[k]] && u.records == st.records
    && u.caches[k].layout == l && CacheOk(u.caches[k], k) && SlabsOf(u.caches[k]) == SlabsOf(st.caches[k]) + {t}
    && SlabOk(t, l) && t.used == 0 && PageSet(t.base, l.pages) !! st.owner.Keys
    && u.owner == Owned(st.owner, t.base, l.pages, SlabPages(k, t.base))
    && (if k < ON_SLAB_CACHES then u.kept == st.kept
        else t.addr in LiveObjects(st.caches[RECORD_CACHE]) && t.addr !in st.kept
             && u.kept == st.kept[t.addr := HeaderOf(k, t.base)])
  }

  lemma SameCacheLive(c: Cache, d: Cache, k: nat, s: Slab)
    requires CacheOk(c, k) && CacheOk(d, k) && d.layout == c.layout && SlabsOf(d) == SlabsOf(c) + {s} && s.used == 0
    ensures LiveObjects(d) == LiveObjects(c)
  {
    assert s in SlabsOf(d);
    LiveCount(s, c.layout);
    forall a | a in LiveObjects(d) ensures a in LiveObjects(c) {
      var r :| r in SlabsOf(d) && a in LiveIn(r, c.layout);
      assert r in SlabsOf(c);
    }
    forall a | a in LiveObjects(c) ensures a in LiveObjects(d) {
      var r :| r in SlabsOf(c) && a in LiveIn(r, c.layout);
      assert r in SlabsOf(d);
    }
  }

  lemma AddSlabLive(st: State, u: State, k: nat, t: Slab)
    requires Good(st) && k < CACHES && Added(st, u, k, t)
    ensures Live(u) == Live(st)
    ensures forall j :: 0 <= j < CACHES ==> LiveObjects(u.caches[j]) == LiveObjects(st.caches[j])
  {
    hide GoodLayout, LiveIn, Chained, Unique, SlabOk, SlabOwns, RecordOk;
    SameCacheLive(st.caches[k], u.caches[k], k, t);
    assert LivePerCache(u.caches) == LivePerCache(st.caches);
  }

  lemma OwnedPages(owner: map<nat, Owner>, base: nat, pages: nat, use: Owner)
    requires PageSet(base, pages) !! owner.Keys
    ensures forall p :: p in owner ==>
              p in Owned(owner, base, pages, use) && Owned(owner, base, pages, use)[p] == owner[p]
    ensures forall p: nat :: OnPages(base, pages, p) ==>
              p in Owned(owner, base, pages, use) && Owned(owner, base, pages, use)[p] == use
  {
    forall p: nat | OnPages(base, pages, p) ensures p in PageSet(base, pages) {
    }
  }

  lemma OwnedKeys(owner: map<nat, Owner>, base: nat, pages: nat, use: Owner)
    ensures Owned(owner, base, pages, use).Keys == owner.Keys + PageSet(base, pages)
  {
  }

  lemma AddSlabPages(st: State, u: State, k: nat, t: Slab)
    requires Good(st) && k < CACHES && Added(st, u, k, t)
    ensures GoodPages(u)
  {
    hide GoodLayout, LiveIn, TakenIn, Chained, Fits, Unique, SlabOk, NoEmptySlab, LiveObjects, CacheOk, Owned;
    var l := st.caches[k].layout;
    OwnedPages(st.owner, t.base, l.pages, SlabPages(k, t.base));
    forall j, r | 0 <= j < CACHES && r in SlabsOf(u.caches[j]) ensures SlabOwns(u.owner, j, r, u.caches[j].layout) {
      if j == k && r == t {
        assert forall p: nat :: PageOf(t, l, p) ==> OnPages(t.base, l.pages, p);
      } else {
        assert SlabOwns(st.owner, j, r, st.caches[j].layout);
      }
    }
    forall r | r in u.records ensures RecordOk(u.owner, r) {
      assert RecordOk(st.owner, r);
    }
  }

  /** A new empty slab adds nothing to the live set. */
  lemma AddSlab(st: State, u: State, k: nat, t: Slab)
    requires Good(st) && k < CACHES && Added(st, u, k, t)
    ensures Good(u) && Live(u) == Live(st)
  {
    hide SlabOk, SlabOwns, RecordOk, LiveObjects, CacheOk, Owned, GoodPages;
    AddSlabLive(st, u, k, t);
    AddSlabPages(st, u, k, t);
    forall j | 0 <= j < CACHES ensures CacheOk(u.caches[j], j) {
    }
  }

  ghost predicate Removed(st: State, u: State, k: nat, s: Slab)
    requires Good(st) && k < CACHES
  {
    var l := st.caches[k].layout;
    && |u.caches| == CACHES && u.caches == st.caches[k := u.caches[k]] && u.records == st.records
    && s in SlabsOf(st.caches[k]) && s.used == 0
    && u.caches[k].layout == l && CacheOk(u.caches[k], k) && SlabsOf(u.caches[k]) == SlabsOf(st.caches[k]) - {s}
    && u.owner == st.owner - PageSet(s.base, l.pages)
    && u.kept == (if k < ON_SLAB_CACHES then st.kept else st.kept - {s.addr})
  }

  lemma RemoveSlabLive(st: State, u: State, k: nat, s: Slab)
    requires Good(st) && k < CACHES && Removed(st, u, k, s)
    ensures Live(u) == Live(st)
    ensures forall j :: 0 <= j < CACHES ==> LiveObjects(u.caches[j]) == LiveObjects(st.caches[j])
  {
    hide GoodLayout, LiveIn, Chained, Unique, SlabOk, SlabOwns, RecordOk;
    assert SlabsOf(st.caches[k]) == SlabsOf(u.caches[k]) + {s};
    SameCacheLive(u.caches[k], st.caches[k], k, s);
    assert LivePerCache(u.caches) == LivePerCache(st.caches);
  }

  lemma RemoveSlabPages(st: State, u: State, k: nat, s: Slab)
    requires Good(st) && k < CACHES && Removed(st, u, k, s)
    ensures GoodPages(u)
  {
    hide GoodLayout, LiveIn, TakenIn, Chained, Fits, Unique, SlabOk, NoEmptySlab, LiveObjects, CacheOk, Owned;
    var l := st.caches[k].layout;
    assert SlabOwns(st.owner, k, s, l);
    assert forall p: nat :: PageOf(s, l, p) <==> OnPages(s.base, l.pages, p);
    forall j, r | 0 <= j < CACHES && r in SlabsOf(u.caches[j]) ensures SlabOwns(u.owner, j, r, u.caches[j].layout) {
      assert r in SlabsOf(st.caches[j]) && SlabOwns(st.owner, j, r, st.caches[j].layout);
      if j == k && r.base == s.base {
        SameBaseSameSlab(st.caches[k], k, r, s);
      }
    }
    forall r | r in u.records ensures RecordOk(u.owner, r) {
      assert RecordOk(st.owner, r);
    }
  }

  lemma RemoveSlabKept(st: State, u: State, k: nat, s: Slab)
    requires Good(st) && k < CACHES && Removed(st, u, k, s)
    requires LiveObjects(u.caches[RECORD_CACHE]) == LiveObjects(st.caches[RECORD_CACHE])
    ensures GoodKept(u)
  {
    hide SlabOk, SlabOwns, RecordOk, LiveObjects, CacheOk, GoodPages;
    forall j, r | ON_SLAB_CACHES <= j < CACHES && r in SlabsOf(u.caches[j])
      ensures r.addr in u.kept && u.kept[r.addr] == HeaderOf(j, r.base)
    {
      assert r in SlabsOf(st.caches[j]);
      if j == k && r.base == s.base {
        SameBaseSameSlab(st.caches[k], k, r, s);
      }
    }
  }

  /** Giving up an empty slab takes nothing from the live set; its header, if separate, is no longer kept. */
  lemma RemoveSlab(st: State, u: State, k: nat, s: Slab)
    requires Good(st) && k < CACHES && Removed(st, u, k, s)
    ensures Good(u) && Live(u) == Live(st)
  {
    hide SlabOk, SlabOwns, RecordOk, LiveObjects, CacheOk, GoodPages, GoodKept;
    RemoveSlabLive(st, u, k, s);
    RemoveSlabPages(st, u, k, s);
    RemoveSlabKept(st, u, k, s);
    forall j | 0 <= j < CACHES ensures CacheOk(u.caches[j], j) {
    }
  }

  ghost predicate Recorded(st: State, u: State, r: PageRecord)
    requires Good(st)
  {
    && u.caches == st.caches && u.records == [r] + st.records
    && r.ptr > 0 && r.ptr % PAGE_SIZE == 0 && r.pages > 0 && PageSet(r.ptr, r.pages) !! st.owner.Keys
    && u.owner == Owned(st.owner, r.ptr, r.pages, ObjectPages(r.ptr))
    && r.addr in LiveObjects(st.caches[RECORD_CACHE]) && r.addr !in st.kept
    && u.kept == st.kept[r.addr := RecordOf(r.ptr)]
  }

  lemma AddRecordPages(st: State, u: State, r: PageRecord)
    requires Good(st) && Recorded(st, u, r)
    ensures GoodPages(u) && UniqueRecords(u.records)
    ensures forall q :: q in u.records <==> q == r || q in st.records
  {
    hide GoodLayout, LiveIn, TakenIn, Chained, Fits, Unique, SlabOk, NoEmptySlab, LiveObjects, CacheOk, Owned;
    OwnedPages(st.owner, r.ptr, r.pages, ObjectPages(r.ptr));
    assert forall p: nat :: RecordPage(r, p) <==> OnPages(r.ptr, r.pages, p);
    forall j, s | 0 <= j < CACHES && s in SlabsOf(u.caches[j]) ensures SlabOwns(u.owner, j, s, u.caches[j].layout) {
      assert SlabOwns(st.owner, j, s, st.caches[j].layout);
    }
    assert r.ptr / 4096 in PageSet(r.ptr, r.pages);
    forall q | q in st.records ensures RecordOk(u.owner, q) && q.ptr != r.ptr {
      assert RecordOk(st.owner, q) && RecordPage(q, q.ptr / 4096);
    }
    assert u.records[0] == r && forall q :: q in u.records <==> q == r || q in st.records;
    assert RecordOk(u.owner, r);
  }

  /** A page allocation adds its pointer to the live set. */
  lemma AddRecord(st: State, u: State, r: PageRecord)
    requires Good(st) && Recorded(st, u, r)
    ensures Good(u) && Live(u) == Live(st) + {r.ptr} && r.ptr !in Live(st)
  {
    hide SlabOk, SlabOwns, RecordOk, LiveObjects, CacheOk, GoodPages, Owned, UniqueRecords;
    AddRecordPages(st, u, r);
    assert OnPages(r.ptr, r.pages, r.ptr / 4096);
    assert r.ptr / 4096 in PageSet(r.ptr, r.pages);
    UnownedIsNotLive(st, r.ptr);
  }

  lemma UnownedIsNotLive(st: State, a: nat)
    requires Good(st) && a / 4096 !in st.owner
    ensures a !in Live(st)
  {
    hide GoodLayout, LiveIn, TakenIn, Chained, Fits, Unique, SlabOk, NoEmptySlab;
    if a in SlabLive(st.caches) {
      var k :| 0 <= k < CACHES && a in LiveObjects(st.caches[k]);
      var s :| s in SlabsOf(st.caches[k]) && a in LiveIn(s, st.caches[k].layout);
      OwnerOfObject(st, k, s, a);
    }
    forall q | q in st.records ensures q.ptr != a {
      assert RecordOk(st.owner, q) && RecordPage(q, q.ptr / 4096);
    }
  }

  ghost predicate Unrecorded(st: State, u: State, i: nat)
    requires Good(st) && i < |st.records|
  {
    var r := st.records[i];
    && u.caches == st.caches && u.records == Without(st.records, i)
    && u.owner == st.owner - PageSet(r.ptr, r.pages) && u.kept == st.kept - {r.addr}
  }

  lemma PointersWithout(records: seq<PageRecord>, i: nat)
    requires UniqueRecords(records) && i < |records|
    ensures RecordLive(Without(records, i)) == RecordLive(records) - {records[i].ptr}
    ensures forall q :: q in Without(records, i) ==> q in records && q.ptr != records[i].ptr
  {
    var rest := Without(records, i);
    forall q | q in rest ensures q in records && q.ptr != records[i].ptr {
      var j :| 0 <= j < |rest| && rest[j] == q;
      assert q == records[if j < i then j else j + 1];
    }
    forall q | q in records && q != records[i] ensures q in rest {
      var j :| 0 <= j < |records| && records[j] == q;
      assert rest[if j < i then j else j - 1] == q;
    }
    forall a | a in RecordLive(records) - {records[i].ptr} ensures a in RecordLive(rest) {
      var q :| q in records && q.ptr == a;
      assert q in rest;
    }
  }

  lemma RemoveRecordPages(st: State, u: State, i: nat)
    requires Good(st) && i < |st.records| && Unrecorded(st, u, i)
    ensures GoodPages(u) && UniqueRecords(u.records)
  {
    hide GoodLayout, LiveIn, TakenIn, Chained, Fits, Unique, SlabOk, NoEmptySlab, LiveObjects, CacheOk, Owned;
    var r := st.records[i];
    assert RecordOk(st.owner, r);
    assert forall p: nat :: RecordPage(r, p) <==> OnPages(r.ptr, r.pages, p);
    assert forall j :: 0 <= j < |u.records| ==> u.records[j] == st.records[if j < i then j else j + 1];
    PointersWithout(st.records, i);
    forall j, s | 0 <= j < CACHES && s in SlabsOf(u.caches[j]) ensures SlabOwns(u.owner, j, s, u.caches[j].layout) {
      assert SlabOwns(st.owner, j, s, st.caches[j].layout);
    }
    forall q | q in u.records ensures RecordOk(u.owner, q) {
      assert RecordOk(st.owner, q);
    }
  }

  /** Freeing a page allocation takes its pointer from the live set; its record is no longer kept. */
  lemma RemoveRecord(st: State, u: State, i: nat)
    requires Good(st) && i < |st.records| && Unrecorded(st, u, i)
    ensures Good(u) && Live(u) == Live(st) - {st.records[i].ptr}
  {
    hide SlabOk, SlabOwns, RecordOk, LiveObjects, CacheOk, GoodPages, UniqueRecords;
    var r := st.records[i];
    RemoveRecordPages(st, u, i);
    PointersWithout(st.records, i);
    PointerIsNoObject(st, r);
  }

  lemma PointerIsNoObject(st: State, r: PageRecord)
    requires Good(st) && r in st.records
    ensures r.ptr !in SlabLive(st.caches)
  {
    hide GoodLayout, LiveIn, TakenIn, Chained, Fits, Unique, SlabOk, NoEmptySlab;
    if r.ptr in SlabLive(st.caches) {
      var k :| 0 <= k < CACHES && r.ptr in LiveObjects(st.caches[k]);
      var s :| s in SlabsOf(st.caches[k]) && r.ptr in LiveIn(s, st.caches[k].layout);
      PointersApartFromObjects(st, k, s);
    }
  }

  // ----- the live objects of callers

  lemma KeptIsLive(st: State)
    requires Good(st)
    ensures st.kept.Keys <= Live(st)
  {
    assert LivePerCache(st.caches)[RECORD_CACHE] == LiveObjects(st.caches[RECORD_CACHE]);
  }

  /** The allocator keeps one object for itself. */
  lemma KeepOne(live: set<nat>, keys: set<nat>, user: set<nat>, h: nat)
    requires live - keys == user + {h} && h !in user
    ensures live - (keys + {h}) == user
  {
  }

  /** One object is handed out. */
  lemma HandOutOne(live: set<nat>, keys: set<nat>, p: nat)
    requires keys <= live && p !in live
    ensures (live + {p}) - keys == (live - keys) + {p}
  {
  }

  // ----- finding the owner of a pointer

  /** The test of free_from_slab_list: the pointer lies in the object memory of the slab. */
  predicate InObjects(s: Slab, l: Layout, p: nat) {
    s.mem <= p < s.mem + l.count * l.size
  }

  /** An object lies in the object memory of its slab, and a slab with a live pointer in it owns that pointer. */
  lemma FoundIsOwner(st: State, k: nat, s: Slab, p: nat)
    requires Good(st) && k < CACHES && s in SlabsOf(st.caches[k]) && InObjects(s, st.caches[k].layout, p)
             && p in Live(st)
    ensures p in LiveIn(s, st.caches[k].layout)
    ensures p / 4096 in st.owner && st.owner[p / 4096] == SlabPages(k, s.base)
  {
    hide Unique, UniqueRecords, GoodKept, Chained, LiveIn;
    var l := st.caches[k].layout;
    assert SlabOk(s, l) && SlabOwns(st.owner, k, s, l);
    PartsDoNotOverlap(l, 0);
    PageOfOffset(s.base, p - s.base, l.pages);
    assert PageOf(s, l, p / 4096);
    forall r | r in st.records ensures r.ptr != p {
      assert RecordOk(st.owner, r) && RecordPage(r, r.ptr / 4096);
    }
    var j :| 0 <= j < CACHES && p in LiveObjects(st.caches[j]);
    var r :| r in SlabsOf(st.caches[j]) && p in LiveIn(r, st.caches[j].layout);
    OwnerOfObject(st, j, r, p);
    SameBaseSameSlab(st.caches[k], k, r, s);
  }

  lemma OwnerIsFound(st: State, p: nat)
    requires Good(st) && p in SlabLive(st.caches)
    ensures exists k, s :: 0 <= k < CACHES && s in SlabsOf(st.caches[k]) && InObjects(s, st.caches[k].layout, p)
  {
    var k :| 0 <= k < CACHES && p in LiveObjects(st.caches[k]);
    var s :| s in SlabsOf(st.caches[k]) && p in LiveIn(s, st.caches[k].layout);
    var l := st.caches[k].layout;
    var i :| i in TakenIn(s, l) && AddressOf(s, l, i) == p;
    ObjectOnPage(s, l, i);
  }

  /** The index that kfree computes from an object's address. */
  lemma IndexOfObject(s: Slab, l: Layout, p: nat)
    requires SlabOk(s, l) && p in LiveIn(s, l)
    ensures s.mem <= p && (p - s.mem) / l.size in TakenIn(s, l) && AddressOf(s, l, (p - s.mem) / l.size) == p
    ensures s.used > 0
  {
    var i :| i in TakenIn(s, l) && AddressOf(s, l, i) == p;
    ExactQuotient(i, l.size);
    LiveCount(s, l);
  }

  lemma ExactQuotient(i: nat, size: nat)
    requires size > 0
    ensures i * size / size == i
  {
    var q := i * size / size;
    QuotientTimesDivisor(i * size, size);
    RemainderIsUnique(i * size, size, i, 0);
    if q != i {
      NonZeroMultiple(size, q - i);
    }
  }

  lemma UserIsLive(st: State, p: nat)
    requires p in UserLive(st)
    ensures p in Live(st) && p !in st.kept
  {
  }

  /** One object is taken back. */
  lemma TakeBackOne(live: set<nat>, keys: set<nat>, p: nat)
    ensures (live - {p}) - keys == (live - keys) - {p}
  {
  }

  /** The allocator gives up an object it kept for itself. */
  lemma GiveUpOne(live: set<nat>, keys: set<nat>, h: nat)
    requires h in live && h in keys
    ensures live - (keys - {h}) == (live - keys) + {h} && h !in live - keys
  {
  }

  lemma InsidePages(s: Slab, l: Layout, i: nat)
    requires SlabOk(s, l) && i < l.count
    ensures s.base + l.header + INDEX_SIZE * l.count <= AddressOf(s, l, i)
    ensures AddressOf(s, l, i) + l.size <= s.base + PAGE_SIZE * l.pages
  {
    PartsDoNotOverlap(l, i);
    assert AddressOf(s, l, i) == s.base + ObjectAt(l, i);
  }

  /** Different slabs have different pages. */
  lemma SlabPagesApart(st: State, k: nat, s: Slab, j: nat, r: Slab)
    requires Good(st) && k < CACHES && j < CACHES && s in SlabsOf(st.caches[k]) && r in SlabsOf(st.caches[j])
    requires k != j || s != r
    ensures s.base + PAGE_SIZE * st.caches[k].layout.pages <= r.base
            || r.base + PAGE_SIZE * st.caches[j].layout.pages <= s.base
  {
    hide Unique, UniqueRecords, GoodKept, Chained;
    var l, m := st.caches[k].layout, st.caches[j].layout;
    assert SlabOwns(st.owner, k, s, l) && SlabOwns(st.owner, j, r, m);
    var p := if s.base < r.base then r.base / 4096 else s.base / 4096;
    if PageOf(s, l, p) && PageOf(r, m, p) {
      SameBaseSameSlab(st.caches[k], k, s, r);
    }
  }

  // ----- nothing overlaps

  /**
   A part of memory in use: a live object, the pages of a live page allocation, the header on a slab, or
   the free array of a slab.  Headers off the slab are live objects.
   */
  datatype Part =
    | ObjectPart(cache: nat, slab: Slab, index: nat)
    | PagesPart(record: PageRecord)
    | HeaderPart(cache: nat, slab: Slab)
    | FreeArrayPart(cache: nat, slab: Slab)

  ghost predicate PartOf(st: State, part: Part)
    requires Good(st)
  {
    match part
    case ObjectPart(k, s, i) => k < CACHES && s in SlabsOf(st.caches[k]) && i in TakenIn(s, st.caches[k].layout)
    case PagesPart(r) => r in st.records
    case HeaderPart(k, s) => k < ON_SLAB_CACHES && s in SlabsOf(st.caches[k])
    case FreeArrayPart(k, s) => k < CACHES && s in SlabsOf(st.caches[k])
  }

  function StartOf(caches: seq<Cache>, part: Part): nat
    requires |caches| == CACHES && (part.ObjectPart? || part.FreeArrayPart? ==> part.cache < CACHES)
  {
    match part
    case ObjectPart(k, s, i) => AddressOf(s, caches[k].layout, i)
    case PagesPart(r) => r.ptr
    case HeaderPart(k, s) => s.addr
    case FreeArrayPart(k, s) => s.base + caches[k].layout.header
  }

  function SizeOf(caches: seq<Cache>, part: Part): nat
    requires |caches| == CACHES && (part.ObjectPart? || part.FreeArrayPart? ==> part.cache < CACHES)
  {
    match part
    case ObjectPart(k, s, i) => caches[k].layout.size
    case PagesPart(r) => 4096 * r.pages
    case HeaderPart(k, s) => 3 * 8 + 2 * 4
    case FreeArrayPart(k, s) => 4 * caches[k].layout.count
  }

  /** The pages that a part lies on. */
  function BaseOf(part: Part): nat {
    if part.PagesPart? then part.record.ptr else part.slab.base
  }

  function PagesUnder(caches: seq<Cache>, part: Part): nat
    requires |caches| == CACHES && (!part.PagesPart? ==> part.cache < CACHES)
  {
    if part.PagesPart? then part.record.pages else caches[part.cache].layout.pages
  }

  function UseOf(part: Part): Owner {
    if part.PagesPart? then ObjectPages(part.record.ptr) else SlabPages(part.cache, part.slab.base)
  }

  lemma PartOnItsPages(st: State, part: Part)
    requires Good(st) && PartOf(st, part)
    ensures BaseOf(part) % PAGE_SIZE == 0 && PagesUnder(st.caches, part) > 0
    ensures BaseOf(part) <= StartOf(st.caches, part)
    ensures StartOf(st.caches, part) + SizeOf(st.caches, part) <= BaseOf(part) + PAGE_SIZE * PagesUnder(st.caches, part)
    ensures forall p: nat :: OnPages(BaseOf(part), PagesUnder(st.caches, part), p) ==>
              p in st.owner && st.owner[p] == UseOf(part)
  {
    hide Unique, UniqueRecords, GoodKept, Chained, Fits;
    match part
    case PagesPart(r) =>
      assert RecordOk(st.owner, r);
      assert forall p: nat :: OnPages(r.ptr, r.pages, p) ==> RecordPage(r, p);
    case ObjectPart(k, s, i) =>
      SlabOnItsPages(st, k, s);
      InsidePages(s, st.caches[k].layout, i);
    case HeaderPart(k, s) =>
      SlabOnItsPages(st, k, s);
    case FreeArrayPart(k, s) =>
      SlabOnItsPages(st, k, s);
  }

  lemma SlabOnItsPages(st: State, k: nat, s: Slab)
    requires Good(st) && k < CACHES && s in SlabsOf(st.caches[k])
    ensures SlabOk(s, st.caches[k].layout)
    ensures ObjectsAt(st.caches[k].layout) <= PAGE_SIZE * st.caches[k].layout.pages
    ensures forall p: nat :: OnPages(s.base, st.caches[k].layout.pages, p) ==>
              p in st.owner && st.owner[p] == SlabPages(k, s.base)
    ensures st.caches[k].layout.header + INDEX_SIZE * st.caches[k].layout.count <= ObjectsAt(st.caches[k].layout)
    ensures k < ON_SLAB_CACHES ==> s.addr == s.base && st.caches[k].layout.header == SLAB_HEADER
  {
    hide Unique, UniqueRecords, GoodKept, Chained, Fits;
    PartsDoNotOverlap(st.caches[k].layout, 0);
    assert SlabOwns(st.owner, k, s, st.caches[k].layout);
    assert forall p: nat :: OnPages(s.base, st.caches[k].layout.pages, p) ==> PageOf(s, st.caches[k].layout, p);
  }

  lemma DifferentUsesApart(owner: map<nat, Owner>, base: nat, pages: nat, use: Owner,
                           base': nat, pages': nat, use': Owner)
    requires base % PAGE_SIZE == 0 && base' % PAGE_SIZE == 0 && pages > 0 && pages' > 0 && use != use'
    requires forall p: nat :: OnPages(base, pages, p) ==> p in owner && owner[p] == use
    requires forall p: nat :: OnPages(base', pages', p) ==> p in owner && owner[p] == use'
    ensures base + PAGE_SIZE * pages <= base' || base' + PAGE_SIZE * pages' <= base
  {
    var p := if base < base' then base' / 4096 else base / 4096;
    assert !(OnPages(base, pages, p) && OnPages(base', pages', p));
  }

  ghost predicate ApartInMemory(caches: seq<Cache>, p: Part, q: Part)
    requires |caches| == CACHES
    requires p.ObjectPart? || p.FreeArrayPart? ==> p.cache < CACHES
    requires q.ObjectPart? || q.FreeArrayPart? ==> q.cache < CACHES
  {
    || StartOf(caches, p) + SizeOf(caches, p) <= StartOf(caches, q)
    || StartOf(caches, q) + SizeOf(caches, q) <= StartOf(caches, p)
  }

  /** Parts of one slab follow each other. */
  lemma PartsOfOneSlab(st: State, p: Part, q: Part)
    requires Good(st) && PartOf(st, p) && PartOf(st, q) && p != q
    requires !p.PagesPart? && !q.PagesPart? && p.cache == q.cache && p.slab == q.slab
    ensures ApartInMemory(st.caches, p, q)
  {
    hide Unique, UniqueRecords, GoodKept, GoodPages, Chained, Fits;
    var l, s := st.caches[p.cache].layout, p.slab;
    SlabOnItsPages(st, p.cache, s);
    if p.ObjectPart? {
      InsidePages(s, l, p.index);
    }
    if q.ObjectPart? {
      InsidePages(s, l, q.index);
    }
    if p.ObjectPart? && q.ObjectPart? {
      if p.index < q.index {
        LaterObject(p.index, q.index, l.size);
      } else {
        LaterObject(q.index, p.index, l.size);
      }
    }
  }

  /**
   Nothing that is in use overlaps anything else that is: live objects of any cache, whole page
   allocations, headers and free arrays.
   */
  lemma NothingOverlaps(st: State, p: Part, q: Part)
    requires Good(st) && PartOf(st, p) && PartOf(st, q) && p != q
    ensures ApartInMemory(st.caches, p, q)
  {
    hide GoodPages, GoodKept, Chained, GoodLayout, UniqueRecords, SlabOk;
    if UseOf(p) != UseOf(q) {
      PartOnItsPages(st, p);
      PartOnItsPages(st, q);
      DifferentUsesApart(st.owner, BaseOf(p), PagesUnder(st.caches, p), UseOf(p),
                         BaseOf(q), PagesUnder(st.caches, q), UseOf(q));
    } else if p.PagesPart? {
      SamePointerSameRecord(st, p.record, q.record);
    } else {
      SameBaseSameSlab(st.caches[p.cache], p.cache, p.slab, q.slab);
      PartsOfOneSlab(st, p, q);
    }
  }

  lemma SamePointerSameRecord(st: State, r: PageRecord, q: PageRecord)
    requires Good(st) && r in st.records && q in st.records && r.ptr == q.ptr
    ensures r == q
  {
  }

  /** The live pointers are the starts of objects and page allocations, so the theorem above is about all of them. */
  lemma LivePointersArePartStarts(st: State, a: nat)
    requires Good(st)
    ensures a in Live(st) <==>
            exists part: Part ::
              PartOf(st, part) && (part.ObjectPart? || part.PagesPart?) && StartOf(st.caches, part) == a
  {
    hide GoodPages, GoodKept, Chained, GoodLayout, UniqueRecords, Unique, SlabOk;
    if a in SlabLive(st.caches) {
      var k :| 0 <= k < CACHES && a in LiveObjects(st.caches[k]);
      var s :| s in SlabsOf(st.caches[k]) && a in LiveIn(s, st.caches[k].layout);
      var i :| i in TakenIn(s, st.caches[k].layout) && AddressOf(s, st.caches[k].layout, i) == a;
      assert PartOf(st, ObjectPart(k, s, i)) && StartOf(st.caches, ObjectPart(k, s, i)) == a;
    } else if a in RecordLive(st.records) {
      var r :| r in st.records && r.ptr == a;
      assert PartOf(st, PagesPart(r)) && StartOf(st.caches, PagesPart(r)) == a;
    }
    if part: Part :| PartOf(st, part) && (part.ObjectPart? || part.PagesPart?) && StartOf(st.caches, part) == a {
      if part.ObjectPart? {
        SlabObjectsAreLive(st, part.cache, part.slab);
        assert a in LiveIn(part.slab, st.caches[part.cache].layout);
      }
    }
  }

  // ----- nothing is lost

  /** What a page is said to be used for is there, and covers the page. */
  ghost predicate InUse(caches: seq<Cache>, records: seq<PageRecord>, p: nat, use: Owner)
    requires |caches| == CACHES
  {
    match use
    case SlabPages(k, base) => k < CACHES && exists s <- SlabsOf(caches[k]) ::
        s.base == base && PageOf(s, caches[k].layout, p)
    case ObjectPages(ptr) => exists r <- records :: r.ptr == ptr && RecordPage(r, p)
  }

  /** The slab or page record that an object is kept for is there, and names the object. */
  ghost predicate Needed(caches: seq<Cache>, records: seq<PageRecord>, a: nat, keeper: Keeper)
    requires |caches| == CACHES
  {
    match keeper
    case HeaderOf(k, base) => ON_SLAB_CACHES <= k < CACHES && exists s <- SlabsOf(caches[k]) ::
        s.base == base && s.addr == a
    case RecordOf(ptr) => exists r <- records :: r.ptr == ptr && r.addr == a
  }

  /** The allocator holds no page and keeps no object without a use for it. */
  ghost predicate NoLeak(st: State) {
    && |st.caches| == CACHES
    && (forall p <- st.owner :: InUse(st.caches, st.records, p, st.owner[p]))
    && (forall a <- st.kept :: Needed(st.caches, st.records, a, st.kept[a]))
  }

  lemma SwapLeaksNothing(st: State, u: State, k: nat, s: Slab, t: Slab)
    requires Good(st) && k < CACHES && Swapped(st, u, k, s, t) && NoLeak(st)
    ensures NoLeak(u)
  {
    hide Good, CacheOk;
    assert t in SlabsOf(u.caches[k]);
    forall p | p in u.owner ensures InUse(u.caches, u.records, p, u.owner[p]) {
      assert InUse(st.caches, st.records, p, st.owner[p]);
      if st.owner[p].SlabPages? && st.owner[p].cache == k {
        var r :| r in SlabsOf(st.caches[k]) && r.base == st.owner[p].base && PageOf(r, st.caches[k].layout, p);
        assert r != s ==> r in SlabsOf(u.caches[k]);
      }
    }
    forall a | a in u.kept ensures Needed(u.caches, u.records, a, u.kept[a]) {
      assert Needed(st.caches, st.records, a, st.kept[a]);
      if st.kept[a].HeaderOf? && st.kept[a].cache == k {
        var r :| r in SlabsOf(st.caches[k]) && r.base == st.kept[a].base && r.addr == a;
        assert r != s ==> r in SlabsOf(u.caches[k]);
      }
    }
  }

  lemma AddSlabLeaksNothing(st: State, u: State, k: nat, t: Slab)
    requires Good(st) && k < CACHES && Added(st, u, k, t) && NoLeak(st)
    ensures NoLeak(u)
  {
    hide Good, CacheOk, SlabOk, LiveObjects;
    var l := st.caches[k].layout;
    assert t in SlabsOf(u.caches[k]);
    forall p | p in u.owner ensures InUse(u.caches, u.records, p, u.owner[p]) {
      if p in PageSet(t.base, l.pages) {
        assert PageOf(t, l, p);
      } else {
        assert InUse(st.caches, st.records, p, st.owner[p]);
      }
    }
    forall a | a in u.kept ensures Needed(u.caches, u.records, a, u.kept[a]) {
      if a in st.kept {
        assert Needed(st.caches, st.records, a, st.kept[a]);
      }
    }
  }

  lemma RemoveSlabLeaksNothing(st: State, u: State, k: nat, s: Slab)
    requires Good(st) && k < CACHES && Removed(st, u, k, s) && NoLeak(st)
    ensures NoLeak(u)
  {
    hide Good, SlabOk, LiveObjects;
    assert CacheOk(st.caches[k], k) by { CacheIsOk(st, k); }
    forall p | p in u.owner ensures InUse(u.caches, u.records, p, u.owner[p]) {
      assert InUse(st.caches, st.records, p, st.owner[p]);
      if st.owner[p].SlabPages? && st.owner[p].cache == k {
        var r :| r in SlabsOf(st.caches[k]) && r.base == st.owner[p].base && PageOf(r, st.caches[k].layout, p);
        assert OnPages(r.base, st.caches[k].layout.pages, p);
      }
    }
    forall a | a in u.kept ensures Needed(u.caches, u.records, a, u.kept[a]) {
      assert Needed(st.caches, st.records, a, st.kept[a]);
    }
  }

  lemma CacheIsOk(st: State, k: nat)
    requires Good(st) && k < CACHES
    ensures |st.caches| == CACHES && CacheOk(st.caches[k], k)
  {
  }

  lemma AddRecordLeaksNothing(st: State, u: State, r: PageRecord)
    requires Good(st) && Recorded(st, u, r) && NoLeak(st)
    ensures NoLeak(u)
  {
    hide Good, CacheOk, LiveObjects;
    assert r in u.records && forall q <- st.records :: q in u.records;
    forall p | p in u.owner ensures InUse(u.caches, u.records, p, u.owner[p]) {
      if p in PageSet(r.ptr, r.pages) {
        assert RecordPage(r, p);
      } else {
        assert InUse(st.caches, st.records, p, st.owner[p]);
      }
    }
    forall a | a in u.kept ensures Needed(u.caches, u.records, a, u.kept[a]) {
      if a in st.kept {
        assert Needed(st.caches, st.records, a, st.kept[a]);
      }
    }
  }

  lemma RemoveRecordLeaksNothing(st: State, u: State, i: nat)
    requires Good(st) && i < |st.records| && Unrecorded(st, u, i) && NoLeak(st)
    ensures NoLeak(u)
  {
    hide Good, CacheOk, LiveObjects;
    var r := st.records[i];
    assert forall q <- st.records :: q == r || q in u.records by {
      OthersStay(st.records, i);
    }
    forall p | p in u.owner ensures InUse(u.caches, u.records, p, u.owner[p]) {
      assert InUse(st.caches, st.records, p, st.owner[p]);
      assert RecordPage(r, p) ==> OnPages(r.ptr, r.pages, p);
    }
    forall a | a in u.kept ensures Needed(u.caches, u.records, a, u.kept[a]) {
      assert Needed(st.caches, st.records, a, st.kept[a]);
    }
  }

  lemma OthersStay(records: seq<PageRecord>, i: nat)
    requires i < |records|
    ensures forall q <- records :: q == records[i] || q in Without(records, i)
  {
    forall q | q in records && q != records[i] ensures q in Without(records, i) {
      var j :| 0 <= j < |records| && records[j] == q;
      LeftWithout(records, i, j);
    }
  }

  /** A slab that is not empty has a live object. */
  lemma UsedSlabIsLive(st: State, k: nat, s: Slab) returns (a: nat)
    requires Good(st) && Tidy(st) && k < CACHES && s in SlabsOf(st.caches[k])
    ensures a in LiveIn(s, st.caches[k].layout) && a in LiveObjects(st.caches[k]) && a in Live(st)
  {
    var l := st.caches[k].layout;
    assert SlabOk(s, l) && s.used > 0;
    LiveCount(s, l);
    var i :| i in TakenIn(s, l);
    a := AddressOf(s, l, i);
    assert a in LiveIn(s, l);
    SlabObjectsAreLive(st, k, s);
  }

  /** Once callers hold nothing, the allocator holds nothing: every page it was given has been freed. */
  lemma NothingHeldNothingOwned(st: State)
    requires Good(st) && Tidy(st) && NoLeak(st) && UserLive(st) == {}
    ensures st.owner == map[] && st.kept == map[] && st.records == []
    ensures forall k :: 0 <= k < CACHES ==> st.caches[k].part == st.caches[k].full == []
  {
    hide GoodPages, Chained, GoodLayout, Unique, LiveIn, UniqueRecords;
    assert forall a <- st.kept :: Needed(st.caches, st.records, a, st.kept[a]);
    assert forall p <- st.owner :: InUse(st.caches, st.records, p, st.owner[p]);
    if st.records != [] {
      PagePointerIsUsers(st, st.records[0]);
    }
    forall k, s | ON_SLAB_CACHES <= k < CACHES ensures s !in SlabsOf(st.caches[k]) {
      if s in SlabsOf(st.caches[k]) {
        var a := UsedSlabIsLive(st, k, s);
        LargeObjectIsUsers(st, k, s, a);
      }
    }
    assert st.kept == map[];
    assert Live(st) == UserLive(st);
    forall k, s | 0 <= k < CACHES ensures s !in SlabsOf(st.caches[k]) {
      if s in SlabsOf(st.caches[k]) {
        var a := UsedSlabIsLive(st, k, s);
      }
    }
    assert st.owner == map[];
    forall k | 0 <= k < CACHES ensures st.caches[k].part == st.caches[k].full == [] {
      if st.caches[k].part != [] || st.caches[k].full != [] {
        var s := SomeSlab(st.caches[k]);
      }
    }
  }

  lemma SomeSlab(c: Cache) returns (s: Slab)
    requires c.part != [] || c.full != []
    ensures s in SlabsOf(c)
  {
    s := if c.part != [] then c.part[0] else c.full[0];
  }

  lemma PagePointerIsUsers(st: State, r: PageRecord)
    requires Good(st) && r in st.records
    ensures r.ptr in UserLive(st)
  {
    PointerIsNoObject(st, r);
    assert LivePerCache(st.caches)[RECORD_CACHE] == LiveObjects(st.caches[RECORD_CACHE]);
    assert r.ptr in st.kept ==> r.ptr in SlabLive(st.caches);
  }

  lemma LargeObjectIsUsers(st: State, k: nat, s: Slab, a: nat)
    requires Good(st) && ON_SLAB_CACHES <= k < CACHES && s in SlabsOf(st.caches[k])
             && a in LiveIn(s, st.caches[k].layout)
    ensures a in UserLive(st)
  {
    SlabObjectsAreLive(st, k, s);
    if a in st.kept {
      var r :| r in SlabsOf(st.caches[RECORD_CACHE]) && a in LiveIn(r, st.caches[RECORD_CACHE].layout);
      OneSlabPerObject(st, k, s, RECORD_CACHE, r, a);
    }
  }
}
