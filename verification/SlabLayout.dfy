/**
 How a slab is laid out: an optional header, an array of free indices, and as many objects as fit.
 All quantities are bytes.
 */
module SlabLayout {
  import opened Blocks

  const SLAB_HEADER: nat := 3 * 8 + 2 * 4
  const OFF_SLAB_THRESHOLD: nat := 512
  const MIN_OBJECTS: nat := 4
  const INDEX_SIZE: nat := 4
  const MAX_ALIGN: nat := 16

  const CACHE_START_ORDER: nat := 4
  const CACHE_END_ORDER: nat := 11

  /** The least order, from `order` on, whose objects are large enough; one past the last when there is none. */
  function OrderFrom(size: nat, order: nat): nat
    decreases CACHE_END_ORDER + 1 - order
  {
    if Size(order) < size && order <= CACHE_END_ORDER then OrderFrom(size, order + 1) else order
  }

  function OrderFor(size: nat): nat {
    OrderFrom(size, CACHE_START_ORDER)
  }

  lemma {:induction false} OrderFromBounds(size: nat, order: nat)
    requires order <= CACHE_END_ORDER + 1
    ensures order <= OrderFrom(size, order) <= CACHE_END_ORDER + 1
    ensures OrderFrom(size, order) <= CACHE_END_ORDER ==> size <= Size(OrderFrom(size, order))
    ensures OrderFrom(size, order) > order ==> Size(OrderFrom(size, order) - 1) < size
    decreases CACHE_END_ORDER + 1 - order
  {
    if Size(order) < size && order <= CACHE_END_ORDER {
      OrderFromBounds(size, order + 1);
    }
  }

  /** get_min_cache_order */
  method MinCacheOrder(size: nat) returns (order: nat)
    ensures order == OrderFor(size) && CACHE_START_ORDER <= order <= CACHE_END_ORDER + 1
  {
    order := CACHE_START_ORDER;
    while Size(order) < size && order <= CACHE_END_ORDER
      invariant CACHE_START_ORDER <= order <= CACHE_END_ORDER + 1
      invariant OrderFrom(size, order) == OrderFor(size)
      decreases CACHE_END_ORDER + 1 - order
    {
      order := order + 1;
    }
  }

  /** Requests of up to 2048 bytes are served from a cache of objects at least that large, others in pages. */
  lemma OrderForBounds(size: nat)
    ensures CACHE_START_ORDER <= OrderFor(size) <= CACHE_END_ORDER + 1
    ensures OrderFor(size) <= CACHE_END_ORDER <==> size <= 2048
    ensures size <= 2048 ==> size <= Size(OrderFor(size))
    ensures 16 < size <= 32 ==> OrderFor(size) == CACHE_START_ORDER + 1
    ensures OrderFor(size) > 8 <==> size > 256
    ensures OrderFor(size) > 10 <==> size > 1024
  {
    OrderFromBounds(size, CACHE_START_ORDER);
    assert Size(4) == 16 && Size(5) == 32;
    assert Size(8) == 256;
    assert Size(10) == 1024 && Size(11) == 2048;
    if OrderFor(size) <= CACHE_END_ORDER {
      SizeGrows(OrderFor(size), CACHE_END_ORDER);
      if OrderFor(size) > 8 {
        SizeGrows(8, OrderFor(size) - 1);
      } else {
        SizeGrows(OrderFor(size), 8);
      }
      if OrderFor(size) <= 10 {
        SizeGrows(OrderFor(size), 10);
      }
    } else {
      assert Size(CACHE_END_ORDER) < size;
    }
  }

  /** round_up_to_multiple(n, MAX_ALIGN) */
  function RoundUp(n: nat): (r: nat)
    ensures r % MAX_ALIGN == 0 && n <= r < n + MAX_ALIGN
  {
    (n + 15) / 16 * 16
  }

  datatype Layout = Layout(size: nat, pages: nat, header: nat, count: nat, freeArray: nat)

  /** Bytes for the free array and the objects. */
  function Room(size: nat, pages: nat): int {
    PAGE_SIZE * pages - (if size < OFF_SLAB_THRESHOLD then SLAB_HEADER else 0)
  }

  /** So many objects and their free array fit. */
  predicate Fits(size: nat, pages: nat, count: nat) {
    count * size + RoundUp(INDEX_SIZE * count) <= Room(size, pages)
  }

  /** The layout leaves room for the objects, for the most objects possible. */
  predicate GoodLayout(l: Layout) {
    && l.size >= MAX_ALIGN && l.size % MAX_ALIGN == 0 && l.pages > 0 && l.count > 0
    && l.header == (if l.size < OFF_SLAB_THRESHOLD then SLAB_HEADER else 0)
    && l.freeArray == RoundUp(INDEX_SIZE * l.count)
    && Fits(l.size, l.pages, l.count)
  }

  /** Offset of the first object, and of object i, from the start of the slab's pages. */
  function ObjectsAt(l: Layout): nat {
    l.header + l.freeArray
  }

  function ObjectAt(l: Layout, i: nat): nat {
    ObjectsAt(l) + i * l.size
  }

  lemma LargerNeedsMore(size: nat, pages: nat, low: nat, high: nat)
    requires low <= high && Fits(size, pages, high)
    ensures Fits(size, pages, low)
  {
    ProductGrows(low, high, size);
    RoundUpGrows(INDEX_SIZE * low, INDEX_SIZE * high);
  }

  lemma ProductGrows(low: nat, high: nat, size: nat)
    requires low <= high
    ensures low * size <= high * size
  {
    assert (high - low) * size >= 0;
  }

  lemma RoundUpGrows(low: nat, high: nat)
    requires low <= high
    ensures RoundUp(low) <= RoundUp(high)
  {
  }

  /** The loop that gives a slab pages for at least MIN_OBJECTS objects, headers aside. */
  method PagesFor(size: nat) returns (pages: nat)
    requires size > 0
    ensures pages > 0 && PAGE_SIZE * pages / size >= MIN_OBJECTS
    ensures pages > 1 ==> PAGE_SIZE * (pages - 1) / size < MIN_OBJECTS
  {
    pages := 1;
    while PAGE_SIZE * pages / size < MIN_OBJECTS
      invariant pages > 0 && (pages > 1 ==> PAGE_SIZE * (pages - 1) / size < MIN_OBJECTS)
      decreases MIN_OBJECTS * size - PAGE_SIZE * pages
    {
      QuotientBelow(PAGE_SIZE * pages, size, MIN_OBJECTS);
      pages := pages + 1;
    }
  }

  lemma QuotientBelow(x: nat, d: nat, q: nat)
    requires d > 0
    ensures x / d < q <==> x < q * d
  {
    QuotientIsLargest(x, d);
    if x / d < q {
      assert q * d > x;
    } else {
      assert q * d <= x / d * d;
    }
  }

  /** room / size, ignoring the free array */
  function MostObjects(room: nat, size: nat): (count: nat)
    requires size > 0
    ensures count * size <= room
    ensures forall c: nat :: c > count ==> c * size > room
  {
    QuotientIsLargest(room, size);
    room / size
  }

  /**
     The count loop of initialize_slab_allocator, for any object size that is a multiple of 16 and any
     page count: the largest number of objects that fits, 0 when not even one does.
   */
  method ComputeLayout(size: nat, pages: nat) returns (l: Layout)
    requires size >= MAX_ALIGN && size % MAX_ALIGN == 0 && pages > 0
    ensures l.size == size && l.pages == pages
    ensures forall c: nat :: c > l.count ==> !Fits(size, pages, c)
    ensures if l.count > 0 then GoodLayout(l) else !Fits(size, pages, 1)
  {
    var room := PAGE_SIZE * pages;
    if size < OFF_SLAB_THRESHOLD {
      room := room - SLAB_HEADER;
    }
    var count := MostObjects(room, size);
    var freeArray := 0;
    while count != 0
      invariant 0 <= count && count * size <= room
      invariant forall c: nat :: c > count ==> !Fits(size, pages, c)
    {
      var memSize := count * size;
      freeArray := RoundUp(INDEX_SIZE * count);
      if room - memSize >= freeArray {
        break;
      }
      assert !Fits(size, pages, count);
      OneLess(count, size);
      count := count - 1;
    }
    l := Layout(size, pages, if size < OFF_SLAB_THRESHOLD then SLAB_HEADER else 0, count, freeArray);
  }

  lemma OneLess(count: nat, size: nat)
    requires count > 0
    ensures 0 <= (count - 1) * size == count * size - size
  {
  }

  lemma QuotientIsLargest(room: nat, size: nat)
    requires size > 0
    ensures room / size * size <= room
    ensures forall c: nat :: c > room / size ==> c * size > room
    ensures room >= size ==> room / size >= 1
  {
    forall c: nat | c > room / size ensures c * size > room {
      assert c * size >= (room / size + 1) * size;
    }
  }

  /** Header, free array and objects lie one behind the other inside the slab's pages, objects aligned. */
  lemma PartsDoNotOverlap(l: Layout, i: nat)
    requires GoodLayout(l) && i < l.count
    ensures l.header + INDEX_SIZE * l.count <= ObjectsAt(l) <= ObjectAt(l, i)
    ensures ObjectAt(l, i) + l.size <= ObjectsAt(l) + l.count * l.size <= PAGE_SIZE * l.pages
    ensures ObjectAt(l, i) % MAX_ALIGN == 0
  {
    LaterObject(i, l.count, l.size);
    MultipleOfMultiple(i, l.size);
    AlignedSum(l.header, l.freeArray, i * l.size);
  }

  lemma AlignedSum(a: nat, b: nat, c: nat)
    requires a % MAX_ALIGN == 0 && b % MAX_ALIGN == 0 && c % MAX_ALIGN == 0
    ensures (a + b + c) % MAX_ALIGN == 0
  {
    var x, y, z := a / 16, b / 16, c / 16;
    assert a + b + c == 16 * (x + y + z);
    MultipleIsAligned(x + y + z);
  }

  lemma MultipleIsAligned(n: nat)
    ensures 16 * n % MAX_ALIGN == 0
  {
  }

  lemma LaterObject(i: nat, j: nat, size: nat)
    requires i < j
    ensures i * size + size <= j * size
  {
    assert (i + 1) * size <= j * size;
  }

  lemma MultipleOfMultiple(i: nat, size: nat)
    requires size % MAX_ALIGN == 0
    ensures i * size % MAX_ALIGN == 0
  {
    var q := i * (size / 16);
    assert i * size == q * 16;
  }

  lemma ObjectsApart(l: Layout, i: nat, j: nat)
    requires GoodLayout(l) && i < j
    ensures ObjectAt(l, i) + l.size <= ObjectAt(l, j)
  {
    LaterObject(i, j, l.size);
  }

  /** Four times the object size in pages leaves room for one object with its header and index. */
  lemma RoomForOne(size: nat, pages: nat)
    requires size >= MAX_ALIGN && PAGE_SIZE * pages / size >= MIN_OBJECTS
    ensures Fits(size, pages, 1)
  {
    QuotientBelow(PAGE_SIZE * pages, size, MIN_OBJECTS);
  }

  // ----- the table of caches as declared

  /** Two pointers and five 32-bit fields, padded to a multiple of 8. */
  const CACHE_BYTES: nat := 2 * 8 + 5 * 4 + 4
  const DECLARED_CACHES: nat := CACHE_END_ORDER - CACHE_START_ORDER

  /** Where get_cache finds the cache of an order, from the start of the allocator's global. */
  function CacheOffset(order: nat): nat
    requires CACHE_START_ORDER <= order
  {
    CACHE_BYTES * (order - CACHE_START_ORDER)
  }

  /** Where the list of page allocations lies: right behind the declared table. */
  const PAGE_LIST_OFFSET: nat := CACHE_BYTES * DECLARED_CACHES

  /** The declared table has room for the caches of all orders but the last, which lies on the page list. */
  lemma LastCacheLiesOnPageList(order: nat)
    requires CACHE_START_ORDER <= order <= CACHE_END_ORDER
    ensures CacheOffset(order) + CACHE_BYTES <= PAGE_LIST_OFFSET <==> order < CACHE_END_ORDER
    ensures CacheOffset(order) == PAGE_LIST_OFFSET <==> order == CACHE_END_ORDER
  {
  }
}
