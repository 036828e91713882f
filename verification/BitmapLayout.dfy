/**
 Where the buddy maps live.  The boot code gives the map of order k one byte for every block of that
 order, lays the seven maps out one behind the other, and addresses them in 8-byte words.
 */
module BitmapLayout {
  import opened Blocks
  import opened BuddyMap

  const WORD_BYTES: nat := 8
  const ENOUGH_MEMORY: nat := 0x20_0000

  function OrderBytes(order: nat): (bytes: nat)
    ensures bytes > 0
  {
    PAGE_SIZE * Size(order)
  }

  /** The blocks of an order that memory has room for, and so the bytes of its map. */
  function MapBytes(memory: nat, order: nat): nat {
    Ratio(memory, OrderBytes(order))
  }

  function Ratio(x: nat, d: nat): nat
    requires d > 0
  {
    x / d
  }

  /** Offset of the map of an order; MapStart(memory, MAP_ORDERS) is the size of all maps together. */
  function MapStart(memory: nat, order: nat): nat {
    if order == 0 then 0 else MapStart(memory, order - 1) + MapBytes(memory, order - 1)
  }

  /** round_up_to_multiple(total_bitmaps_size, PAGE_SIZE) / PAGE_SIZE */
  function MapPages(memory: nat): nat {
    (MapStart(memory, MAP_ORDERS) + PAGE_SIZE - 1) / PAGE_SIZE
  }

  ghost predicate InMemory(b: Block, memory: nat) {
    b.order < MAP_ORDERS && Aligned(b) && PAGE_SIZE * EndOf(b) <= memory
  }

  /** The word that holds the bit of a block lies inside the map of its order. */
  ghost predicate WordFits(b: Block, memory: nat) {
    WORD_BYTES * (BuddyIndex(b.addr, b.order).0 + 1) <= MapBytes(memory, b.order)
  }

  lemma QuotientBounds(x: nat, d: nat, q: nat)
    requires d > 0
    ensures d * q <= x <==> q <= x / d
  {
    QuotientTimesDivisor(x, d);
    var e := x / d - q;
    assert d * (x / d) == d * q + d * e;
    if e >= 0 {
      assert d * e >= 0;
    } else {
      assert d * (-e - 1) >= 0;
    }
  }

  lemma BlockNumber(b: Block, memory: nat)
    requires InMemory(b, memory)
    ensures b.addr / Size(b.order) + 1 <= MapBytes(memory, b.order)
  {
    var s, n := Size(b.order), b.addr / Size(b.order);
    QuotientTimesDivisor(b.addr, s);
    assert s * (n + 1) == s * n + s;
    assert OrderBytes(b.order) * (n + 1) == PAGE_SIZE * (s * (n + 1));
    QuotientBounds(memory, OrderBytes(b.order), n + 1);
  }

  lemma {:induction false} MapsShrink(memory: nat, low: nat, high: nat)
    requires low <= high
    ensures MapBytes(memory, high) <= MapBytes(memory, low)
  {
    SizeGrows(low, high);
    var q := MapBytes(memory, high);
    QuotientBounds(memory, OrderBytes(high), q);
    assert OrderBytes(low) * q <= OrderBytes(high) * q;
    QuotientBounds(memory, OrderBytes(low), q);
  }

  lemma {:induction false} MapsInOrder(memory: nat, low: nat, high: nat)
    requires low <= high
    ensures MapStart(memory, low) <= MapStart(memory, high)
    decreases high
  {
    if low < high {
      MapsInOrder(memory, low, high - 1);
    }
  }

  lemma LastMapSize(memory: nat)
    ensures OrderBytes(MAP_ORDERS - 1) == 0x4_0000
    ensures MapBytes(memory, MAP_ORDERS - 1) >= WORD_BYTES <==> memory >= ENOUGH_MEMORY
  {
    assert Size(3) == 8;
    assert Size(6) == 64;
    QuotientBounds(memory, 0x4_0000, WORD_BYTES);
  }

  /** From 2 MB on, every word touched lies inside its own map, before the next map, in the allocated pages. */
  lemma WordInsideMap(b: Block, memory: nat)
    requires InMemory(b, memory) && memory >= ENOUGH_MEMORY
    ensures WordFits(b, memory)
    ensures var word := BuddyIndex(b.addr, b.order).0;
            && MapStart(memory, b.order) + WORD_BYTES * (word + 1) <= MapStart(memory, b.order + 1)
            && MapStart(memory, b.order + 1) <= PAGE_SIZE * MapPages(memory)
  {
    BlockNumber(b, memory);
    MapsShrink(memory, b.order, MAP_ORDERS - 1);
    LastMapSize(memory);
    BuddyIndexIsPair(b);
    MapsInOrder(memory, b.order + 1, MAP_ORDERS);
  }

  /** With less memory the first block of some order has its bit in a word that runs past its map. */
  lemma SmallMemoryOverruns(memory: nat) returns (b: Block)
    requires PAGE_SIZE <= memory < ENOUGH_MEMORY
    ensures InMemory(b, memory) && !WordFits(b, memory)
  {
    LastMapSize(memory);
    assert Size(0) == 1 && OrderBytes(0) == PAGE_SIZE;
    QuotientBounds(memory, PAGE_SIZE, 1);
    var k := 0;
    while k + 1 < MAP_ORDERS && MapBytes(memory, k + 1) > 0
      invariant k < MAP_ORDERS && MapBytes(memory, k) > 0
    {
      k := k + 1;
    }
    b := Block(k, 0);
    QuotientBounds(memory, OrderBytes(k), 1);
    ZeroOffset(k);
    if k + 1 < MAP_ORDERS {
      QuotientBounds(memory, OrderBytes(k + 1), 1);
      QuotientBounds(memory, OrderBytes(k), 2);
    }
    assert BuddyIndex(0, k).0 == 0;
  }

  lemma {:induction false} ZeroOffset(order: nat)
    ensures Offset(0, order) == 0
  {
    if order > 0 {
      ZeroOffset(order - 1);
    }
  }

  /** The maps hold the words of every block in memory exactly when there are 2 MB of it. */
  lemma MapsFitExactlyFromTwoMegabytes(memory: nat)
    requires PAGE_SIZE <= memory
    ensures (forall b :: InMemory(b, memory) ==> WordFits(b, memory)) <==> memory >= ENOUGH_MEMORY
  {
    if memory >= ENOUGH_MEMORY {
      forall b | InMemory(b, memory) ensures WordFits(b, memory) {
        WordInsideMap(b, memory);
      }
    } else {
      var b := SmallMemoryOverruns(memory);
    }
  }
}
