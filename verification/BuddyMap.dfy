/**
 The buddy maps: one bit for every pair of buddies of one order, stored in 64-bit words.  A bit is
 meant to be "left free XOR right free", so it is set when exactly one of the pair is free.
 */
module BuddyMap {
  import opened Blocks
  import opened FreeSets

  const MAP_ORDERS: nat := 7
  const WORD_BITS: nat := 64

  // ----- which bit belongs to a block

  datatype Pair = Pair(order: nat, index: nat)

  /** The pair a block belongs to, as calc_buddy_index numbers it. */
  function PairOf(b: Block): Pair {
    Pair(b.order, b.addr / Size(b.order) / 2)
  }

  /** calc_buddy_index: the number of the block, rounded down to even and halved, cut into word and bit. */
  function BuddyIndex(addr: nat, order: nat): (r: (nat, nat))
    ensures r.1 < WORD_BITS
  {
    var number := addr / Size(order);
    var pair := (number - number % 2) / 2;
    var bit := pair % WORD_BITS;
    ((pair - bit) / WORD_BITS, bit)
  }

  lemma BuddyIndexIsPair(b: Block)
    ensures var (word, bit) := BuddyIndex(b.addr, b.order);
            word * WORD_BITS + bit == PairOf(b).index && word == PairOf(b).index / WORD_BITS
  {
  }

  lemma HalvedQuotient(a: nat, s: nat)
    requires s > 0
    ensures a == (2 * s) * (a / s / 2) + a % (2 * s)
  {
    var n := a / s;
    var o := s * (n % 2) + a % s;
    QuotientTimesDivisor(a, s);
    assert s * n == s * (2 * (n / 2)) + s * (n % 2) by {
      assert n == 2 * (n / 2) + n % 2;
    }
    assert s * (2 * (n / 2)) == (2 * s) * (n / 2);
    assert s * (n % 2) <= s;
    RemainderIsUnique(a, 2 * s, n / 2, o);
  }

  /** Blocks share a pair exactly when they share a parent. */
  lemma PairOfParent(b: Block)
    ensures ParentOf(b).addr == Size(b.order + 1) * PairOf(b).index
  {
    OffsetIsRemainder(b.addr, b.order + 1);
    HalvedQuotient(b.addr, Size(b.order));
  }

  lemma SamePair(b: Block, c: Block)
    requires Aligned(b) && Aligned(c) && b.order == c.order
    ensures PairOf(b) == PairOf(c) <==> b == c || c == BuddyOf(b)
  {
    PairOfParent(b);
    PairOfParent(c);
    BuddiesMakeParent(b);
    BuddiesMakeParent(c);
    EqualMultiples(Size(b.order + 1), PairOf(b).index, PairOf(c).index);
  }

  lemma EqualMultiples(s: nat, x: nat, y: nat)
    requires s > 0
    ensures s * x == s * y <==> x == y
  {
    if x != y {
      NonZeroMultiple(s, x - y);
    }
  }

  /** Two blocks of one order share a bit exactly when they are equal or buddies. */
  lemma SharedBit(b: Block, c: Block)
    requires Aligned(b) && Aligned(c) && b.order == c.order
    ensures BuddyIndex(b.addr, b.order) == BuddyIndex(c.addr, c.order) <==> b == c || c == BuddyOf(b)
  {
    BuddyIndexIsPair(b);
    BuddyIndexIsPair(c);
    SamePair(b, c);
  }

  // ----- what the bits should be

  function Flip(bits: set<Pair>, q: Pair): set<Pair> {
    if q in bits then bits - {q} else bits + {q}
  }

  /** The pairs below the top order with exactly one free half. */
  ghost function Expected(blocks: set<Block>): set<Pair> {
    set b | b in blocks && b.order < MAP_ORDERS && Aligned(b) && BuddyOf(b) !in blocks :: PairOf(b)
  }

  /** Left free XOR right free. */
  lemma ExpectedIsXor(blocks: set<Block>, limit: nat, b: Block)
    requires AllWellFormed(blocks, limit) && Aligned(b) && b.order < MAP_ORDERS
    ensures PairOf(b) in Expected(blocks) <==> (b in blocks) != (BuddyOf(b) in blocks)
  {
    BuddiesMakeParent(b);
    SamePair(b, BuddyOf(b));
    if PairOf(b) in Expected(blocks) {
      var c :| c in blocks && c.order < MAP_ORDERS && BuddyOf(c) !in blocks && PairOf(c) == PairOf(b);
      SamePair(b, c);
    }
  }

  /** Freeing or taking one block flips exactly its own pair. */
  lemma OneBlockFlips(blocks: set<Block>, limit: nat, b: Block)
    requires AllWellFormed(blocks, limit) && WellFormed(b, limit) && b !in blocks && b.order < MAP_ORDERS
    ensures Expected(blocks + {b}) == Flip(Expected(blocks), PairOf(b))
    ensures Expected(blocks) == Flip(Expected(blocks + {b}), PairOf(b))
  {
    BuddiesMakeParent(b);
    ExpectedIsXor(blocks, limit, b);
    ExpectedIsXor(blocks + {b}, limit, b);
    forall q | q != PairOf(b) ensures q in Expected(blocks + {b}) <==> q in Expected(blocks) {
      if q in Expected(blocks) {
        var c :| c in blocks && c.order < MAP_ORDERS && BuddyOf(c) !in blocks && PairOf(c) == q;
        OtherPair(b, c);
      }
      if q in Expected(blocks + {b}) {
        var c :| c in blocks + {b} && c.order < MAP_ORDERS && BuddyOf(c) !in blocks + {b} && PairOf(c) == q;
        OtherPair(b, c);
      }
    }
  }

  lemma OtherPair(b: Block, c: Block)
    requires Aligned(b) && Aligned(c) && PairOf(b) != PairOf(c)
    ensures b != c && b != BuddyOf(c)
  {
    BuddiesMakeParent(c);
    SamePair(c, BuddyOf(c));
  }

  /** Blocks of the top order have no buddy map. */
  lemma TopBlockFlipsNothing(blocks: set<Block>, b: Block)
    requires b.order >= MAP_ORDERS
    ensures Expected(blocks + {b}) == Expected(blocks)
  {
    forall q | q in Expected(blocks) ensures q in Expected(blocks + {b}) {
      var c :| c in blocks && c.order < MAP_ORDERS && Aligned(c) && BuddyOf(c) !in blocks && PairOf(c) == q;
    }
    forall q | q in Expected(blocks + {b}) ensures q in Expected(blocks) {
      var c :| c in blocks + {b} && c.order < MAP_ORDERS && Aligned(c) && BuddyOf(c) !in blocks + {b} && PairOf(c) == q;
    }
  }

  ghost function AfterToggle(bits: set<Pair>, b: Block): set<Pair> {
    if b.order < MAP_ORDERS then Flip(bits, PairOf(b)) else bits
  }

  /** A block is taken from or put into the free set, and its bit toggled: the bits stay as expected. */
  lemma ToggleMatches(blocks: set<Block>, limit: nat, b: Block)
    requires AllWellFormed(blocks, limit) && WellFormed(b, limit)
    ensures b in blocks ==> Expected(blocks - {b}) == AfterToggle(Expected(blocks), b)
    ensures b !in blocks ==> Expected(blocks + {b}) == AfterToggle(Expected(blocks), b)
  {
    if b.order >= MAP_ORDERS {
      TopBlockFlipsNothing(blocks, b);
      TopBlockFlipsNothing(blocks - {b}, b);
      assert b in blocks ==> blocks - {b} + {b} == blocks;
    } else if b in blocks {
      OneBlockFlips(blocks - {b}, limit, b);
      assert blocks - {b} + {b} == blocks;
    } else {
      OneBlockFlips(blocks, limit, b);
    }
  }

  /** Adding or removing both buddies leaves their bit alone, as split_entry and the merge loop rely on. */
  lemma BothBuddiesCancel(blocks: set<Block>, limit: nat, b: Block)
    requires AllWellFormed(blocks, limit) && WellFormed(b, limit) && b.order < MAP_ORDERS
    requires WellFormed(BuddyOf(b), limit)
    requires b !in blocks && BuddyOf(b) !in blocks
    ensures Expected(blocks + {b, BuddyOf(b)}) == Expected(blocks)
  {
    BuddiesMakeParent(b);
    SamePair(b, BuddyOf(b));
    OneBlockFlips(blocks, limit, b);
    OneBlockFlips(blocks + {b}, limit, BuddyOf(b));
    assert blocks + {b} + {BuddyOf(b)} == blocks + {b, BuddyOf(b)};
  }

  // ----- the words

  predicate WordBit(w: bv64, i: nat)
    requires i < WORD_BITS
  {
    BitAt(w, i as bv6)
  }

  predicate BitAt(w: bv64, i: bv6) {
    (w >> i) & 1 == 1
  }

  function ToggledAt(w: bv64, i: bv6): bv64 {
    w ^ (1 << i)
  }

  lemma ToggledBit(w: bv64, i: bv6, j: bv6)
    ensures BitAt(ToggledAt(w, i), j) <==> (BitAt(w, j) != (i == j))
  {
  }

  lemma SmallAsBits(i: nat)
    requires i < WORD_BITS
    ensures (i as bv6) as nat == i
  {
  }

  lemma SameBitIndex(i: nat, j: nat)
    requires i < WORD_BITS && j < WORD_BITS
    ensures i as bv6 == j as bv6 <==> i == j
  {
    SmallAsBits(i);
    SmallAsBits(j);
  }

  lemma ToggledWord(w: bv64, i: nat, j: nat)
    requires i < WORD_BITS && j < WORD_BITS
    ensures WordBit(ToggledAt(w, i as bv6), j) == (WordBit(w, j) != (i == j))
  {
    SameBitIndex(i, j);
    ToggledBit(w, i as bv6, j as bv6);
  }

  lemma NoBitsInZero(i: nat)
    requires i < WORD_BITS
    ensures !WordBit(0, i)
  {
  }

  /** The words of the seven buddy maps, one row for each order. */
  class BuddyWords {
    const words: array2<bv64>

    constructor (count: nat)
      ensures words.Length0 == MAP_ORDERS && words.Length1 == count && fresh(words)
      ensures Bits() == {}
    {
      words := new bv64[MAP_ORDERS, count]((_, _) => 0);
      new;
      forall i | 0 <= i < WORD_BITS ensures !WordBit(0, i) {
        NoBitsInZero(i);
      }
    }

    ghost function Bits(): set<Pair>
      reads words
    {
      set k, i | 0 <= k < words.Length0 && 0 <= i < WORD_BITS * words.Length1
                 && WordBit(words[k, i / WORD_BITS], i % WORD_BITS) :: Pair(k, i)
    }

    /** get_buddy_bit */
    method Get(b: Block) returns (bit: bool)
      requires words.Length0 == MAP_ORDERS && b.order < MAP_ORDERS
      requires PairOf(b).index < WORD_BITS * words.Length1
      ensures bit <==> PairOf(b) in Bits()
    {
      var (word, i) := BuddyIndex(b.addr, b.order);
      BuddyIndexIsPair(b);
      bit := WordBit(words[b.order, word], i);
    }

    /** toggle_buddy_bit */
    method Toggle(b: Block)
      requires words.Length0 == MAP_ORDERS && PairOf(b).index < WORD_BITS * words.Length1
      modifies words
      ensures Bits() == AfterToggle(old(Bits()), b)
    {
      if b.order >= MAP_ORDERS {
        return;
      }
      var (word, i) := BuddyIndex(b.addr, b.order);
      BuddyIndexIsPair(b);
      words[b.order, word] := ToggledAt(words[b.order, word], i as bv6);
      forall k, n | 0 <= k < MAP_ORDERS && 0 <= n < WORD_BITS * words.Length1
        ensures WordBit(words[k, n / WORD_BITS], n % WORD_BITS)
            <==> (old(WordBit(words[k, n / WORD_BITS], n % WORD_BITS)) != (Pair(k, n) == PairOf(b)))
      {
        ToggledWord(old(words[b.order, word]), i, n % WORD_BITS);
      }
    }
  }
}
