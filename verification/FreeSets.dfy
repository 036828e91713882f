/**
 Sets of free blocks.  A set is canonical when its blocks do not overlap and no two of them are
 buddies, so that nothing is left to merge.  The main result: a canonical set is determined by the
 pages it covers, whatever sequence of splits and merges produced it.
 */
module FreeSets {
  import opened Blocks
  import opened Intervals

  ghost predicate AllWellFormed(blocks: set<Block>, limit: nat) {
    forall b <- blocks :: WellFormed(b, limit)
  }

  ghost predicate Disjoint(blocks: set<Block>) {
    forall b <- blocks, c <- blocks :: b == c || Apart(b, c)
  }

  ghost predicate NoBuddies(blocks: set<Block>)
    requires forall b <- blocks :: Aligned(b)
  {
    forall b <- blocks :: b.order < TOP_ORDER ==> BuddyOf(b) !in blocks
  }

  ghost predicate Canonical(blocks: set<Block>, limit: nat) {
    AllWellFormed(blocks, limit) && Disjoint(blocks) && NoBuddies(blocks)
  }

  /** The free pages. */
  ghost function Pages(blocks: set<Block>): set<nat> {
    set b, p | b in blocks && b.addr <= p < EndOf(b) && Holds(b, p) :: p
  }

  ghost function PagesOf(b: Block): set<nat> {
    set p | b.addr <= p < EndOf(b) && Holds(b, p)
  }

  ghost predicate WhollyIn(b: Block, pages: set<nat>) {
    PagesOf(b) <= pages
  }

  /** The only block of a disjoint set that holds a given page. */
  lemma OwnerIsUnique(blocks: set<Block>, b: Block, c: Block, p: nat)
    requires Disjoint(blocks) && b in blocks && c in blocks && Holds(b, p) && Holds(c, p)
    ensures b == c
  {
  }

  /** A block that is large enough and holds a page of an aligned run holds the whole run. */
  lemma LargeOwner(b: Block, c: Block, p: nat)
    requires b.order <= c.order && Aligned(b) && Aligned(c) && Holds(b, p) && Holds(c, p)
    ensures Within(b, c)
  {
    Nested(b, c);
  }

  /** Every aligned run of free pages lies inside a single free block. */
  lemma {:induction false} RunInOneBlock(blocks: set<Block>, limit: nat, b: Block) returns (c: Block)
    requires Canonical(blocks, limit) && b.order < FRAME_ORDERS && Aligned(b) && WhollyIn(b, Pages(blocks))
    ensures c in blocks && b.order <= c.order && Within(b, c)
    decreases b.order
  {
    if b.order == 0 {
      assert EndOf(b) == b.addr + 1;
      assert Holds(b, b.addr) && b.addr in PagesOf(b);
      c :| c in blocks && Holds(c, b.addr);
      LargeOwner(b, c, b.addr);
    } else {
      HalvesOf(b);
      var left, right := LeftHalf(b), RightHalf(b);
      assert PagesOf(left) <= PagesOf(b) && PagesOf(right) <= PagesOf(b);
      c := RunInOneBlock(blocks, limit, left);
      if b.order <= c.order {
        LargeOwner(b, c, left.addr);
      } else {
        assert c == left;
        c := RunInOneBlock(blocks, limit, right);
        assert c.order == right.order ==> c == right;
        LargeOwner(b, c, right.addr);
      }
    }
  }

  lemma CanonicalSubset(one: set<Block>, two: set<Block>, limit: nat, b: Block)
    requires Canonical(one, limit) && Canonical(two, limit) && Pages(one) == Pages(two) && b in one
    ensures b in two
  {
    var c := RunInOneBlock(two, limit, b);
    var d := RunInOneBlock(one, limit, c);
    OwnerIsUnique(one, b, d, b.addr);
  }

  /** The free pages alone determine the free blocks of every order. */
  lemma CanonicalForm(one: set<Block>, two: set<Block>, limit: nat)
    requires Canonical(one, limit) && Canonical(two, limit) && Pages(one) == Pages(two)
    ensures one == two
  {
    forall b | b in one ensures b in two {
      CanonicalSubset(one, two, limit, b);
    }
    forall b | b in two ensures b in one {
      CanonicalSubset(two, one, limit, b);
    }
  }

  lemma FreeBlockIsMaximal(blocks: set<Block>, limit: nat, b: Block)
    requires Canonical(blocks, limit) && b in blocks && b.order < TOP_ORDER
    ensures !WhollyIn(ParentOf(b), Pages(blocks))
  {
    if WhollyIn(ParentOf(b), Pages(blocks)) {
      BuddiesMakeParent(b);
      HalvesOf(ParentOf(b));
      var c := RunInOneBlock(blocks, limit, ParentOf(b));
      OwnerIsUnique(blocks, b, c, b.addr);
    }
  }

  lemma MaximalRunIsFreeBlock(blocks: set<Block>, limit: nat, b: Block)
    requires Canonical(blocks, limit) && b.order < FRAME_ORDERS && Aligned(b) && WhollyIn(b, Pages(blocks))
    requires b.order < TOP_ORDER ==> !WhollyIn(ParentOf(b), Pages(blocks))
    ensures b in blocks
  {
    var c := RunInOneBlock(blocks, limit, b);
    if b.order < c.order {
      BuddiesMakeParent(b);
      HalvesOf(ParentOf(b));
      Nested(ParentOf(b), c);
      forall p | p in PagesOf(ParentOf(b)) ensures p in Pages(blocks) {
        assert Holds(c, p);
      }
    }
  }

  /** The free blocks are exactly the maximal aligned free runs. */
  lemma FreeBlocksAreMaximalRuns(blocks: set<Block>, limit: nat, b: Block)
    requires Canonical(blocks, limit) && b.order < FRAME_ORDERS && Aligned(b)
    ensures b in blocks <==>
            WhollyIn(b, Pages(blocks)) && (b.order < TOP_ORDER ==> !WhollyIn(ParentOf(b), Pages(blocks)))
  {
    if b in blocks {
      if b.order < TOP_ORDER {
        FreeBlockIsMaximal(blocks, limit, b);
      }
    } else if WhollyIn(b, Pages(blocks)) && (b.order < TOP_ORDER ==> !WhollyIn(ParentOf(b), Pages(blocks))) {
      MaximalRunIsFreeBlock(blocks, limit, b);
    }
  }

  // ----- adding, removing, splitting and merging blocks

  lemma RemoveBlock(blocks: set<Block>, limit: nat, b: Block)
    requires AllWellFormed(blocks, limit) && Disjoint(blocks) && b in blocks
    ensures AllWellFormed(blocks - {b}, limit) && Disjoint(blocks - {b})
    ensures Pages(blocks - {b}) == Pages(blocks) - PagesOf(b) && PagesOf(b) <= Pages(blocks)
    ensures NoBuddies(blocks) ==> NoBuddies(blocks - {b})
  {
    forall p | p in Pages(blocks - {b}) ensures p in Pages(blocks) - PagesOf(b) {
      var c :| c in blocks - {b} && Holds(c, p);
    }
  }

  lemma AddBlock(blocks: set<Block>, limit: nat, b: Block)
    requires AllWellFormed(blocks, limit) && Disjoint(blocks) && WellFormed(b, limit)
    requires PagesOf(b) !! Pages(blocks)
    ensures AllWellFormed(blocks + {b}, limit) && Disjoint(blocks + {b}) && b !in blocks
    ensures Pages(blocks + {b}) == Pages(blocks) + PagesOf(b)
  {
    forall c | c in blocks ensures Apart(b, c) {
      var p := if b.addr < c.addr then c.addr else b.addr;
      assert Holds(c, p) ==> p in Pages(blocks);
      assert Holds(b, p) ==> p in PagesOf(b);
    }
    assert b.addr in PagesOf(b);
  }

  /** Adding to a canonical set leaves at most the new block with a free buddy. */
  lemma AddWithoutBuddy(blocks: set<Block>, limit: nat, b: Block)
    requires AllWellFormed(blocks, limit) && NoBuddies(blocks) && WellFormed(b, limit)
    requires b.order < TOP_ORDER ==> BuddyOf(b) !in blocks
    ensures NoBuddies(blocks + {b})
  {
    forall c | c in blocks + {b} && c.order < TOP_ORDER ensures BuddyOf(c) !in blocks + {b} {
      BuddiesMakeParent(c);
      BuddiesMakeParent(b);
    }
  }

  /** What split_entry does to the set of free blocks, apart from the halves now being buddies. */
  lemma SplitBlock(blocks: set<Block>, limit: nat, b: Block)
    requires AllWellFormed(blocks, limit) && Disjoint(blocks) && b in blocks && 0 < b.order
    ensures var halves := {LeftHalf(b), RightHalf(b)};
            && AllWellFormed(blocks - {b} + halves, limit) && Disjoint(blocks - {b} + halves)
            && Pages(blocks - {b} + halves) == Pages(blocks)
            && halves !! blocks
  {
    HalvesOf(b);
    RemoveBlock(blocks, limit, b);
    var left, right := LeftHalf(b), RightHalf(b);
    assert PagesOf(left) + PagesOf(right) == PagesOf(b) && PagesOf(left) !! PagesOf(right);
    AddBlock(blocks - {b}, limit, left);
    AddBlock(blocks - {b} + {left}, limit, right);
    assert blocks - {b} + {left, right} == blocks - {b} + {left} + {right};
    assert left != b && right != b;
  }

  /** After a split, taking either half away again leaves nothing to merge. */
  lemma HalfOfSplit(blocks: set<Block>, limit: nat, b: Block, taken: Block)
    requires AllWellFormed(blocks, limit) && Disjoint(blocks) && b in blocks && 0 < b.order
    requires NoBuddies(blocks - {b}) && taken in {LeftHalf(b), RightHalf(b)}
    ensures AllWellFormed(blocks - {b} + {LeftHalf(b), RightHalf(b)} - {taken}, limit)
    ensures NoBuddies(blocks - {b} + {LeftHalf(b), RightHalf(b)} - {taken})
  {
    HalvesOf(b);
    SplitBlock(blocks, limit, b);
    var kept := BuddyOf(taken);
    AddWithoutBuddy(blocks - {b}, limit, kept);
    assert blocks - {b} + {LeftHalf(b), RightHalf(b)} - {taken} == blocks - {b} + {kept};
  }

  /** What one round of the merge loop does to the set of free blocks. */
  lemma MergeBlocks(blocks: set<Block>, limit: nat, b: Block)
    requires AllWellFormed(blocks, limit) && Disjoint(blocks) && b in blocks && b.order < TOP_ORDER
    requires BuddyOf(b) in blocks
    ensures WellFormed(ParentOf(b), limit) && PagesOf(ParentOf(b)) == PagesOf(b) + PagesOf(BuddyOf(b))
    ensures var merged := blocks - {b, BuddyOf(b)} + {ParentOf(b)};
            && AllWellFormed(merged, limit) && Disjoint(merged) && Pages(merged) == Pages(blocks)
            && ParentOf(b) !in blocks
    ensures NoBuddies(blocks - {b}) ==>
              NoBuddies(blocks - {b, BuddyOf(b)} + {ParentOf(b)} - {ParentOf(b)})
  {
    BuddiesMakeParent(b);
    HalvesOf(ParentOf(b));
    RemoveBlock(blocks, limit, b);
    RemoveBlock(blocks - {b}, limit, BuddyOf(b));
    assert blocks - {b} - {BuddyOf(b)} == blocks - {b, BuddyOf(b)};
    assert PagesOf(ParentOf(b)) == PagesOf(b) + PagesOf(BuddyOf(b));
    AddBlock(blocks - {b, BuddyOf(b)}, limit, ParentOf(b));
    assert blocks - {b, BuddyOf(b)} + {ParentOf(b)} - {ParentOf(b)} == blocks - {b, BuddyOf(b)};
  }

  // ----- counting

  lemma PageCount(b: Block)
    ensures |PagesOf(b)| == Size(b.order)
  {
    RangeSize(b.addr, Size(b.order));
    forall p: nat ensures p in PagesOf(b) <==> p in Range(b.addr, Size(b.order)) {
      assert Holds(b, p) <==> InRun(b.addr, Size(b.order), p);
    }
    assert PagesOf(b) == Range(b.addr, Size(b.order));
  }

  lemma SubsetSize(small: set<nat>, large: set<nat>)
    requires small <= large
    ensures |large - small| == |large| - |small|
  {
  }

  lemma NoPagesNoBlocks(blocks: set<Block>)
    ensures Pages(blocks) == {} <==> blocks == {}
  {
    if b :| b in blocks {
      assert Holds(b, b.addr);
      assert b.addr in Pages(blocks);
    }
  }
}
