/**
 Live results of the page allocator: which pages they map, to which frames, and that no two of them
 share either.
 */
module Holdings {
  import opened Blocks
  import FreeSets
  import opened FrameAllocator
  import opened Intervals
  import opened Lists
  import opened PageTables
  import opened VirtualRanges
  import opened FrameScan

  // ----- the frames of an allocation, in the order they are mapped

  function FrameList(allocation: seq<Block>): seq<nat> {
    if allocation == [] then []
    else FrameList(allocation[..|allocation| - 1]) +
         Consecutive(allocation[|allocation| - 1].addr, Size(allocation[|allocation| - 1].order))
  }

  lemma {:induction false} FrameListLength(allocation: seq<Block>)
    ensures |FrameList(allocation)| == TotalPages(allocation)
  {
    if allocation != [] {
      var front, last := allocation[..|allocation| - 1], allocation[|allocation| - 1];
      FrameListLength(front);
      TotalOfMore(front, last);
      assert allocation == front + [last];
    }
  }

  lemma {:induction false} FrameListPrefix(allocation: seq<Block>, i: nat)
    requires i <= |allocation|
    ensures FrameList(allocation[..i]) <= FrameList(allocation)
    decreases |allocation|
  {
    if i < |allocation| {
      var front := allocation[..|allocation| - 1];
      FrameListPrefix(front, i);
      assert front[..i] == allocation[..i];
    } else {
      assert allocation[..i] == allocation;
    }
  }

  /** The frames of block i follow those of the blocks before it. */
  lemma FrameListOfBlock(allocation: seq<Block>, i: nat)
    requires i < |allocation|
    ensures var before, b := TotalPages(allocation[..i]), allocation[i];
            && TotalPages(allocation[..i + 1]) == before + Size(b.order) <= |FrameList(allocation)|
            && forall p :: before <= p < before + Size(b.order) ==> FrameList(allocation)[p] == b.addr + p - before
  {
    var front, b := allocation[..i], allocation[i];
    assert allocation[..i + 1] == front + [b];
    assert (front + [b])[..i] == front;
    TotalOfMore(front, b);
    FrameListLength(front);
    FrameListLength(front + [b]);
    FrameListPrefix(allocation, i + 1);
    assert FrameList(front + [b]) == FrameList(front) + Consecutive(b.addr, Size(b.order));
  }

  lemma {:induction false} FramesAreAllocated(allocation: seq<Block>, f: nat)
    ensures f in FrameList(allocation) <==> f in AllocatedPages(allocation)
  {
    if allocation != [] {
      var front, last := allocation[..|allocation| - 1], allocation[|allocation| - 1];
      FramesAreAllocated(front, f);
      PagesOfMore(front, last);
      assert allocation == front + [last];
      var tail := Consecutive(last.addr, Size(last.order));
      assert f in tail <==> f in FreeSets.PagesOf(last) by {
        if f in FreeSets.PagesOf(last) {
          assert tail[f - last.addr] == f;
        }
        if f in tail {
          var t :| 0 <= t < |tail| && tail[t] == f;
          assert Holds(last, f);
        }
      }
    }
  }

  lemma FrameSetIsAllocated(allocation: seq<Block>)
    ensures FrameSet(FrameList(allocation)) == AllocatedPages(allocation)
  {
    forall f ensures f in FrameList(allocation) <==> f in AllocatedPages(allocation) {
      FramesAreAllocated(allocation, f);
    }
  }

  lemma {:induction false} FramesAreDistinct(allocation: seq<Block>, limit: nat)
    requires Separate(allocation, limit)
    ensures NoRepeats(FrameList(allocation))
  {
    if allocation != [] {
      var front, last := allocation[..|allocation| - 1], allocation[|allocation| - 1];
      FramesAreDistinct(front, limit);
      LaterBlockIsApart(allocation, limit, |front|);
      var tail := Consecutive(last.addr, Size(last.order));
      forall i, j | 0 <= i < |FrameList(front)| && 0 <= j < |tail| ensures FrameList(front)[i] != tail[j] {
        FramesAreAllocated(front, FrameList(front)[i]);
        assert Holds(last, tail[j]) && tail[j] in FreeSets.PagesOf(last);
      }
    }
  }

  // ----- what callers hold

  /** A live result of the page allocator: the frames its pages map to, and all frames kept for it. */
  datatype Holding = Holding(list: seq<nat>, kept: set<nat>)

  ghost predicate MapsList(t: Tables, slot: nat, virt: nat, list: seq<nat>)
    requires GoodTree(t)
  {
    forall v: nat :: virt <= v < virt + |list| ==>
      Slot(v) == slot && ViewOf(t, v).Some? && ViewOf(t, v).value.frame == list[v - virt]
  }

  /** Live results map their pages to frames of their own, none of them free. */
  ghost predicate HoldingOk(t: Tables, slot: nat, free: set<nat>, virt: nat, h: Holding)
    requires GoodTree(t)
  {
    && h.list != [] && MapsList(t, slot, virt, h.list) && NoRepeats(h.list)
    && FrameSet(h.list) <= h.kept && h.kept !! free
  }

  ghost predicate HoldingsApart(virt: nat, h: Holding, virt': nat, h': Holding) {
    h.kept !! h'.kept && (virt + |h.list| <= virt' || virt' + |h'.list| <= virt)
  }

  /** No two live results share a page or a frame, and only handed out addresses are mapped at all. */
  ghost predicate AllHeld(t: Tables, slot: nat, live: set<nat>, free: set<nat>, held: map<nat, Holding>)
    requires GoodTree(t)
  {
    && (forall v: nat :: Slot(v) == slot && ViewOf(t, v).Some? ==> v in live)
    && (forall virt <- held :: HoldingOk(t, slot, free, virt, held[virt]))
    && (forall v <- held, w <- held :: v != w ==> HoldingsApart(v, held[v], w, held[w]))
  }

  /** Frames that hold tables are neither free nor kept for a live result. */
  ghost predicate TablesApart(tables: set<nat>, free: set<nat>, held: map<nat, Holding>) {
    tables !! free && forall v <- held :: tables !! held[v].kept
  }

  /** Taking frames from the free ones for a new result, or giving some back, leaves them apart from the tables. */
  lemma TablesStayApart(tables: set<nat>, free: set<nat>, held: map<nat, Holding>, virt: nat, h: Holding,
                        freed: set<nat>)
    requires TablesApart(tables, free, held)
    ensures h.kept <= free ==> TablesApart(tables, free - h.kept, held[virt := h])
    ensures virt in held && freed <= held[virt].kept ==> TablesApart(tables, free + freed, held - {virt})
  {
  }

  /** Translation is injective over everything live. */
  lemma LiveTranslationIsInjective(t: Tables, slot: nat, live: set<nat>, free: set<nat>, held: map<nat, Holding>,
                                   virt: nat, virt': nat, v: nat, w: nat)
    requires GoodTree(t) && AllHeld(t, slot, live, free, held) && virt in held && virt' in held && v != w
    requires virt <= v < virt + |held[virt].list| && virt' <= w < virt' + |held[virt'].list|
    ensures ViewOf(t, v).Some? && ViewOf(t, w).Some? && ViewOf(t, v).value.frame != ViewOf(t, w).value.frame
  {
    assert HoldingOk(t, slot, free, virt, held[virt]) && HoldingOk(t, slot, free, virt', held[virt']);
    assert held[virt].list[v - virt] in held[virt].kept && held[virt'].list[w - virt'] in held[virt'].kept;
    if virt != virt' {
      assert HoldingsApart(virt, held[virt], virt', held[virt']);
    }
  }

  /** A page of a live result lies in the live addresses. */
  lemma HeldPagesAreLive(t: Tables, slot: nat, live: set<nat>, free: set<nat>, held: map<nat, Holding>, virt: nat)
    requires GoodTree(t) && AllHeld(t, slot, live, free, held) && virt in held
    ensures RangePages(FreeRange(virt, |held[virt].list|)) <= live
  {
    assert HoldingOk(t, slot, free, virt, held[virt]);
  }

  /** Changes outside its pages, and frames neither freed nor its own, leave a live result alone. */
  lemma HoldingStays(t: Tables, u: Tables, slot: nat, free: set<nat>, free': set<nat>, virt: nat, h: Holding,
      low: nat, high: nat)
    requires GoodTree(t) && GoodTree(u) && HoldingOk(t, slot, free, virt, h) && SameOutside(t, u, slot, low, high)
    requires virt + |h.list| <= low || high <= virt
    requires h.kept !! free'
    ensures HoldingOk(u, slot, free', virt, h)
  {
    forall v: nat | virt <= v < virt + |h.list| ensures ViewOf(u, v) == ViewOf(t, v) {
      OutsideIsSame(t, u, slot, low, high, v);
    }
  }

  lemma ApartFromNew(live: set<nat>, virt: nat, pages: nat, low: nat, count: nat)
    requires RangePages(FreeRange(virt, pages)) <= live && RangePages(FreeRange(low, count)) !! live && pages > 0
             && count > 0
    ensures virt + pages <= low || low + count <= virt
  {
    assert InRange(FreeRange(virt, pages), virt) && InRange(FreeRange(low, count), low);
    assert InRange(FreeRange(virt, pages), low) ==> low in RangePages(FreeRange(virt, pages));
    assert InRange(FreeRange(low, count), virt) ==> virt in RangePages(FreeRange(low, count));
  }

  lemma HoldMore(t: Tables, u: Tables, slot: nat, live: set<nat>, free: set<nat>, held: map<nat, Holding>,
                 virt: nat, h: Holding)
    requires GoodTree(t) && GoodTree(u) && AllHeld(t, slot, live, free, held)
    requires SameOutside(t, u, slot, virt, virt + |h.list|) && MapsList(u, slot, virt, h.list) && h.list != []
    requires RangePages(FreeRange(virt, |h.list|)) !! live
    requires NoRepeats(h.list) && FrameSet(h.list) <= h.kept <= free
    ensures AllHeld(u, slot, live + RangePages(FreeRange(virt, |h.list|)), free - h.kept, held[virt := h])
    ensures virt !in held
  {
    var r := FreeRange(virt, |h.list|);
    assert InRange(r, virt) && virt in RangePages(r);
    forall w | w in held
      ensures w != virt && HoldingOk(u, slot, free - h.kept, w, held[w]) && HoldingsApart(virt, h, w, held[w])
    {
      assert HoldingOk(t, slot, free, w, held[w]);
      HeldPagesAreLive(t, slot, live, free, held, w);
      ApartFromNew(live, w, |held[w].list|, virt, |h.list|);
      HoldingStays(t, u, slot, free, free - h.kept, w, held[w], virt, virt + |h.list|);
    }
    forall w: nat | Slot(w) == slot && ViewOf(u, w).Some? ensures w in live + RangePages(r) {
      if !InRange(r, w) {
        OutsideIsSame(t, u, slot, virt, virt + |h.list|, w);
      }
    }
  }

  /** Unmapping a live result and freeing some of the frames kept for it leaves the others alone. */
  lemma HoldLess(t: Tables, u: Tables, slot: nat, live: set<nat>, free: set<nat>, held: map<nat, Holding>,
                 virt: nat, freed: set<nat>)
    requires GoodTree(t) && GoodTree(u) && AllHeld(t, slot, live, free, held) && virt in held
    requires SameOutside(t, u, slot, virt, virt + |held[virt].list|)
    requires forall v: nat :: virt <= v < virt + |held[virt].list| ==> ViewOf(u, v).None?
    requires freed <= held[virt].kept
    ensures AllHeld(u, slot, live - RangePages(FreeRange(virt, |held[virt].list|)), free + freed, held - {virt})
  {
    var h := held[virt];
    forall w | w in held - {virt} ensures HoldingOk(u, slot, free + freed, w, held[w]) {
      assert HoldingsApart(virt, h, w, held[w]) && HoldingOk(t, slot, free, w, held[w]);
      HoldingStays(t, u, slot, free, free + freed, w, held[w], virt, virt + |h.list|);
    }
    forall w: nat | Slot(w) == slot && ViewOf(u, w).Some? ensures w in live - RangePages(FreeRange(virt, |h.list|)) {
      assert !(virt <= w < virt + |h.list|);
      OutsideIsSame(t, u, slot, virt, virt + |h.list|, w);
    }
  }

  lemma SlotOfAddress(slot: nat, v: nat)
    requires slot * SLOT_PAGES <= v < (slot + 1) * SLOT_PAGES
    ensures Slot(v) == slot
  {
    assert v / 512 / 512 == v / 0x4_0000;
    assert v / 0x4_0000 / 512 == v / 0x800_0000;
  }

  lemma MappedMeansWalkable(t: Tables, slot: nat, virt: nat, list: seq<nat>)
    requires GoodTree(t) && MapsList(t, slot, virt, list)
    ensures WalkableIn(t, virt, |list|)
  {
    forall v: nat | virt <= v < virt + |list| ensures PtAt(t, PdpIndex(v), PdIndex(v)).Some? {
      assert ViewOf(t, v).Some?;
    }
  }
}
