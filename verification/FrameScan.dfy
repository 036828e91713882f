/**
 How unmap_and_free_frames cuts the frames of a range into contiguous runs.  The frame that ends a run
 is neither part of that run nor the start of the next, so it is never freed.
 */
module FrameScan {
  import opened Blocks
  import FreeSets
  import opened FrameAllocator
  import opened Intervals
  import opened Lists

  datatype FrameRun = FrameRun(start: nat, count: nat)

  /** The loop variables: the runs freed so far, the current run (count 0: none), and the frames passed over. */
  datatype Scan = Scan(freed: seq<FrameRun>, start: nat, count: nat, dropped: seq<nat>)

  const SCAN_START: Scan := Scan([], 0, 0, [])

  function Step(s: Scan, frame: nat): Scan {
    if s.count == 0 then s.(start := frame, count := 1)
    else if frame != s.start + s.count || s.count >= TOP_PAGES
    then Scan(s.freed + [FrameRun(s.start, s.count)], s.start, 0, s.dropped + [frame])
    else s.(count := s.count + 1)
  }

  function ScanOf(list: seq<nat>): Scan {
    if list == [] then SCAN_START else Step(ScanOf(list[..|list| - 1]), list[|list| - 1])
  }

  /** All runs freed, including the one still open when the range ends. */
  function RunsOf(list: seq<nat>): seq<FrameRun> {
    var s := ScanOf(list);
    if s.count == 0 then s.freed else s.freed + [FrameRun(s.start, s.count)]
  }

  function Dropped(list: seq<nat>): seq<nat> {
    ScanOf(list).dropped
  }

  function FramesIn(r: FrameRun): seq<nat> {
    Consecutive(r.start, r.count)
  }

  function Concat(runs: seq<FrameRun>): seq<nat> {
    if runs == [] then [] else Concat(runs[..|runs| - 1]) + FramesIn(runs[|runs| - 1])
  }

  lemma ConcatMore(runs: seq<FrameRun>, r: FrameRun)
    ensures Concat(runs + [r]) == Concat(runs) + FramesIn(r)
  {
    assert (runs + [r])[..|runs|] == runs;
  }

  /** The frames seen so far: freed, in the open run, or dropped. */
  ghost predicate Accounted(list: seq<nat>, s: Scan) {
    multiset(list) == multiset(Concat(s.freed)) + multiset(FramesIn(FrameRun(s.start, s.count))) + multiset(s.dropped)
  }

  lemma FramesOfMore(start: nat, count: nat)
    ensures FramesIn(FrameRun(start, 0)) == []
    ensures FramesIn(FrameRun(start, count + 1)) == FramesIn(FrameRun(start, count)) + [start + count]
  {
  }

  lemma OneMore(list: seq<nat>, frame: nat)
    ensures multiset(list + [frame]) == multiset(list) + multiset{frame}
  {
  }

  lemma StepAccounts(list: seq<nat>, s: Scan, frame: nat)
    requires Accounted(list, s)
    ensures Accounted(list + [frame], Step(s, frame))
  {
    hide FramesIn, Concat;
    FramesOfMore(s.start, s.count);
    FramesOfMore(frame, 0);
    ConcatMore(s.freed, FrameRun(s.start, s.count));
    var freed, run, dropped := Concat(s.freed), FramesIn(FrameRun(s.start, s.count)), s.dropped;
    OneMore(list, frame);
    OneMore(run, frame);
    OneMore(dropped, frame);
    assert multiset(freed + run) == multiset(freed) + multiset(run);
  }

  lemma {:induction false} ScanAccounts(list: seq<nat>)
    ensures Accounted(list, ScanOf(list))
  {
    if list != [] {
      var front, frame := list[..|list| - 1], list[|list| - 1];
      ScanAccounts(front);
      StepAccounts(front, ScanOf(front), frame);
      assert list == front + [frame];
    }
  }

  /** Every frame of the range is freed once or dropped once. */
  lemma EveryFrameAccountedFor(list: seq<nat>)
    ensures multiset(list) == multiset(Concat(RunsOf(list))) + multiset(Dropped(list))
  {
    var s := ScanOf(list);
    ScanAccounts(list);
    if s.count != 0 {
      ConcatMore(s.freed, FrameRun(s.start, s.count));
    }
  }

  // ----- what the loop does to a range, told without the loop

  /** Runs and dropped frames in turn, a run first; the last run may end the range. */
  function InTurn(runs: seq<FrameRun>, dropped: seq<nat>): seq<nat>
    requires |dropped| <= |runs| <= |dropped| + 1
    decreases |runs| + |dropped|
  {
    if runs == [] then []
    else if |runs| == |dropped| then InTurn(runs, dropped[..|dropped| - 1]) + [dropped[|dropped| - 1]]
    else InTurn(runs[..|runs| - 1], dropped) + FramesIn(runs[|runs| - 1])
  }

  /**
   The range consists of runs of one to 128 neighbouring frames with a single frame dropped after each: one
   that does not continue the run, or any after a run of 128.
   */
  ghost predicate CutsInto(list: seq<nat>, runs: seq<FrameRun>, dropped: seq<nat>) {
    && |dropped| <= |runs| <= |dropped| + 1 && list == InTurn(runs, dropped)
    && (forall i :: 0 <= i < |runs| ==> 0 < runs[i].count <= 128)
    && (forall i :: 0 <= i < |dropped| ==> dropped[i] != runs[i].start + runs[i].count || runs[i].count == 128)
  }

  /** The loop variables after a range that is cut so: with a run open exactly if the range ends in one. */
  ghost predicate ScanEnds(s: Scan, runs: seq<FrameRun>, dropped: seq<nat>) {
    && s.dropped == dropped
    && if |runs| == |dropped| then s.count == 0 && s.freed == runs
       else |runs| == |dropped| + 1 && s.freed + [FrameRun(s.start, s.count)] == runs && s.count > 0
  }

  /** The cutting of a range without its last frame. */
  function ShorterRuns(runs: seq<FrameRun>, dropped: seq<nat>): seq<FrameRun>
    requires |runs| == |dropped| + 1 && runs[|dropped|].count > 0
  {
    var last := runs[|dropped|];
    if last.count == 1 then runs[..|dropped|] else runs[..|dropped|] + [FrameRun(last.start, last.count - 1)]
  }

  lemma WithoutDropped(list: seq<nat>, runs: seq<FrameRun>, dropped: seq<nat>)
    requires CutsInto(list, runs, dropped) && |runs| == |dropped| > 0
    ensures list != [] && list[|list| - 1] == dropped[|dropped| - 1]
    ensures CutsInto(list[..|list| - 1], runs, dropped[..|dropped| - 1])
  {
    hide FramesIn;
    var front := InTurn(runs, dropped[..|dropped| - 1]);
    assert list == front + [dropped[|dropped| - 1]];
    assert list[..|list| - 1] == front;
  }

  lemma WithoutLastOfRun(list: seq<nat>, runs: seq<FrameRun>, dropped: seq<nat>)
    requires CutsInto(list, runs, dropped) && |runs| == |dropped| + 1
    ensures var last := runs[|dropped|];
            && list != [] && list[|list| - 1] == last.start + last.count - 1
            && CutsInto(list[..|list| - 1], ShorterRuns(runs, dropped), dropped)
  {
    hide FramesIn;
    var last, rest := runs[|dropped|], runs[..|dropped|];
    FramesOfMore(last.start, last.count - 1);
    var front := InTurn(ShorterRuns(runs, dropped), dropped);
    assert (rest + [FrameRun(last.start, last.count - 1)])[..|dropped|] == rest;
    assert list == front + [last.start + last.count - 1];
    assert list[..|list| - 1] == front;
  }

  lemma ScanDrops(s: Scan, runs: seq<FrameRun>, dropped: seq<nat>)
    requires |runs| == |dropped| > 0 && ScanEnds(s, runs, dropped[..|dropped| - 1])
    requires var last, frame := runs[|runs| - 1], dropped[|dropped| - 1];
             frame != last.start + last.count || last.count == 128
    ensures ScanEnds(Step(s, dropped[|dropped| - 1]), runs, dropped)
  {
  }

  lemma ScanExtends(s: Scan, runs: seq<FrameRun>, dropped: seq<nat>)
    requires |runs| == |dropped| + 1 && 0 < runs[|dropped|].count <= 128
    requires ScanEnds(s, ShorterRuns(runs, dropped), dropped)
    ensures ScanEnds(Step(s, runs[|dropped|].start + runs[|dropped|].count - 1), runs, dropped)
  {
    var m, last, shorter := |dropped|, runs[|dropped|], ShorterRuns(runs, dropped);
    assert runs == runs[..m] + [last];
    if last.count > 1 {
      assert shorter[m] == FrameRun(last.start, last.count - 1) == FrameRun(s.start, s.count);
      assert s.freed == shorter[..m] == runs[..m];
    }
  }

  /** There is one way to cut a range: the one the loop takes. */
  lemma {:induction false} CutAsScanned(list: seq<nat>, runs: seq<FrameRun>, dropped: seq<nat>)
    requires CutsInto(list, runs, dropped)
    ensures ScanEnds(ScanOf(list), runs, dropped)
    decreases |list|
  {
    hide InTurn, Step, ScanEnds, ShorterRuns;
    if runs == [] {
      NothingToCut(list, runs, dropped);
    } else if |runs| == |dropped| {
      WithoutDropped(list, runs, dropped);
      CutAsScanned(list[..|list| - 1], runs, dropped[..|dropped| - 1]);
      ScanDrops(ScanOf(list[..|list| - 1]), runs, dropped);
    } else {
      WithoutLastOfRun(list, runs, dropped);
      CutAsScanned(list[..|list| - 1], ShorterRuns(runs, dropped), dropped);
      ScanExtends(ScanOf(list[..|list| - 1]), runs, dropped);
    }
  }

  lemma NothingToCut(list: seq<nat>, runs: seq<FrameRun>, dropped: seq<nat>)
    requires CutsInto(list, runs, dropped) && runs == []
    ensures ScanEnds(ScanOf(list), runs, dropped)
  {
  }

  /** The runs freed so far and the one still open. */
  function OpenRuns(s: Scan): seq<FrameRun> {
    if s.count == 0 then s.freed else s.freed + [FrameRun(s.start, s.count)]
  }

  ghost predicate CutBy(list: seq<nat>, s: Scan) {
    CutsInto(list, OpenRuns(s), s.dropped) && (|OpenRuns(s)| == |s.dropped| <==> s.count == 0)
  }

  lemma StepCuts(list: seq<nat>, s: Scan, frame: nat)
    requires CutBy(list, s)
    ensures CutBy(list + [frame], Step(s, frame))
  {
    hide FramesIn;
    var t := Step(s, frame);
    var m := |s.dropped|;
    FramesOfMore(s.start, s.count);
    FramesOfMore(frame, 0);
    if s.count == 0 {
      assert OpenRuns(t)[..m] == s.freed;
    } else if frame != s.start + s.count || s.count >= TOP_PAGES {
      assert t.dropped[..m] == s.dropped;
    } else {
      assert OpenRuns(t)[..m] == OpenRuns(s)[..m] == s.freed;
    }
  }

  lemma CutsNothing()
    ensures CutBy([], ScanOf([]))
  {
  }

  lemma {:induction false} ScanCuts(list: seq<nat>)
    ensures CutBy(list, ScanOf(list))
  {
    hide CutBy, Step;
    if list == [] {
      CutsNothing();
    } else {
      var front, frame := list[..|list| - 1], list[|list| - 1];
      ScanCuts(front);
      StepCuts(front, ScanOf(front), frame);
      assert list == front + [frame];
    }
  }

  /** The runs freed and the frames dropped are those of the one way to cut the range, and no others. */
  lemma OneCutting(list: seq<nat>, runs: seq<FrameRun>, dropped: seq<nat>)
    ensures CutsInto(list, runs, dropped) <==> runs == RunsOf(list) && dropped == Dropped(list)
  {
    ScanCuts(list);
    if CutsInto(list, runs, dropped) {
      CutAsScanned(list, runs, dropped);
    }
  }

  /** A run of at most one top-order block of consecutive frames. */
  predicate SingleRun(list: seq<nat>) {
    |list| <= TOP_PAGES && forall t :: 0 <= t < |list| ==> list[t] == list[0] + t
  }

  /** Nothing is dropped exactly when the range is one run. */
  lemma {:induction false} NothingDropped(list: seq<nat>)
    ensures Dropped(list) == [] <==> SingleRun(list)
    ensures SingleRun(list) && list != [] ==> ScanOf(list) == Scan([], list[0], |list|, [])
  {
    if list != [] {
      var front, frame := list[..|list| - 1], list[|list| - 1];
      NothingDropped(front);
      if SingleRun(list) {
        assert SingleRun(front);
      }
      if front != [] && SingleRun(front) && !SingleRun(list) {
        assert frame != front[0] + |front| || |front| >= TOP_PAGES by {
          if frame == front[0] + |front| && |front| < TOP_PAGES {
            assert forall t :: 0 <= t < |list| ==> list[t] == if t < |front| then front[t] else frame;
          }
        }
      }
    }
  }

  /** __builtin_popcountll */
  function PopCount(n: nat): nat {
    if n == 0 then 0 else n % 2 + PopCount(n / 2)
  }

  lemma {:induction false} NoBitsMeansZero(n: nat)
    ensures PopCount(n) == 0 <==> n == 0
  {
    if n > 1 {
      NoBitsMeansZero(n / 2);
    }
  }

  /** One bit is set exactly in the powers of two. */
  lemma {:induction false} OneBitMeansPower(n: nat)
    requires n > 0
    ensures PopCount(n) == 1 <==> n == Size(BitLength(n) - 1)
  {
    if n > 1 {
      OneBitMeansPower(n / 2);
      NoBitsMeansZero(n / 2);
    }
  }

  /** What the source asserts of every run it frees. */
  predicate PowerOfTwo(r: FrameRun) {
    PopCount(r.count) == 1
  }

  /** What a run must be to go back to the frame allocator: a block, and so also naturally aligned. */
  predicate IsBlock(r: FrameRun, limit: nat) {
    && 0 < r.count <= TOP_PAGES && r.count == Size(MinSizeOrder(r.count))
    && WellFormed(Block(MinSizeOrder(r.count), r.start), limit)
  }

  predicate AssertionsHold(runs: seq<FrameRun>) {
    forall r <- runs :: PowerOfTwo(r)
  }

  predicate AllBlocks(runs: seq<FrameRun>, limit: nat) {
    forall r <- runs :: IsBlock(r, limit)
  }

  lemma BlocksPass(r: FrameRun, limit: nat)
    requires IsBlock(r, limit)
    ensures PowerOfTwo(r)
  {
    var k := MinSizeOrder(r.count);
    OneBitMeansPower(r.count);
    BitLengthOfPower(k);
  }

  lemma {:induction false} BitLengthOfPower(k: nat)
    ensures BitLength(Size(k)) == k + 1
  {
    if k > 0 {
      BitLengthOfPower(k - 1);
      assert Size(k) / 2 == Size(k - 1);
    }
  }

  /** How freeing runs ends: well, at the assertion, or with a run freed that was never a block. */
  datatype Freeing = Freed | AssertionFails | NotABlock

  function Judge(r: FrameRun, limit: nat): Freeing {
    if !PowerOfTwo(r) then AssertionFails else if !IsBlock(r, limit) then NotABlock else Freed
  }

  /** The verdict on the first run that is not a block. */
  function JudgeAll(runs: seq<FrameRun>, limit: nat): Freeing {
    if runs == [] then Freed
    else if Judge(runs[0], limit) != Freed then Judge(runs[0], limit)
    else JudgeAll(runs[1..], limit)
  }

  lemma {:induction false} FreedMeansBlocks(runs: seq<FrameRun>, limit: nat)
    ensures JudgeAll(runs, limit) == Freed <==> AllBlocks(runs, limit)
    ensures JudgeAll(runs, limit) == AssertionFails ==> !AssertionsHold(runs)
  {
    if runs != [] {
      FreedMeansBlocks(runs[1..], limit);
      assert runs == [runs[0]] + runs[1..];
      if IsBlock(runs[0], limit) {
        BlocksPass(runs[0], limit);
      }
    }
  }

  lemma {:induction false} FirstBadRun(runs: seq<FrameRun>, good: seq<FrameRun>, r: FrameRun, limit: nat)
    requires good + [r] <= runs && AllBlocks(good, limit) && Judge(r, limit) != Freed
    ensures JudgeAll(runs, limit) == Judge(r, limit)
  {
    if good == [] {
      assert runs[0] == ([] + [r])[0] == r;
    } else {
      assert runs[0] == (good + [r])[0] == good[0];
      BlocksPass(good[0], limit);
      assert good[1..] + [r] == (good + [r])[1..] <= runs[1..];
      FirstBadRun(runs[1..], good[1..], r, limit);
    }
  }

  /**
   Three exact cases.  Nothing is dropped for one run of at most 128 frames; besides that, the assertions
   hold if their number is a power of two; and the run is a block only if it is also naturally aligned.
   */
  lemma RightForOneBlockOnly(list: seq<nat>, limit: nat)
    requires list != []
    ensures Dropped(list) == [] <==> SingleRun(list)
    ensures AssertionsHold(RunsOf(list)) && Dropped(list) == [] <==> SingleRun(list) && PopCount(|list|) == 1
    ensures AllBlocks(RunsOf(list), limit) && Dropped(list) == [] <==>
            SingleRun(list) && IsBlock(FrameRun(list[0], |list|), limit)
  {
    hide SingleRun, Dropped, RunsOf, IsBlock, PopCount;
    OneRun(list);
    assert SingleRun(list) ==> FrameRun(list[0], |list|) in RunsOf(list);
  }

  lemma OneRun(list: seq<nat>)
    requires list != []
    ensures Dropped(list) == [] <==> SingleRun(list)
    ensures SingleRun(list) ==> RunsOf(list) == [FrameRun(list[0], |list|)]
  {
    NothingDropped(list);
  }

  /** Three neighbouring frames, as alloc_pages(3) may return them, fail the power-of-two assertion. */
  lemma ThreeFramesStop(addr: nat, limit: nat)
    ensures JudgeAll(RunsOf([addr, addr + 1, addr + 2]), limit) == AssertionFails
  {
    var list := [addr, addr + 1, addr + 2];
    OneRun(list);
    assert PopCount(3) == 2;
  }

  /** Two frames that are not neighbours: the second is unmapped but never freed. */
  lemma SecondFrameLost(f: nat, g: nat)
    requires g != f + 1
    ensures Dropped([f, g]) == [g] && RunsOf([f, g]) == [FrameRun(f, 1)]
  {
    assert [f, g][..1] == [f] && [f][..0] == [];
    assert ScanOf([f]) == Scan([], f, 1, []);
    assert ScanOf([f, g]) == Step(ScanOf([f]), g);
  }

  lemma PairMayBeFree(limit: nat)
    requires 3 <= limit
    ensures FreeSets.Canonical({Block(0, 1), Block(0, 2)}, limit)
  {
    hide Size, Offset;
    SmallOffsets();
    var one, two := Block(0, 1), Block(0, 2);
    assert WellFormed(one, limit) && WellFormed(two, limit) && Apart(one, two);
    assert BuddyOf(one) == Block(0, 0) && BuddyOf(two) == Block(0, 3);
  }

  lemma SmallOffsets()
    ensures Size(0) == 1 && Size(1) == 2
    ensures Offset(1, 0) == 0 && Offset(2, 0) == 0 && Offset(1, 1) == 1 && Offset(2, 1) == 0
  {
  }

  /**
   Frames 1 and 2 pass every assertion and neither is dropped, but together they are no block.  Both can be
   free, as blocks of their own, so alloc_pages(2) may return them; and no set of free blocks with the
   order-1 block at frame 1 in it is well formed.
   */
  lemma UnalignedPairPasses(limit: nat)
    requires 3 <= limit
    ensures AssertionsHold(RunsOf([1, 2])) && Dropped([1, 2]) == []
    ensures JudgeAll(RunsOf([1, 2]), limit) == NotABlock
    ensures FreeSets.Canonical({Block(0, 1), Block(0, 2)}, limit)
    ensures forall blocks: set<Block> :: !FreeSets.AllWellFormed(blocks + {Block(1, 1)}, limit)
  {
    OneRun([1, 2]);
    assert PopCount(2) == 1;
    SmallOffsets();
    BlockSizeOrder(1);
    PairMayBeFree(limit);
    forall blocks: set<Block> ensures !FreeSets.AllWellFormed(blocks + {Block(1, 1)}, limit) {
      assert Block(1, 1) in blocks + {Block(1, 1)};
    }
  }

  lemma {:induction false} ScanGrows(list: seq<nat>, i: nat)
    requires i <= |list|
    ensures ScanOf(list[..i]).freed <= ScanOf(list).freed <= RunsOf(list)
    decreases |list|
  {
    if i < |list| {
      var front := list[..|list| - 1];
      ScanGrows(front, i);
      assert front[..i] == list[..i];
    } else {
      assert list[..i] == list;
    }
  }

  ghost function FrameSet(list: seq<nat>): set<nat> {
    set f | f in list
  }

  lemma {:induction false} RepeatsShow(list: seq<nat>)
    ensures NoRepeats(list) <==> forall f <- list :: multiset(list)[f] == 1
  {
    if list != [] {
      var front, last := list[..|list| - 1], list[|list| - 1];
      RepeatsShow(front);
      assert list == front + [last];
      forall f ensures multiset(list)[f] == multiset(front)[f] + if f == last then 1 else 0 {
      }
      if NoRepeats(list) {
        forall f | f in list ensures multiset(list)[f] == 1 {
          if f == last {
            assert f !in front;
          }
        }
      } else if NoRepeats(front) {
        assert last in front;
      } else {
        var f :| f in front && multiset(front)[f] != 1;
        assert f in list && multiset(list)[f] >= 2;
      }
    }
  }

  lemma PartHasNoRepeats(part: seq<nat>, list: seq<nat>)
    requires NoRepeats(list) && multiset(part) <= multiset(list)
    ensures NoRepeats(part)
  {
    RepeatsShow(list);
    RepeatsShow(part);
    forall f | f in part ensures multiset(part)[f] == 1 {
      assert multiset(part)[f] > 0;
      assert f in multiset(list);
    }
  }

  /** When the frames of a range are all different, so are the frames it frees; none is freed twice. */
  lemma FreedOnce(list: seq<nat>)
    requires NoRepeats(list)
    ensures NoRepeats(Concat(RunsOf(list)))
    ensures FrameSet(Concat(RunsOf(list))) == FrameSet(list) - FrameSet(Dropped(list))
  {
    EveryFrameAccountedFor(list);
    var freed, dropped := Concat(RunsOf(list)), Dropped(list);
    PartHasNoRepeats(freed, list);
    RepeatsShow(list);
    forall f ensures f in freed <==> f in list && f !in dropped {
      assert multiset(list)[f] == multiset(freed)[f] + multiset(dropped)[f];
      assert f in list ==> multiset(list)[f] == 1;
      assert f in list <==> multiset(list)[f] > 0;
      assert f in freed <==> multiset(freed)[f] > 0;
      assert f in dropped <==> multiset(dropped)[f] > 0;
    }
  }

  lemma {:induction false} ConcatPrefix(runs: seq<FrameRun>, all: seq<FrameRun>)
    requires runs <= all
    ensures Concat(runs) <= Concat(all)
    decreases |all|
  {
    if runs != all {
      ConcatPrefix(runs, all[..|all| - 1]);
    }
  }

  /** The next run to be freed shares no frame with those freed before it. */
  lemma NextRunIsNew(list: seq<nat>, freed: seq<FrameRun>, r: FrameRun)
    requires NoRepeats(list) && freed + [r] <= RunsOf(list)
    ensures FrameSet(FramesIn(r)) !! FrameSet(Concat(freed)) && FrameSet(FramesIn(r)) <= FrameSet(list)
    ensures FrameSet(Concat(freed + [r])) == FrameSet(Concat(freed)) + FrameSet(FramesIn(r))
  {
    FreedOnce(list);
    ConcatPrefix(freed + [r], RunsOf(list));
    ConcatMore(freed, r);
    var one, two, all := Concat(freed), FramesIn(r), Concat(RunsOf(list));
    assert one + two <= all;
    forall i, j | 0 <= i < |one| && 0 <= j < |two| ensures one[i] != two[j] {
      assert one[i] == all[i] && two[j] == all[|one| + j];
    }
    forall f | f in two ensures f in list {
      assert f in one + two;
      assert f in FrameSet(all);
    }
  }

  /** A run of a whole block's size covers that block. */
  lemma RunIsBlock(r: FrameRun, limit: nat)
    requires IsBlock(r, limit)
    ensures MinSizeOrder(r.count) < FRAME_ORDERS
    ensures FreeSets.PagesOf(Block(MinSizeOrder(r.count), r.start)) == FrameSet(FramesIn(r))
  {
    var b := Block(MinSizeOrder(r.count), r.start);
    forall f | f in FreeSets.PagesOf(b) ensures f in FramesIn(r) {
      assert FramesIn(r)[f - r.start] == f;
    }
    forall f | f in FramesIn(r) ensures f in FreeSets.PagesOf(b) {
      assert Holds(b, f);
    }
  }

  /** The variables of the loop, which leaves `start` alone between runs. */
  ghost predicate LoopState(s: Scan, start: nat, curr: nat, count: nat) {
    s.count == count && (count > 0 ==> s.start == start && curr == start + count - 1)
  }

  lemma ScanStep(list: seq<nat>, i: nat)
    requires i < |list|
    ensures ScanOf(list[..i + 1]) == Step(ScanOf(list[..i]), list[i])
    ensures ScanOf(list[..i + 1]).freed <= RunsOf(list)
  {
    assert list[..i + 1][..i] == list[..i];
    ScanGrows(list, i + 1);
  }
}
