/**
 What alloc_frames and alloc_frames_contiguos take from the free lists, and what they leave in them: a block
 of the wanted order is split off the front of the smallest larger order that has one, right halves staying
 behind in front of the lists below.
 */
module FreeLists {
  import opened Blocks

  /** The addresses in the free lists, by order, front first. */
  type ByOrder = s: seq<seq<nat>> | |s| == FRAME_ORDERS witness seq(FRAME_ORDERS, _ => [])

  /** The smallest order from w on with a free block, or one past the last. */
  function Least(l: ByOrder, w: nat): (j: nat)
    requires w <= FRAME_ORDERS
    ensures w <= j <= FRAME_ORDERS && (j < FRAME_ORDERS ==> l[j] != []) && forall i :: w <= i < j ==> l[i] == []
    decreases FRAME_ORDERS - w
  {
    if w == FRAME_ORDERS || l[w] != [] then w else Least(l, w + 1)
  }

  /** The largest order below w with a free block, or -1. */
  function Greatest(l: ByOrder, w: nat): (k: int)
    requires w <= FRAME_ORDERS
    ensures -1 <= k < w && (k >= 0 ==> l[k] != []) && forall i :: k < i < w ==> l[i] == []
  {
    if w == 0 then -1 else if l[w - 1] != [] then w - 1 else Greatest(l, w - 1)
  }

  /** Splitting the front block of order j until two of order w are in front. */
  function SplitDown(l: ByOrder, j: nat, w: nat): ByOrder
    requires w <= j < FRAME_ORDERS && l[j] != []
  {
    seq(FRAME_ORDERS, i requires 0 <= i < FRAME_ORDERS =>
      if i < w || j < i || w == j then l[i]
      else if i == j then l[j][1..]
      else if i == w then [l[j][0], l[j][0] + Size(w)] + l[w]
      else [l[j][0] + Size(i)] + l[i])
  }

  /** The front block of order k is taken. */
  function Popped(l: ByOrder, k: nat): ByOrder
    requires k < FRAME_ORDERS && l[k] != []
  {
    l[k := l[k][1..]]
  }

  lemma SplitStart(l: ByOrder, j: nat, w: nat)
    requires w <= j < FRAME_ORDERS && l[j] != []
    ensures SplitDown(l, j, w)[w] != [] && SplitDown(l, j, w)[w][0] == l[j][0]
    ensures SplitDown(l, j, j) == l
  {
    hide Size;
  }

  lemma SplitOnce(l: ByOrder, j: nat, w: nat)
    requires 0 < w <= j < FRAME_ORDERS && l[j] != []
    ensures SplitDown(l, j, w)[w] != [] && SplitDown(l, j, w - 1) == HalvesBelow(SplitDown(l, j, w), w)
  {
    hide Size;
    var u, v := SplitDown(l, j, w - 1), HalvesBelow(SplitDown(l, j, w), w);
    assert w < j ==> ([l[j][0], l[j][0] + Size(w)] + l[w])[1..] == [l[j][0] + Size(w)] + l[w];
    forall i | 0 <= i < FRAME_ORDERS ensures u[i] == v[i] {
    }
  }

  /** split_entry on the front block of order w. */
  function HalvesBelow(l: ByOrder, w: nat): ByOrder
    requires 0 < w < FRAME_ORDERS && l[w] != []
  {
    Popped(l, w)[w - 1 := [l[w][0], l[w][0] + Size(w - 1)] + l[w - 1]]
  }

  /** A round: the order of the block taken (-1: none), its address, how many were split for it, and what is left. */
  datatype Round = Round(order: int, addr: nat, splits: nat, left: ByOrder)

  function Serve(l: ByOrder, w: nat): (r: Round)
    requires w < FRAME_ORDERS
    ensures -1 <= r.order <= w
  {
    var j, k := Least(l, w), Greatest(l, w);
    if j < FRAME_ORDERS then Round(w, l[j][0], j - w, Popped(SplitDown(l, j, w), w))
    else if k >= 0 then Round(k, l[k][0], 0, Popped(l, k))
    else Round(-1, 0, 0, l)
  }

  lemma ServedAsWanted(l: ByOrder, w: nat)
    requires w < FRAME_ORDERS && Least(l, w) < FRAME_ORDERS
    ensures Serve(l, w).order == w
  {
  }

  /** The largest order, from k down, whose blocks are no larger than so many pages. */
  function WishFrom(size: nat, k: nat): (w: nat)
    requires size > 0
    ensures w <= k && Size(w) <= size && (w < k ==> size < Size(w + 1))
  {
    if Size(k) <= size || k == 0 then k else WishFrom(size, k - 1)
  }

  function Wish(size: nat): (w: nat)
    requires size > 0
    ensures w <= TOP_ORDER && Size(w) <= size
  {
    WishFrom(size, TOP_ORDER)
  }

  lemma LeastIs(l: ByOrder, w: nat, j: nat)
    requires w <= j < FRAME_ORDERS && l[j] != [] && forall i :: w <= i < j ==> l[i] == []
    ensures Least(l, w) == j
  {
  }

  lemma WishIs(size: nat, w: nat)
    requires size > 0 && w <= TOP_ORDER && Size(w) <= size && (w < TOP_ORDER ==> size < Size(w + 1))
    ensures Wish(size) == w
  {
    var v := Wish(size);
    if v < w {
      SizeGrows(v + 1, w);
    } else if w < v {
      SizeGrows(w + 1, v);
    }
  }

  /** The rounds of alloc_frames until so many pages are gathered or nothing is free: all their splits. */
  function Splits(l: ByOrder, size: nat): nat
    decreases size
  {
    if size == 0 then 0
    else
      var r := Serve(l, Wish(size));
      if r.order < 0 then 0
      else
        SizeGrows(r.order, Wish(size));
        r.splits + Splits(r.left, size - Size(r.order))
  }

  /** The blocks they take. */
  function TakenFrom(l: ByOrder, size: nat): seq<Block>
    decreases size
  {
    if size == 0 then []
    else
      var r := Serve(l, Wish(size));
      if r.order < 0 then []
      else
        SizeGrows(r.order, Wish(size));
        [Block(r.order, r.addr)] + TakenFrom(r.left, size - Size(r.order))
  }

  /** What they leave. */
  function LeftBy(l: ByOrder, size: nat): ByOrder
    decreases size
  {
    if size == 0 then l
    else
      var r := Serve(l, Wish(size));
      if r.order < 0 then l
      else
        SizeGrows(r.order, Wish(size));
        LeftBy(r.left, size - Size(r.order))
  }

  /** So far in gathering `total` pages from the lists `from`: blocks and splits, and the pages still to gather. */
  ghost predicate Underway(from: ByOrder, total: nat, l: ByOrder, size: nat, front: seq<Block>, splits: nat) {
    && front + TakenFrom(l, size) == TakenFrom(from, total)
    && splits + Splits(l, size) == Splits(from, total) && LeftBy(l, size) == LeftBy(from, total)
  }

  lemma NothingGatheredYet(l: ByOrder, total: nat)
    ensures Underway(l, total, l, total, [], 0)
  {
  }

  lemma OneRound(from: ByOrder, total: nat, l: ByOrder, size: nat, front: seq<Block>, splits: nat)
    requires size > 0 && Underway(from, total, l, size, front, splits)
    ensures var r := Serve(l, Wish(size));
            r.order >= 0 ==>
              var more := front + [Block(r.order, r.addr)];
              && Size(r.order) <= size
              && Underway(from, total, r.left, size - Size(r.order), more, splits + r.splits)
  {
    hide Serve, WishFrom;
    var r := Serve(l, Wish(size));
    if r.order >= 0 {
      SizeGrows(r.order, Wish(size));
      var b := Block(r.order, r.addr);
      var rest := TakenFrom(r.left, size - Size(r.order));
      assert front + ([b] + rest) == front + [b] + rest;
    }
  }

  lemma AllGathered(from: ByOrder, total: nat, l: ByOrder, front: seq<Block>, splits: nat)
    requires Underway(from, total, l, 0, front, splits)
    ensures front == TakenFrom(from, total) && splits == Splits(from, total) && l == LeftBy(from, total)
  {
  }

  // ----- one page, and then ten

  lemma Wishes()
    ensures Size(0) == 1 && Size(1) == 2 && Size(2) == 4 && Size(3) == 8
    ensures Wish(1) == 0 && Wish(2) == 1 && Wish(6) == 2 && Wish(10) == 3
  {
    assert Size(4) == 16;
    SizeGrows(4, 7);
  }

  lemma OnePage(l: ByOrder)
    ensures var j := Least(l, 0);
            if j < FRAME_ORDERS then Splits(l, 1) == j && LeftBy(l, 1) == Popped(SplitDown(l, j, 0), 0)
            else Splits(l, 1) == 0 && LeftBy(l, 1) == l
  {
    Wishes();
    var r := Serve(l, 0);
  }

  lemma TwoPages(l: ByOrder)
    ensures Splits(l, 2) == if Least(l, 1) < FRAME_ORDERS then Least(l, 1) - 1 else 0
  {
    Wishes();
    var r := Serve(l, 1);
    if Least(l, 1) == FRAME_ORDERS && r.order == 0 {
      OnePage(r.left);
    }
  }

  lemma SmallRound(l: ByOrder, w: nat)
    requires w < FRAME_ORDERS && (w > 0 || l[1] == []) && forall i :: 2 <= i < FRAME_ORDERS ==> l[i] == []
    ensures var r := Serve(l, w);
            && r.splits == 0 && r.order <= 1 && (r.order == 1 ==> l[1] != []) && (r.order == 0 ==> r.left[1] == [])
            && forall i :: 2 <= i < FRAME_ORDERS ==> r.left[i] == []
  {
  }

  /** With blocks of one and two pages only, none is split for an even number of pages. */
  lemma {:induction false} SmallBlocksStayWhole(l: ByOrder, size: nat)
    requires forall i :: 2 <= i < FRAME_ORDERS ==> l[i] == []
    requires size % 2 == 0 || l[1] == []
    ensures Splits(l, size) == 0
    decreases size
  {
    hide Serve, WishFrom;
    if size > 0 {
      var w := Wish(size);
      var r := Serve(l, w);
      Wishes();
      SmallRound(l, w);
      if r.order >= 0 {
        SizeGrows(r.order, w);
        SmallBlocksStayWhole(r.left, size - Size(r.order));
      }
    }
  }

  lemma TenFromSmall(l: ByOrder)
    requires forall i :: 3 <= i < FRAME_ORDERS ==> l[i] == []
    ensures Splits(l, 10) <= 1
  {
    Wishes();
    if l[2] == [] {
      SmallBlocksStayWhole(l, 10);
    } else {
      var rest := Popped(l, 2);
      assert Serve(l, 3) == Round(2, l[2][0], 0, rest);
      if rest[2] == [] {
        SmallBlocksStayWhole(rest, 6);
      } else {
        assert Serve(rest, 2) == Round(2, rest[2][0], 0, Popped(rest, 2));
        TwoPages(Popped(rest, 2));
      }
    }
  }

  lemma TenPages(l: ByOrder)
    requires Least(l, 3) < FRAME_ORDERS
    ensures var j := Least(l, 3); Splits(l, 10) == j - 3 + Splits(Popped(SplitDown(l, j, 3), 3), 2)
  {
    Wishes();
  }

  /** One page and then ten: together never more than seven splits, whatever the lists hold. */
  lemma OneThenTen(l: ByOrder)
    ensures Splits(l, 1) + Splits(LeftBy(l, 1), 10) <= TOP_ORDER
  {
    hide Splits, LeftBy, Wish, Greatest, Size;
    OnePage(l);
    var j, rest := Least(l, 0), LeftBy(l, 1);
    var m := Least(rest, 3);
    if m == FRAME_ORDERS {
      TenFromSmall(rest);
    } else {
      TenPages(rest);
      TwoPages(Popped(SplitDown(rest, m, 3), 3));
    }
  }
}
