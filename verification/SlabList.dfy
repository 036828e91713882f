/**
 The doubly linked slab lists, pointer by pointer.  The slab allocator itself is modelled on the
 sequences these lists stand for.
 */
module SlabList {
  import opened Lists

  class Slab {
    var next: Slab?
    var prev: Slab?

    constructor ()
    {
      next, prev := null, null;
    }
  }

  class SlabList {
    var head: Slab?
    ghost var slabs: seq<Slab>

    /** Both directions of every link agree, the front has no predecessor and the back no successor. */
    ghost predicate Valid()
      reads this, slabs
    {
      && NoRepeats(slabs)
      && head == (if slabs == [] then null else slabs[0])
      && (forall i {:trigger slabs[i].prev} :: 0 <= i < |slabs| ==>
          slabs[i].prev == if i == 0 then null else slabs[i - 1])
      && (forall i {:trigger slabs[i].next} :: 0 <= i < |slabs| ==>
            slabs[i].next == if i == |slabs| - 1 then null else slabs[i + 1])
    }

    constructor ()
      ensures Valid() && slabs == []
    {
      head, slabs := null, [];
    }

    /** Adds a slab to the front. */
    method PushFront(x: Slab)
      requires Valid() && x !in slabs
      modifies this, slabs, x
      ensures Valid() && slabs == [x] + old(slabs)
    {
      x.next := head;
      x.prev := null;
      if head != null {
        head.prev := x;
      }
      head := x;
      slabs := [x] + slabs;
    }

    /** Adds a slab to the front whose back pointer is null already; kalloc does not store it again. */
    method PushFormerHead(x: Slab)
      requires Valid() && x !in slabs && x.prev == null
      modifies this, slabs, x
      ensures Valid() && slabs == [x] + old(slabs)
    {
      x.next := head;
      if head != null {
        head.prev := x;
      }
      head := x;
      slabs := [x] + slabs;
    }

    /** remove_slab_from_list */
    method Remove(x: Slab, ghost k: nat)
      requires Valid() && k < |slabs| && slabs[k] == x
      modifies this, slabs
      ensures Valid() && slabs == Without(old(slabs), k)
    {
      ghost var was := slabs;
      var next := x.next;
      var prev := x.prev;
      assert next == (if k == |was| - 1 then null else was[k + 1]) && prev == (if k == 0 then null else was[k - 1]);
      if next != null {
        next.prev := x.prev;
      }
      if prev != null {
        prev.next := x.next;
      }
      if x == head {
        head := x.next;
      }
      forall i | 0 <= i < |was| && i != k
        ensures was[i].prev == (if i == k + 1 then prev else if i == 0 then null else was[i - 1])
        ensures was[i].next == (if i == k - 1 then next else if i == |was| - 1 then null else was[i + 1])
      {
      }
      WithoutKeepsDistinct(was, k);
      slabs := Without(was, k);
    }
  }

  ghost predicate Apart(one: SlabList, two: SlabList)
    reads one, two
  {
    one != two && (forall s <- one.slabs :: s !in two.slabs) && (forall s <- two.slabs :: s !in one.slabs)
  }

  /** The part of kalloc that takes the front slab off a list. */
  method PopFront(list: SlabList) returns (slab: Slab)
    requires list.Valid() && list.slabs != []
    modifies list, list.slabs
    ensures list.Valid() && list.slabs == old(list.slabs[1..]) && slab == old(list.slabs[0])
    ensures slab.prev == null
  {
    ghost var was := list.slabs;
    slab := list.head;
    assert slab == was[0];
    list.head := slab.next;
    if list.head != null {
      list.head.prev := null;
    }
    list.slabs := was[1..];
    assert forall i :: 0 <= i < |was| - 1 ==> was[1..][i] == was[i + 1];
  }

  /** What kalloc does with the front slab of the part list when it is full. */
  method FrontMoves(part: SlabList, full: SlabList)
    requires part.Valid() && full.Valid() && Apart(part, full) && part.slabs != []
    modifies part, full, part.slabs, full.slabs
    ensures part.Valid() && full.Valid() && Apart(part, full)
    ensures part.slabs == old(part.slabs[1..]) && full.slabs == [old(part.slabs[0])] + old(full.slabs)
  {
    ghost var was := part.slabs;
    assert was == [was[0]] + was[1..];
    assert forall i :: 0 <= i < |full.slabs| ==> full.slabs[i] in full.slabs;
    var slab := PopFront(part);
    assert slab !in part.slabs by {
      assert forall i :: 0 <= i < |part.slabs| ==> part.slabs[i] == was[i + 1];
    }
    full.PushFormerHead(slab);
  }

  /** What kfree does with a full slab that loses an object. */
  method FullMoves(part: SlabList, full: SlabList, slab: Slab, ghost k: nat)
    requires part.Valid() && full.Valid() && Apart(part, full) && k < |full.slabs| && full.slabs[k] == slab
    modifies part, full, part.slabs, full.slabs
    ensures part.Valid() && full.Valid() && Apart(part, full)
    ensures full.slabs == Without(old(full.slabs), k) && part.slabs == [slab] + old(part.slabs)
  {
    WithoutKeepsDistinct(full.slabs, k);
    assert forall i :: 0 <= i < |part.slabs| ==> part.slabs[i] in part.slabs;
    full.Remove(slab, k);
    part.PushFront(slab);
  }
}
