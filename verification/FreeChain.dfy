/**
 The free chain of a slab: an array of next indices threaded through the free objects, entered at
 next_free and ending at the number of objects.
 */
module FreeChain {
  import opened Intervals
  import opened Lists

  /** From `next`, exactly n steps along the array lead to the end. */
  ghost predicate Chained(free: seq<nat>, next: nat, n: nat)
    decreases n
  {
    if n == 0 then next == |free| else next < |free| && Chained(free, free[next], n - 1)
  }

  /** The indices visited. */
  ghost function Path(free: seq<nat>, next: nat, n: nat): (path: seq<nat>)
    requires Chained(free, next, n)
    ensures |path| == n && forall i <- path :: i < |free|
    decreases n
  {
    if n == 0 then [] else [next] + Path(free, free[next], n - 1)
  }

  /** A chain from one index has one length. */
  lemma {:induction false} OneLength(free: seq<nat>, next: nat, m: nat, n: nat)
    requires Chained(free, next, m) && Chained(free, next, n)
    ensures m == n
    decreases n
  {
    if m > 0 && n > 0 {
      OneLength(free, free[next], m - 1, n - 1);
    }
  }

  /** Every index on the path starts a shorter chain of its own. */
  lemma {:induction false} PathSuffix(free: seq<nat>, next: nat, n: nat, i: nat)
    requires Chained(free, next, n) && i < n
    ensures Chained(free, Path(free, next, n)[i], n - i)
    decreases n
  {
    if i > 0 {
      PathSuffix(free, free[next], n - 1, i - 1);
    }
  }

  /** The chain visits no index twice. */
  lemma PathHasNoRepeats(free: seq<nat>, next: nat, n: nat)
    requires Chained(free, next, n)
    ensures NoRepeats(Path(free, next, n))
  {
    forall i, j | 0 <= i < j < n ensures Path(free, next, n)[i] != Path(free, next, n)[j] {
      PathDiffers(free, next, n, i, j);
    }
  }

  lemma PathDiffers(free: seq<nat>, next: nat, n: nat, i: nat, j: nat)
    requires Chained(free, next, n) && i < j < n
    ensures Path(free, next, n)[i] != Path(free, next, n)[j]
  {
    hide Path;
    PathSuffix(free, next, n, i);
    PathSuffix(free, next, n, j);
    var path := Path(free, next, n);
    if path[i] == path[j] {
      OneLength(free, path[i], n - i, n - j);
    }
  }

  /** Storing at an index off the path leaves the chain as it was. */
  lemma {:induction false} StoreOffPath(free: seq<nat>, next: nat, n: nat, i: nat, x: nat)
    requires Chained(free, next, n) && i < |free| && i !in Path(free, next, n)
    ensures Chained(free[i := x], next, n) && Path(free[i := x], next, n) == Path(free, next, n)
    decreases n
  {
    if n > 0 {
      StoreOffPath(free, free[next], n - 1, i, x);
    }
  }

  /** Taking the first free object: the chain loses its first index. */
  lemma PopChain(free: seq<nat>, next: nat, n: nat)
    requires Chained(free, next, n) && n > 0
    ensures Chained(free, free[next], n - 1)
    ensures Path(free, next, n) == [next] + Path(free, free[next], n - 1)
    ensures next !in Path(free, free[next], n - 1)
  {
    PathHasNoRepeats(free, next, n);
    var path := Path(free, next, n);
    var rest := Path(free, free[next], n - 1);
    forall j | 0 <= j < |rest| ensures rest[j] != next {
      assert path == [next] + rest && path[0] != path[j + 1];
    }
  }

  /** Giving an object back: the chain gains it in front. */
  lemma PushChain(free: seq<nat>, next: nat, n: nat, i: nat)
    requires Chained(free, next, n) && i < |free| && i !in Path(free, next, n)
    ensures Chained(free[i := next], i, n + 1)
    ensures Path(free[i := next], i, n + 1) == [i] + Path(free, next, n)
  {
    StoreOffPath(free, next, n, i, next);
    var after := free[i := next];
    assert after[i] == next;
    assert Path(after, i, n + 1) == [i] + Path(after, after[i], n);
  }

  /** The array of a new slab, entry i holding i + 1, chains all objects in order. */
  lemma {:induction false} NewChain(free: seq<nat>, k: nat)
    requires k <= |free| && forall i :: 0 <= i < |free| ==> free[i] == i + 1
    ensures Chained(free, k, |free| - k)
    ensures ElementsOf(Path(free, k, |free| - k)) == Range(0, |free|) - Range(0, k)
    decreases |free| - k
  {
    if k < |free| {
      NewChain(free, k + 1);
      assert Path(free, k, |free| - k) == [k] + Path(free, free[k], |free| - k - 1);
      assert ElementsOf(Path(free, k, |free| - k)) == {k} + ElementsOf(Path(free, free[k], |free| - k - 1));
      assert Range(0, |free|) - Range(0, k) == {k} + (Range(0, |free|) - Range(0, k + 1));
    }
  }

  /** The loop that initializes the free array of a new slab. */
  method FillFreeArray(count: nat) returns (free: seq<nat>)
    ensures |free| == count && Chained(free, 0, count)
    ensures Allocated(free, 0, count) == {}
  {
    free := [];
    for i := 0 to count
      invariant |free| == i && forall j :: 0 <= j < i ==> free[j] == j + 1
    {
      free := free + [i + 1];
    }
    NewChain(free, 0);
  }

  ghost function ElementsOf(path: seq<nat>): set<nat> {
    set i | i in path
  }

  /** The objects off the chain are the allocated ones: as many as the chain is short of the array. */
  ghost function Allocated(free: seq<nat>, next: nat, n: nat): set<nat>
    requires Chained(free, next, n)
  {
    Range(0, |free|) - ElementsOf(Path(free, next, n))
  }

  lemma AllocatedCount(free: seq<nat>, next: nat, n: nat)
    requires Chained(free, next, n)
    ensures n <= |free| && |Allocated(free, next, n)| == |free| - n
  {
    PathHasNoRepeats(free, next, n);
    var path := Path(free, next, n);
    CountElements(path);
    RangeSize(0, |free|);
    assert ElementsOf(path) <= Range(0, |free|);
    assert Range(0, |free|) == Allocated(free, next, n) + ElementsOf(path);
  }

  lemma {:induction false} CountElements(path: seq<nat>)
    requires NoRepeats(path)
    ensures |ElementsOf(path)| == |path|
  {
    if path != [] {
      var front, last := path[..|path| - 1], path[|path| - 1];
      CountElements(front);
      assert path == front + [last];
      assert ElementsOf(path) == ElementsOf(front) + {last};
    }
  }
}
