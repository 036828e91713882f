/** Consecutive numbers: pages of a run, addresses of a range, indices of an array. */
module Intervals {

  predicate InRun(first: nat, count: nat, p: nat) {
    first <= p < first + count
  }

  /** first, first + 1, ..., first + count - 1 */
  ghost function Range(first: nat, count: nat): set<nat> {
    set p | first <= p < first + count && InRun(first, count, p)
  }

  /** The same numbers in ascending order. */
  function Consecutive(first: nat, count: nat): (list: seq<nat>)
    ensures |list| == count && forall t :: 0 <= t < count ==> list[t] == first + t
  {
    seq(count, t requires 0 <= t < count => first + t)
  }

  lemma {:induction false} RangeSize(first: nat, count: nat)
    ensures |Range(first, count)| == count
  {
    if count > 0 {
      RangeSize(first, count - 1);
      assert Range(first, count) == Range(first, count - 1) + {first + count - 1};
    }
  }
}
