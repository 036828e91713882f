/** Linked lists seen as the sequence of what they hold, front first. */
module Lists {

  ghost predicate NoRepeats<T>(list: seq<T>) {
    forall i, j :: 0 <= i < j < |list| ==> list[i] != list[j]
  }

  /** The list after unlinking the entry at position i. */
  function Without<T>(list: seq<T>, i: nat): seq<T>
    requires i < |list|
  {
    list[..i] + list[i + 1..]
  }

  lemma WithoutAt<T>(list: seq<T>, i: nat)
    requires i < |list|
    ensures |Without(list, i)| == |list| - 1
    ensures forall j :: 0 <= j < |list| - 1 ==> Without(list, i)[j] == list[if j < i then j else j + 1]
  {
  }

  /** What is left after unlinking an entry: whatever lies at another position. */
  lemma LeftWithout<T>(list: seq<T>, i: nat, j: nat)
    requires i < |list| && j < |list| && j != i
    ensures list[j] in Without(list, i)
  {
    WithoutAt(list, i);
    assert Without(list, i)[if j < i then j else j - 1] == list[j];
  }

  lemma WithoutKeepsDistinct<T>(list: seq<T>, i: nat)
    requires NoRepeats(list) && i < |list|
    ensures NoRepeats(Without(list, i)) && list[i] !in Without(list, i)
    ensures forall j :: 0 <= j < |list| - 1 ==> Without(list, i)[j] == list[if j < i then j else j + 1]
    ensures forall x <- Without(list, i) :: x in list
  {
    WithoutAt(list, i);
  }
}
