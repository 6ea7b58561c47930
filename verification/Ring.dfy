/** A ring of slots read as a first-in first-out sequence. */
module Ring {

  function Wrap(k: nat, size: nat): nat
    requires k < 2 * size
  {
    if k < size then k else k - size
  }

  /** The count elements from head on. */
  function Contents<T>(slots: seq<T>, head: nat, count: nat): (r: seq<T>)
    requires head < |slots| && count <= |slots|
    ensures |r| == count
    ensures forall i :: 0 <= i < count ==> r[i] == slots[Wrap(head + i, |slots|)]
  {
    seq(count, i requires 0 <= i < count => slots[Wrap(head + i, |slots|)])
  }

  /** Writing the slot behind the last element appends. */
  lemma Push<T>(slots: seq<T>, slots': seq<T>, head: nat, count: nat, x: T)
    requires head < |slots| && count < |slots|
    requires slots' == slots[Wrap(head + count, |slots|) := x]
    ensures Contents(slots', head, count + 1) == Contents(slots, head, count) + [x]
  {
  }

  /** Moving the head removes the first element. */
  lemma Pop<T>(slots: seq<T>, head: nat, count: nat)
    requires head < |slots| && 0 < count <= |slots|
    ensures Contents(slots, Wrap(head + 1, |slots|), count - 1) == Contents(slots, head, count)[1..]
  {
  }
}
