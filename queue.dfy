/**
 * The open list of GBFS and A*: std::priority_queue under a comparator.
 *
 * `below(x, y)` is the comparator's answer to "does x rank below y"; the
 * queue's top is an element that no other element ranks above. The heap
 * itself is not modelled: the queue is a sequence and the pop scans it for
 * such an element.
 */
module PriorityQueue {

  /** What std::priority_queue needs of its comparator: irreflexive and transitive. */
  ghost predicate StrictOrder<T(!new)>(below: (T, T) -> bool) {
    && (forall x :: !below(x, x))
    && (forall x, y, z :: below(x, y) && below(y, z) ==> below(x, z))
  }

  /**
   * The index of the element top() returns: nothing in the queue ranks above
   * it.
   */
  method Top<T(!new)>(q: seq<T>, below: (T, T) -> bool) returns (k: nat)
    requires |q| > 0 && StrictOrder(below)
    ensures k < |q|
    ensures forall j :: 0 <= j < |q| ==> !below(q[k], q[j])
  {
    k := 0;
    for j := 1 to |q|
      invariant k < j
      invariant forall i :: 0 <= i < j ==> !below(q[k], q[i])
    {
      if below(q[k], q[j]) {
        k := j;
      }
    }
  }

  /** The queue after pop(): the top element at index k taken out, the rest kept. */
  function RemoveAt<T>(q: seq<T>, k: nat): (r: seq<T>)
    requires k < |q|
    ensures |r| == |q| - 1
    ensures multiset(r) + multiset{q[k]} == multiset(q)
    ensures forall j :: 0 <= j < |q| && j != k ==> q[j] in r
    ensures forall x :: x in r ==> x in q
  {
    assert q == q[..k] + [q[k]] + q[k + 1..];
    q[..k] + q[k + 1..]
  }
}
