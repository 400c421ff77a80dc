/**
 * Request control blocks, the null sentinel, seek distance and the
 * order-preserving removal of one queue entry.
 */
module Requests {

  /**
   * One I/O request. `payload` stands for the two further fields of the
   * record, which the scheduler copies along but never reads.
   */
  datatype RCB = RCB(requestId: int, arrivalTimestamp: int, cylinder: int, payload: (int, int))

  /** The all-zero record: "no current request" and "nothing to service". */
  const NullRcb: RCB := RCB(0, 0, 0, (0, 0))

  /** The disk is idle when the current request carries the sentinel's id. */
  predicate IsIdle(current: RCB)
  {
    current.requestId == NullRcb.requestId
  }

  /** Seek distance from the head position to the request's cylinder. */
  function Dist(r: RCB, head: int): nat
  {
    if r.cylinder >= head then r.cylinder - head else head - r.cylinder
  }

  /** The queue with entry k taken out, the others keeping their order. */
  function Removed(q: seq<RCB>, k: nat): seq<RCB>
    requires k < |q|
  {
    q[..k] + q[k + 1..]
  }

  /** Entry j of the shortened queue is entry j or j + 1 of the old one. */
  lemma RemovedAt(q: seq<RCB>, k: nat, j: nat)
    requires k < |q| && j < |q| - 1
    ensures |Removed(q, k)| == |q| - 1
    ensures Removed(q, k)[j] == if j < k then q[j] else q[j + 1]
  {
  }

  /** Removal takes exactly one copy of the chosen entry out of the queue. */
  lemma RemovedMultiset(q: seq<RCB>, k: nat)
    requires k < |q|
    ensures multiset(Removed(q, k)) + multiset{q[k]} == multiset(q)
  {
    assert q == q[..k] + [q[k]] + q[k + 1..];
  }

  /** Every entry left after a removal sits at another index of the old queue. */
  lemma InRemoved(q: seq<RCB>, k: nat, x: RCB)
    requires k < |q| && x in Removed(q, k)
    ensures exists p :: 0 <= p < |q| && p != k && q[p] == x
  {
  }

  predicate DistinctIds(q: seq<RCB>)
  {
    forall i, j :: 0 <= i < j < |q| ==> q[i].requestId != q[j].requestId
  }

  /**
   * With distinct ids, the removed request is no longer in the queue and the
   * rest still have distinct ids.
   */
  lemma RemovedIsGone(q: seq<RCB>, k: nat)
    requires k < |q| && DistinctIds(q)
    ensures DistinctIds(Removed(q, k))
    ensures forall j :: 0 <= j < |Removed(q, k)| ==> Removed(q, k)[j].requestId != q[k].requestId
  {
  }
}
