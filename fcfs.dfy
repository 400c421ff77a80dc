/** First-come-first-served selection: the earliest arrival, first found wins. */
module Fcfs {
  import opened Requests

  /**
   * k is the entry with the smallest arrival timestamp; among equal
   * timestamps it is the lowest index (the scan replaces only on `<`).
   */
  predicate IsFcfsChoice(q: seq<RCB>, k: nat)
  {
    && k < |q|
    && (forall j :: 0 <= j < |q| ==> q[k].arrivalTimestamp <= q[j].arrivalTimestamp)
    && (forall j :: 0 <= j < k ==> q[k].arrivalTimestamp < q[j].arrivalTimestamp)
  }

  /** The index the FCFS completion scan settles on after reading all of q. */
  function FcfsIndex(q: seq<RCB>): (k: nat)
    requires |q| > 0
    ensures IsFcfsChoice(q, k)
    decreases |q|
  {
    if |q| == 1 then 0
    else
      var k := FcfsIndex(q[..|q| - 1]);
      if q[|q| - 1].arrivalTimestamp < q[k].arrivalTimestamp then |q| - 1 else k
  }

  /** The choice is determined by the queue: it is exactly FcfsIndex. */
  lemma FcfsChoiceIsIndex(q: seq<RCB>, k: nat)
    requires |q| > 0
    ensures IsFcfsChoice(q, k) <==> k == FcfsIndex(q)
  {
  }

  /** The order in which repeated FCFS completions hand out the queue. */
  function FcfsServiceOrder(q: seq<RCB>): seq<RCB>
    decreases |q|
  {
    if |q| == 0 then []
    else
      var k := FcfsIndex(q);
      [q[k]] + FcfsServiceOrder(Removed(q, k))
  }

  predicate DistinctTimestamps(q: seq<RCB>)
  {
    forall i, j :: 0 <= i < j < |q| ==> q[i].arrivalTimestamp != q[j].arrivalTimestamp
  }

  /** Draining the queue by FCFS completions serves each queued request once. */
  lemma {:induction false} FcfsServiceOrderIsPermutation(q: seq<RCB>)
    ensures multiset(FcfsServiceOrder(q)) == multiset(q)
    decreases |q|
  {
    if |q| > 0 {
      var k := FcfsIndex(q);
      FcfsServiceOrderIsPermutation(Removed(q, k));
      RemovedMultiset(q, k);
    }
  }

  lemma RemovedKeepsDistinctTimestamps(q: seq<RCB>, k: nat)
    requires k < |q| && DistinctTimestamps(q)
    ensures DistinctTimestamps(Removed(q, k))
  {
  }

  /** Timestamps never decrease along s (strictly increase when `strict`). */
  predicate InArrivalOrder(s: seq<RCB>, strict: bool)
  {
    forall i, j :: 0 <= i < j < |s| ==>
      if strict then s[i].arrivalTimestamp < s[j].arrivalTimestamp
      else s[i].arrivalTimestamp <= s[j].arrivalTimestamp
  }

  lemma PrependInArrivalOrder(h: RCB, tail: seq<RCB>, strict: bool)
    requires InArrivalOrder(tail, strict)
    requires forall j :: 0 <= j < |tail| ==>
               if strict then h.arrivalTimestamp < tail[j].arrivalTimestamp
               else h.arrivalTimestamp <= tail[j].arrivalTimestamp
    ensures InArrivalOrder([h] + tail, strict)
  {
  }

  /**
   * Draining the queue by FCFS completions serves it in non-decreasing
   * timestamp order, and in strictly increasing order when the timestamps
   * are distinct.
   */
  lemma {:induction false} FcfsServesInArrivalOrder(q: seq<RCB>)
    ensures InArrivalOrder(FcfsServiceOrder(q), false)
    ensures DistinctTimestamps(q) ==> InArrivalOrder(FcfsServiceOrder(q), true)
    decreases |q|
  {
    if |q| > 0 {
      var k := FcfsIndex(q);
      var rest := Removed(q, k);
      var tail := FcfsServiceOrder(rest);
      assert FcfsServiceOrder(q) == [q[k]] + tail;
      var strict := DistinctTimestamps(q);
      if strict {
        RemovedKeepsDistinctTimestamps(q, k);
      }
      FcfsServesInArrivalOrder(rest);
      FcfsServiceOrderIsPermutation(rest);
      forall j | 0 <= j < |tail|
        ensures q[k].arrivalTimestamp <= tail[j].arrivalTimestamp
        ensures strict ==> q[k].arrivalTimestamp < tail[j].arrivalTimestamp
      {
        assert tail[j] in multiset(tail);
        InRemoved(q, k, tail[j]);
      }
      PrependInArrivalOrder(q[k], tail, false);
      if strict {
        PrependInArrivalOrder(q[k], tail, true);
      }
    }
  }
}
