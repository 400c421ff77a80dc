/** Shortest-seek-time-first selection, ties broken by earlier arrival. */
module Sstf {
  import opened Requests

  /**
   * The replacement test of the SSTF scan: a is strictly closer to the head
   * than b, or as close and strictly older.
   */
  predicate Preferred(a: RCB, b: RCB, head: int)
  {
    || Dist(a, head) < Dist(b, head)
    || (Dist(a, head) == Dist(b, head) && a.arrivalTimestamp < b.arrivalTimestamp)
  }

  /**
   * k minimises the seek distance; among entries at that distance it has the
   * smallest timestamp; among entries tied on both it is the lowest index.
   */
  predicate IsSstfChoice(q: seq<RCB>, head: int, k: nat)
  {
    && k < |q|
    && (forall j :: 0 <= j < |q| ==> Dist(q[k], head) <= Dist(q[j], head))
    && (forall j :: 0 <= j < |q| && Dist(q[j], head) == Dist(q[k], head) ==>
          q[k].arrivalTimestamp <= q[j].arrivalTimestamp)
    && (forall j :: 0 <= j < k ==>
          Dist(q[j], head) != Dist(q[k], head) || q[j].arrivalTimestamp != q[k].arrivalTimestamp)
  }

  /**
   * The index the SSTF completion scan settles on, with the first entry
   * taken as the initial candidate.
   */
  function SstfIndex(q: seq<RCB>, head: int): (k: nat)
    requires |q| > 0
    ensures IsSstfChoice(q, head, k)
    decreases |q|
  {
    if |q| == 1 then 0
    else
      var k := SstfIndex(q[..|q| - 1], head);
      if Preferred(q[|q| - 1], q[k], head) then |q| - 1 else k
  }

  /** The choice is determined by the queue and the head: it is exactly SstfIndex. */
  lemma SstfChoiceIsIndex(q: seq<RCB>, head: int, k: nat)
    requires |q| > 0
    ensures IsSstfChoice(q, head, k) <==> k == SstfIndex(q, head)
  {
  }

  /** No queued entry is preferred to the one SSTF picks. */
  lemma SstfNothingPreferred(q: seq<RCB>, head: int)
    requires |q| > 0
    ensures forall j :: 0 <= j < |q| ==> !Preferred(q[j], q[SstfIndex(q, head)], head)
  {
  }

  /** Cylinders 10, 50 and 90 with the head at 40: the request at 50 is served. */
  lemma SstfNearestWins(a: RCB, b: RCB, c: RCB)
    requires a.cylinder == 10 && b.cylinder == 50 && c.cylinder == 90
    ensures SstfIndex([a, b, c], 40) == 1
  {
  }

  /** Cylinders 30 and 50 with the head at 40 tie; the earlier arrival is served. */
  lemma SstfTieGoesToEarlier(a: RCB, b: RCB)
    requires a.cylinder == 30 && b.cylinder == 50
    requires a.arrivalTimestamp != b.arrivalTimestamp
    ensures SstfIndex([a, b], 40) == if a.arrivalTimestamp < b.arrivalTimestamp then 0 else 1
  {
  }
}
