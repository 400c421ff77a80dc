/**
 * The request queue and the arrival and completion handlers of the three
 * policies. The queue is a fixed array whose length is the capacity
 * (QUEUEMAX) and a count of valid entries at its front; every handler
 * changes both in place.
 */
module Disk {
  import opened Wrappers
  import opened Requests
  import opened Fcfs
  import opened Sstf
  import opened Look

  class RequestQueue {
    const queue: array<RCB>
    var count: nat

    ghost predicate Valid()
      reads this
    {
      count <= queue.Length
    }

    /** The pending requests, in array order. */
    ghost function Contents(): seq<RCB>
      reads this, queue
      requires Valid()
    {
      queue[..count]
    }

    constructor (capacity: nat)
      ensures Valid() && fresh(queue)
      ensures queue.Length == capacity && count == 0 && Contents() == []
    {
      queue := new RCB[capacity](_ => NullRcb);
      count := 0;
    }

    /**
     * What an arrival does: an idle disk takes the new request and the queue
     * is untouched; a busy disk keeps its request and the new one is
     * appended if there is room, else dropped.
     */
    twostate predicate Arrived(current: RCB, newRequest: RCB, r: RCB)
      reads this, queue
    {
      && old(count) <= queue.Length
      && (IsIdle(current) ==>
            r == newRequest && count == old(count) && queue[..] == old(queue[..]))
      && (!IsIdle(current) ==> r == current)
      && (!IsIdle(current) && old(count) < queue.Length ==>
            && count == old(count) + 1
            && queue[..] == old(queue[..])[old(count) := newRequest]
            && queue[..count] == old(queue[..count]) + [newRequest])
      && (!IsIdle(current) && old(count) == queue.Length ==>
            count == old(count) && queue[..] == old(queue[..]))
    }

    /**
     * What a completion that serves entry k does: k is returned, the later
     * entries move one place left, the count drops by one. The slot beyond
     * the new count keeps its old value, as the shift never clears it.
     */
    twostate predicate CompletedWith(k: nat, r: RCB)
      reads this, queue
    {
      && k < old(count) <= queue.Length
      && r == old(queue[k])
      && count == old(count) - 1
      && queue[..count] == Removed(old(queue[..count]), k)
      && (forall j :: 0 <= j < k ==> queue[j] == old(queue[j]))
      && (forall j :: k <= j < count ==> queue[j] == old(queue[j + 1]))
      && (forall j :: count <= j < queue.Length ==> queue[j] == old(queue[j]))
    }

    /** The arrival logic shared, line for line, by the three policies. */
    method Arrive(current: RCB, newRequest: RCB) returns (r: RCB)
      requires Valid()
      modifies this, queue
      ensures Valid() && Arrived(current, newRequest, r)
    {
      if IsIdle(current) {
        return newRequest;
      }
      if count < queue.Length {
        queue[count] := newRequest;
        count := count + 1;
      }
      r := current;
    }

    method HandleArrivalFcfs(current: RCB, newRequest: RCB) returns (r: RCB)
      requires Valid()
      modifies this, queue
      ensures Valid() && Arrived(current, newRequest, r)
    {
      r := Arrive(current, newRequest);
    }

    method HandleArrivalSstf(current: RCB, newRequest: RCB) returns (r: RCB)
      requires Valid()
      modifies this, queue
      ensures Valid() && Arrived(current, newRequest, r)
    {
      r := Arrive(current, newRequest);
    }

    method HandleArrivalLook(current: RCB, newRequest: RCB) returns (r: RCB)
      requires Valid()
      modifies this, queue
      ensures Valid() && Arrived(current, newRequest, r)
    {
      r := Arrive(current, newRequest);
    }

    /** The shift-left removal loop shared by the three completion handlers. */
    method RemoveAt(k: nat) returns (r: RCB)
      requires Valid() && k < count
      modifies this, queue
      ensures Valid() && CompletedWith(k, r)
    {
      r := queue[k];
      var i := k;
      while i < count - 1
        invariant k <= i <= count - 1
        invariant count == old(count)
        invariant forall j :: 0 <= j < k ==> queue[j] == old(queue[j])
        invariant forall j :: k <= j < i ==> queue[j] == old(queue[j + 1])
        invariant forall j :: i <= j < queue.Length ==> queue[j] == old(queue[j])
      {
        queue[i] := queue[i + 1];
        i := i + 1;
      }
      count := count - 1;
      ghost var before := old(queue[..count]);
      assert |queue[..count]| == |Removed(before, k)|;
      forall j | 0 <= j < count
        ensures queue[..count][j] == Removed(before, k)[j]
      {
        RemovedAt(before, k, j);
      }
    }

    /** The FCFS scan: the earliest arrival, first found on ties. */
    method SelectFcfs() returns (k: nat)
      requires Valid() && 0 < count
      ensures k == FcfsIndex(Contents())
    {
      k := 0;
      var i := 1;
      while i < count
        invariant 1 <= i <= count
        invariant k == FcfsIndex(queue[..i])
      {
        assert queue[..i + 1][..i] == queue[..i];
        if queue[i].arrivalTimestamp < queue[k].arrivalTimestamp {
          k := i;
        }
        i := i + 1;
      }
    }

    method HandleCompletionFcfs() returns (r: RCB)
      requires Valid()
      modifies this, queue
      ensures Valid()
      ensures old(count) == 0 ==> r == NullRcb && count == 0 && unchanged(queue)
      ensures old(count) > 0 ==> CompletedWith(FcfsIndex(old(Contents())), r)
    {
      if count == 0 {
        return NullRcb;
      }
      var k := SelectFcfs();
      r := RemoveAt(k);
    }

    /**
     * The SSTF scan, with the first entry as the initial candidate: nearest
     * to the head, then earliest arrival, then first found.
     */
    method SelectSstf(head: int) returns (k: nat)
      requires Valid() && 0 < count
      ensures k == SstfIndex(Contents(), head)
    {
      k := 0;
      var minDistance := Dist(queue[0], head);
      var i := 1;
      while i < count
        invariant 1 <= i <= count
        invariant k == SstfIndex(queue[..i], head)
        invariant minDistance == Dist(queue[k], head)
      {
        assert queue[..i + 1][..i] == queue[..i];
        var distance := Dist(queue[i], head);
        if distance < minDistance
           || (distance == minDistance && queue[i].arrivalTimestamp < queue[k].arrivalTimestamp)
        {
          minDistance := distance;
          k := i;
        }
        i := i + 1;
      }
    }

    method HandleCompletionSstf(head: int) returns (r: RCB)
      requires Valid()
      modifies this, queue
      ensures Valid()
      ensures old(count) == 0 ==> r == NullRcb && count == 0 && unchanged(queue)
      ensures old(count) > 0 ==> CompletedWith(SstfIndex(old(Contents()), head), r)
    {
      if count == 0 {
        return NullRcb;
      }
      var k := SelectSstf(head);
      r := RemoveAt(k);
    }

    /** LOOK's first scan: the earliest arrival on the head's cylinder, if any. */
    method ScanSameCylinder(head: int) returns (found: Option<nat>)
      requires Valid()
      ensures found == SameCylinderIndex(Contents(), head)
    {
      found := None;
      var i := 0;
      while i < count
        invariant 0 <= i <= count
        invariant found == SameCylinderIndex(queue[..i], head)
      {
        assert queue[..i + 1][..i] == queue[..i];
        if queue[i].cylinder == head
           && (found.None? || queue[i].arrivalTimestamp < queue[found.value].arrivalTimestamp)
        {
          found := Some(i);
        }
        i := i + 1;
      }
    }

    /** LOOK's directional scan: the nearest entry strictly ahead, if any. */
    method ScanAhead(head: int, direction: int) returns (found: Option<nat>)
      requires Valid()
      ensures found == AheadIndex(Contents(), head, direction)
    {
      found := None;
      var closest := 0;
      var i := 0;
      while i < count
        invariant 0 <= i <= count
        invariant found == AheadIndex(queue[..i], head, direction)
        invariant found.Some? ==> closest == Dist(queue[found.value], head)
      {
        assert queue[..i + 1][..i] == queue[..i];
        if IsAhead(queue[i], head, direction) {
          var distance := if direction == 1 then queue[i].cylinder - head
                          else head - queue[i].cylinder;
          if found.None? || distance < closest {
            closest := distance;
            found := Some(i);
          }
        }
        i := i + 1;
      }
    }

    /** LOOK's fallback scan: the nearest entry of all, first found on ties. */
    method ScanNearest(head: int) returns (k: nat)
      requires Valid() && 0 < count
      ensures k == NearestIndex(Contents(), head)
    {
      k := 0;
      var closest := Dist(queue[0], head);
      var i := 1;
      while i < count
        invariant 1 <= i <= count
        invariant k == NearestIndex(queue[..i], head)
        invariant closest == Dist(queue[k], head)
      {
        assert queue[..i + 1][..i] == queue[..i];
        var distance := Dist(queue[i], head);
        if distance < closest {
          closest := distance;
          k := i;
        }
        i := i + 1;
      }
    }

    /** The three LOOK scans in order; the fallback always resolves an index. */
    method SelectLook(head: int, direction: int) returns (k: nat)
      requires Valid() && 0 < count
      ensures k == LookIndex(Contents(), head, direction)
    {
      var same := ScanSameCylinder(head);
      if same.Some? {
        return same.value;
      }
      var ahead := ScanAhead(head, direction);
      if ahead.Some? {
        return ahead.value;
      }
      k := ScanNearest(head);
    }

    method HandleCompletionLook(head: int, direction: int) returns (r: RCB)
      requires Valid()
      modifies this, queue
      ensures Valid()
      ensures old(count) == 0 ==> r == NullRcb && count == 0 && unchanged(queue)
      ensures old(count) > 0 ==> CompletedWith(LookIndex(old(Contents()), head, direction), r)
    {
      if count == 0 {
        return NullRcb;
      }
      var k := SelectLook(head, direction);
      r := RemoveAt(k);
    }
  }

  /**
   * A busy disk with a queue of capacity 2: the third arrival is dropped and
   * the queue holds the first two in arrival order.
   */
  method DropsWhenFull(current: RCB, a: RCB, b: RCB, c: RCB) returns (served: RCB, pending: seq<RCB>)
    requires !IsIdle(current)
    ensures served == current && pending == [a, b]
  {
    var q := new RequestQueue(2);
    served := q.HandleArrivalFcfs(current, a);
    served := q.HandleArrivalFcfs(current, b);
    served := q.HandleArrivalFcfs(current, c);
    pending := q.queue[..q.count];
  }

  /**
   * Two requests queued behind a busy disk come out of FCFS completions
   * earliest arrival first, and then the queue reports empty.
   */
  method ServesEarlierArrivalFirst(current: RCB, a: RCB, b: RCB)
    returns (first: RCB, second: RCB, third: RCB)
    requires !IsIdle(current) && b.arrivalTimestamp < a.arrivalTimestamp
    ensures first == b && second == a && third == NullRcb
  {
    var q := new RequestQueue(4);
    var r := q.HandleArrivalFcfs(current, a);
    r := q.HandleArrivalFcfs(current, b);
    first := q.HandleCompletionFcfs();
    second := q.HandleCompletionFcfs();
    third := q.HandleCompletionFcfs();
  }
}
