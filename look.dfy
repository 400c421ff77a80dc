/**
 * LOOK (elevator) selection: the head's own cylinder first, then the nearest
 * request ahead in the sweep direction, then the nearest request anywhere.
 */
module Look {
  import opened Wrappers
  import opened Requests
  import opened Sstf

  /** Direction 1 sweeps toward higher cylinders; every other value toward lower. */
  predicate IsAhead(r: RCB, head: int, direction: int)
  {
    if direction == 1 then r.cylinder > head else r.cylinder < head
  }

  predicate SomeOnCylinder(q: seq<RCB>, head: int)
  {
    exists j :: 0 <= j < |q| && q[j].cylinder == head
  }

  predicate SomeAhead(q: seq<RCB>, head: int, direction: int)
  {
    exists j :: 0 <= j < |q| && IsAhead(q[j], head, direction)
  }

  /** k is the earliest-arrived entry on the head's cylinder, lowest index among ties. */
  predicate IsSameCylinderChoice(q: seq<RCB>, head: int, k: nat)
  {
    && k < |q| && q[k].cylinder == head
    && (forall j :: 0 <= j < |q| && q[j].cylinder == head ==>
          q[k].arrivalTimestamp <= q[j].arrivalTimestamp)
    && (forall j :: 0 <= j < k && q[j].cylinder == head ==>
          q[k].arrivalTimestamp < q[j].arrivalTimestamp)
  }

  /** k is the nearest entry strictly ahead of the head, lowest index among ties. */
  predicate IsAheadChoice(q: seq<RCB>, head: int, direction: int, k: nat)
  {
    && k < |q| && IsAhead(q[k], head, direction)
    && (forall j :: 0 <= j < |q| && IsAhead(q[j], head, direction) ==>
          Dist(q[k], head) <= Dist(q[j], head))
    && (forall j :: 0 <= j < k && IsAhead(q[j], head, direction) ==>
          Dist(q[k], head) < Dist(q[j], head))
  }

  /** k is the nearest entry of all, lowest index among ties (no timestamp tie-break). */
  predicate IsNearestChoice(q: seq<RCB>, head: int, k: nat)
  {
    && k < |q|
    && (forall j :: 0 <= j < |q| ==> Dist(q[k], head) <= Dist(q[j], head))
    && (forall j :: 0 <= j < k ==> Dist(q[k], head) < Dist(q[j], head))
  }

  /** The three rules of LOOK, applied in order. */
  predicate IsLookChoice(q: seq<RCB>, head: int, direction: int, k: nat)
  {
    if SomeOnCylinder(q, head) then IsSameCylinderChoice(q, head, k)
    else if SomeAhead(q, head, direction) then IsAheadChoice(q, head, direction, k)
    else IsNearestChoice(q, head, k)
  }

  /** First scan of LOOK: None when no entry is on the head's cylinder. */
  function SameCylinderIndex(q: seq<RCB>, head: int): (r: Option<nat>)
    ensures r.None? <==> !SomeOnCylinder(q, head)
    ensures r.Some? ==> IsSameCylinderChoice(q, head, r.value)
    decreases |q|
  {
    if |q| == 0 then None
    else
      var p := SameCylinderIndex(q[..|q| - 1], head);
      var last := q[|q| - 1];
      if last.cylinder == head && (p.None? || last.arrivalTimestamp < q[p.value].arrivalTimestamp)
      then Some(|q| - 1)
      else p
  }

  /** Directional scan of LOOK: None when nothing lies ahead of the head. */
  function AheadIndex(q: seq<RCB>, head: int, direction: int): (r: Option<nat>)
    ensures r.None? <==> !SomeAhead(q, head, direction)
    ensures r.Some? ==> IsAheadChoice(q, head, direction, r.value)
    decreases |q|
  {
    if |q| == 0 then None
    else
      var p := AheadIndex(q[..|q| - 1], head, direction);
      var last := q[|q| - 1];
      if IsAhead(last, head, direction) && (p.None? || Dist(last, head) < Dist(q[p.value], head))
      then Some(|q| - 1)
      else p
  }

  /** Fallback scan of LOOK: the globally nearest entry. */
  function NearestIndex(q: seq<RCB>, head: int): (k: nat)
    requires |q| > 0
    ensures IsNearestChoice(q, head, k)
    decreases |q|
  {
    if |q| == 1 then 0
    else
      var k := NearestIndex(q[..|q| - 1], head);
      if Dist(q[|q| - 1], head) < Dist(q[k], head) then |q| - 1 else k
  }

  /** The index LOOK completion serves; it always exists for a non-empty queue. */
  function LookIndex(q: seq<RCB>, head: int, direction: int): (k: nat)
    requires |q| > 0
    ensures IsLookChoice(q, head, direction, k)
  {
    match SameCylinderIndex(q, head)
    case Some(k) => k
    case None =>
      match AheadIndex(q, head, direction)
      case Some(k) => k
      case None => NearestIndex(q, head)
  }

  /** An entry on the head's cylinder is served whatever the sweep direction. */
  lemma LookSameCylinderIgnoresDirection(q: seq<RCB>, head: int, d1: int, d2: int)
    requires |q| > 0 && SomeOnCylinder(q, head)
    ensures q[LookIndex(q, head, d1)].cylinder == head
    ensures LookIndex(q, head, d1) == LookIndex(q, head, d2)
  {
  }

  /**
   * When nothing is on the head's cylinder or ahead of it, LOOK reverses: it
   * serves a request strictly behind the head, nearest of all.
   */
  lemma LookReverses(q: seq<RCB>, head: int, direction: int)
    requires |q| > 0 && !SomeOnCylinder(q, head) && !SomeAhead(q, head, direction)
    ensures var k := LookIndex(q, head, direction);
            && (if direction == 1 then q[k].cylinder < head else q[k].cylinder > head)
            && forall j :: 0 <= j < |q| ==> Dist(q[k], head) <= Dist(q[j], head)
  {
  }

  /**
   * On the head's cylinder LOOK and SSTF agree: distance 0 is the minimum
   * and both then take the earliest arrival, lowest index first.
   */
  lemma LookMatchesSstfOnHeadCylinder(q: seq<RCB>, head: int, direction: int)
    requires |q| > 0 && SomeOnCylinder(q, head)
    ensures LookIndex(q, head, direction) == SstfIndex(q, head)
  {
  }

  /** In the reversal case LOOK seeks exactly as far as SSTF would. */
  lemma LookFallbackSeeksLikeSstf(q: seq<RCB>, head: int, direction: int)
    requires |q| > 0 && !SomeOnCylinder(q, head) && !SomeAhead(q, head, direction)
    ensures Dist(q[LookIndex(q, head, direction)], head) == Dist(q[SstfIndex(q, head)], head)
  {
  }

  /**
   * Entries (cylinder 40, time 5), (40, 2), (60, 1) with the head at 40:
   * the entry at time 2 is served in either direction.
   */
  lemma LookSameCylinderExample(a: RCB, b: RCB, c: RCB, direction: int)
    requires a.cylinder == 40 && a.arrivalTimestamp == 5
    requires b.cylinder == 40 && b.arrivalTimestamp == 2
    requires c.cylinder == 60 && c.arrivalTimestamp == 1
    ensures LookIndex([a, b, c], 40, direction) == 1
  {
    var q := [a, b, c];
    assert q[0].cylinder == 40;
    var k := LookIndex(q, 40, direction);
    assert IsSameCylinderChoice(q, 40, k);
    assert k != 0 by {
      assert q[1].cylinder == 40;
    }
    assert k != 2 by {
      assert q[2].cylinder != 40;
    }
  }

  /** A lone request at cylinder 20, head at 50 sweeping upward: it is served. */
  lemma LookReversalExample(a: RCB)
    requires a.cylinder == 20
    ensures LookIndex([a], 50, 1) == 0
  {
  }
}
