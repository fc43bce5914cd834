/** What the fused estimate says about the room: distances, ages, one node, two nodes. */
module RoomSense {
  import opened Wrappers
  import opened RoomFusion

  // ---------------------------------------------------------------------------
  // Distances and ages
  // ---------------------------------------------------------------------------

  /** d is the distance between two points. */
  ghost predicate Distance(a: Point, b: Point, d: real) {
    d >= 0.0 && d * d == (a.x - b.x) * (a.x - b.x) + (a.y - b.y) * (a.y - b.y)
  }

  lemma SquaresOrdered(d: real, r: real)
    requires d >= 0.0 && r >= 0.0
    ensures d * d <= r * r <==> d <= r
  {
    if d <= r {
      assert r * r - d * d == (r - d) * (r + d);
    } else {
      ProductPositive(d - r, d + r);
      assert d * d - r * r == (d - r) * (d + r);
    }
  }

  lemma ProductPositive(x: real, y: real)
    requires x > 0.0 && y > 0.0
    ensures x * y > 0.0
  {
  }

  /** Near means no further away than the radius. */
  lemma NearIsDistance(a: Point, b: Point, radius: real, d: real)
    requires Distance(a, b, d) && radius >= 0.0
    ensures Near(a, b, radius) <==> d <= radius
  {
    SquaresOrdered(d, radius);
  }

  /** On a 32-bit clock, `age` milliseconds after `then` it is `now`. */
  ghost predicate Passed(written: nat, age: nat, now: nat) {
    (written + age) % 0x1_0000_0000 == now
  }

  /** On a 32-bit clock that wraps around, a slot counts if it was written at most 15 s ago. */
  lemma CountedExactly(slot: Slot, now: nat)
    requires now < 0x1_0000_0000 && slot.lastUpdatedMs < 0x1_0000_0000
    ensures Counted(slot, now) <==>
      slot.occupied && exists age: nat :: age <= 15_000 && Passed(slot.lastUpdatedMs, age, now)
  {
    var age := (now - slot.lastUpdatedMs) % 0x1_0000_0000;
    assert Passed(slot.lastUpdatedMs, age, now);
  }

  /** No closer than r. */
  ghost predicate Beyond(a: Point, b: Point, r: real) {
    (a.x - b.x) * (a.x - b.x) + (a.y - b.y) * (a.y - b.y) > r * r
  }

  lemma NearOrBeyond(a: Point, b: Point, r: real)
    ensures Near(a, b, r) <==> !Beyond(a, b, r)
  {
  }

  /** A report is placed exactly when it has a distance, points into the room or at most 80 cm
      past its walls, and more than 80 cm away from every other node. */
  lemma PlacedExactly(n: Node, poses: seq<Pose>)
    ensures FateOf(n, poses).Distanceless? <==> n.distance < 0
    ensures FateOf(n, poses).Placed? <==>
      && n.distance >= 0
      && -80.0 <= n.detection.x && n.detection.x - n.roomWidth as real <= 80.0
      && -80.0 <= n.detection.y && n.detection.y - n.roomHeight as real <= 80.0
      && forall i :: 0 <= i < |poses| && poses[i].id != n.id ==> Beyond(n.detection, poses[i].at, 80.0)
  {
    forall i | 0 <= i < |poses|
      ensures Near(n.detection, poses[i].at, GHOST_RADIUS_CM) <==> !Beyond(n.detection, poses[i].at, 80.0)
    {
      NearOrBeyond(n.detection, poses[i].at, 80.0);
    }
  }

  // ---------------------------------------------------------------------------
  // Reports
  // ---------------------------------------------------------------------------

  /** A node that sees a candidate vouches for what it counted, and for one if it counted nobody. */
  lemma Vouches(n: Node)
    ensures !n.candidate ==> Qualified(n) == 0
    ensures n.candidate && n.people > 0 ==> Qualified(n) == n.people
    ensures n.candidate && n.people == 0 ==> Qualified(n) == 1
  {
  }

  /** What a node on its own reports is what it counted. */
  lemma LoneNode(n: Node)
    ensures Estimate([n]) == if !n.candidate then 0 else if n.people == 0 then 1 else n.people
  {
    EstimateBounds([n]);
    assert [n][..0] == [];
    assert PeakPeople([n]) == Qualified(n) == People([n]);
  }

  /** However many nodes there are, the estimate is not below what any of them counted. */
  lemma {:induction false} PeakCovers(nodes: seq<Node>, i: nat)
    requires i < |nodes|
    ensures Qualified(nodes[i]) <= PeakPeople(nodes)
  {
    if i < |nodes| - 1 {
      PeakCovers(nodes[..|nodes| - 1], i);
    }
  }

  lemma NobodyOverlooked(nodes: seq<Node>, i: nat)
    requires i < |nodes| && nodes[i].candidate
    ensures nodes[i].people <= Estimate(nodes) && 1 <= Estimate(nodes)
  {
    PeakCovers(nodes, i);
    EstimateBounds(nodes);
  }

  ghost predicate Sees(n: Node) {
    n.candidate && n.people <= 1 && n.distance >= 0
  }

  lemma TwoPlaced(a: Node, b: Node, poses: seq<Pose>)
    requires Sees(a) && Sees(b)
    ensures Candidates([a, b]) == [a, b] && Extras([a, b]) == 0
    ensures People([a, b]) == 2 && PeakPeople([a, b]) == 1
    ensures PlacedPoints([a, b], poses)
         == (if FateOf(a, poses).Placed? then [a.detection] else [])
            + (if FateOf(b, poses).Placed? then [b.detection] else [])
  {
    var two, one := [a, b], [a];
    assert two[..1] == one;
    OnePlaced(a, poses);
  }

  lemma OnePlaced(a: Node, poses: seq<Pose>)
    requires Sees(a)
    ensures Candidates([a]) == [a] && Extras([a]) == 0 && People([a]) == 1 && PeakPeople([a]) == 1
    ensures PlacedPoints([a], poses) == if FateOf(a, poses).Placed? then [a.detection] else []
  {
    var one := [a];
    assert one[..0] == [];
    assert Candidates(one) == Candidates(one[..0]) + [a];
    assert Extras(one) == Extras(one[..0]) + Extra(a);
    assert People(one) == People(one[..0]) + Qualified(a);
  }

  lemma GroupsOfOne(p: Point)
    ensures Grouped([p]) == [[p]]
  {
    assert [p][..0] == [];
    assert Grouped([]) == [] && Home([], p) == 0;
    assert [] + [[p]] == [[p]];
  }

  lemma GroupsOfTwo(p: Point, q: Point)
    ensures |Grouped([p, q])| == if Near(q, p, CLUSTER_RADIUS_CM) then 1 else 2
  {
    GroupsOfOne(p);
    MeanOfOne(p);
    assert [p, q][..1] == [p];
    var groups := [[p]];
    assert Home(groups, q) == if Near(q, p, CLUSTER_RADIUS_CM) then 0 else 1 by {
      HomeIs(groups, q, if Near(q, p, CLUSTER_RADIUS_CM) then 0 else 1);
    }
  }

  /** Two nodes that each see one person: they are counted as two exactly when both reports are
      placed and the places are more than 110 cm apart. */
  lemma TwoNodes(a: Node, b: Node)
    requires Sees(a) && Sees(b)
    ensures var poses := Poses([a, b]);
      Estimate([a, b]) ==
        if FateOf(a, poses).Placed? && FateOf(b, poses).Placed? && Beyond(b.detection, a.detection, 110.0) then 2 else 1
  {
    var nodes, poses := [a, b], Poses([a, b]);
    TwoPlaced(a, b, poses);
    GroupsOfOne(a.detection);
    GroupsOfOne(b.detection);
    GroupsOfTwo(a.detection, b.detection);
    NearOrBeyond(b.detection, a.detection, 110.0);
    var points := PlacedPoints(nodes, poses);
    assert Grouped([]) == [];
  }
}
