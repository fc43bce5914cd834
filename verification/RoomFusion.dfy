/** Room-wide people estimate of the C++ firmware: detections of several nodes are clustered,
    ghosts of other sensors are dropped, and the rest is counted. Positions are real numbers. */
module RoomFusion {
  import opened Wrappers

  const MAX_ROOM_PEERS: nat := 8
  const FRESHNESS_MS: nat := 15000
  const GHOST_RADIUS_CM: real := 80.0
  const CLUSTER_RADIUS_CM: real := 110.0
  const ROOM_MARGIN_CM: real := 80.0

  datatype Point = Point(x: real, y: real)

  /** One node's report, with the point its detection projects to. */
  datatype Node = Node(
    id: string, candidate: bool, people: byte, activity: byte, distance: int,
    pose: Point, detection: Point, roomWidth: int, roomHeight: int)

  datatype Slot = Slot(occupied: bool, lastUpdatedMs: nat, node: Node)

  datatype Pose = Pose(id: string, at: Point)

  datatype Cluster = Cluster(centre: Point, members: nat)

  function Square(v: real): real { v * v }

  predicate Near(a: Point, b: Point, radius: real) {
    Square(a.x - b.x) + Square(a.y - b.y) <= Square(radius)
  }

  /** A slot counts while it is fresh; the clock difference is taken in 32 bits. */
  predicate Counted(slot: Slot, now: nat) {
    slot.occupied && (now - slot.lastUpdatedMs) % 0x1_0000_0000 <= FRESHNESS_MS
  }

  /** The people a node vouches for: at least one if it sees a candidate, else none. */
  function Qualified(n: Node): byte {
    if n.candidate then Max(1, n.people) else 0
  }

  // ---------------------------------------------------------------------------
  // The reference: groups of points and their exact means
  // ---------------------------------------------------------------------------

  ghost function SumX(points: seq<Point>): real {
    if points == [] then 0.0 else SumX(points[..|points| - 1]) + points[|points| - 1].x
  }

  ghost function SumY(points: seq<Point>): real {
    if points == [] then 0.0 else SumY(points[..|points| - 1]) + points[|points| - 1].y
  }

  ghost function Mean(points: seq<Point>): Point
    requires points != []
  {
    Point(SumX(points) / (|points| as real), SumY(points) / (|points| as real))
  }

  ghost predicate NoneEmpty(groups: seq<seq<Point>>) {
    forall i :: 0 <= i < |groups| ==> groups[i] != []
  }

  /** The first group whose mean is within the cluster radius, or the number of groups. */
  ghost function Home(groups: seq<seq<Point>>, p: Point): (i: nat)
    requires NoneEmpty(groups)
    ensures i <= |groups| && (i < |groups| ==> Near(p, Mean(groups[i]), CLUSTER_RADIUS_CM))
    ensures forall j :: 0 <= j < i ==> !Near(p, Mean(groups[j]), CLUSTER_RADIUS_CM)
  {
    if groups == [] || Near(p, Mean(groups[0]), CLUSTER_RADIUS_CM) then 0 else 1 + Home(groups[1..], p)
  }

  ghost function Joined(groups: seq<seq<Point>>, p: Point): (r: seq<seq<Point>>)
    requires NoneEmpty(groups)
    ensures NoneEmpty(r)
  {
    var i := Home(groups, p);
    if i < |groups| then groups[i := groups[i] + [p]] else groups + [[p]]
  }

  /** Points join the first group near enough, in order of arrival. */
  ghost function Grouped(points: seq<Point>): (groups: seq<seq<Point>>)
    ensures NoneEmpty(groups)
  {
    if points == [] then [] else Joined(Grouped(points[..|points| - 1]), points[|points| - 1])
  }

  ghost function Flat(groups: seq<seq<Point>>): multiset<Point> {
    if groups == [] then multiset{} else Flat(groups[..|groups| - 1]) + multiset(groups[|groups| - 1])
  }

  lemma {:induction false} FlatUpdate(groups: seq<seq<Point>>, i: nat, p: Point)
    requires i < |groups|
    ensures Flat(groups[i := groups[i] + [p]]) == Flat(groups) + multiset{p}
  {
    var n := |groups| - 1;
    var after := groups[i := groups[i] + [p]];
    if i == n {
      assert after[..n] == groups[..n];
    } else {
      FlatUpdate(groups[..n], i, p);
      assert after[..n] == groups[..n][i := groups[i] + [p]];
    }
  }

  /** Every placed point is in exactly one group, as often as it was placed. */
  lemma {:induction false} GroupsPartition(points: seq<Point>)
    ensures Flat(Grouped(points)) == multiset(points) && |Grouped(points)| <= |points|
  {
    if points != [] {
      var n := |points| - 1;
      GroupsPartition(points[..n]);
      var groups, p := Grouped(points[..n]), points[n];
      assert points == points[..n] + [p];
      var i := Home(groups, p);
      if i < |groups| {
        FlatUpdate(groups, i, p);
      } else {
        assert (groups + [[p]])[..|groups|] == groups;
        assert multiset([p]) == multiset{p};
      }
    }
  }

  // ---------------------------------------------------------------------------
  // The reference: what becomes of a report
  // ---------------------------------------------------------------------------

  predicate InRoom(n: Node) {
    && -ROOM_MARGIN_CM <= n.detection.x <= n.roomWidth as real + ROOM_MARGIN_CM
    && -ROOM_MARGIN_CM <= n.detection.y <= n.roomHeight as real + ROOM_MARGIN_CM
  }

  /** The detection sits on another node's sensor. */
  ghost predicate Ghost(n: Node, poses: seq<Pose>) {
    exists i :: 0 <= i < |poses| && poses[i].id != n.id && Near(n.detection, poses[i].at, GHOST_RADIUS_CM)
  }

  datatype Fate = Distanceless | Rejected | Placed

  ghost function FateOf(n: Node, poses: seq<Pose>): Fate {
    if n.distance < 0 then Distanceless
    else if !InRoom(n) || Ghost(n, poses) then Rejected
    else Placed
  }

  ghost function CountFate(reports: seq<Node>, poses: seq<Pose>, fate: Fate): nat {
    if reports == [] then 0
    else CountFate(reports[..|reports| - 1], poses, fate)
         + (if FateOf(reports[|reports| - 1], poses) == fate then 1 else 0)
  }

  ghost function PlacedPoints(reports: seq<Node>, poses: seq<Pose>): seq<Point> {
    if reports == [] then []
    else
      var before, n := PlacedPoints(reports[..|reports| - 1], poses), reports[|reports| - 1];
      if FateOf(n, poses).Placed? then before + [n.detection] else before
  }

  /** People the clusters do not show: all but the first of each report, and that one too when
      the report has no distance. */
  ghost function Extra(n: Node): nat {
    Max(Qualified(n) - 1, 0) + (if n.distance < 0 && Qualified(n) > 0 then 1 else 0)
  }

  ghost function Extras(reports: seq<Node>): nat {
    if reports == [] then 0 else Extras(reports[..|reports| - 1]) + Extra(reports[|reports| - 1])
  }

  ghost function People(nodes: seq<Node>): nat {
    if nodes == [] then 0 else People(nodes[..|nodes| - 1]) + Qualified(nodes[|nodes| - 1])
  }

  ghost function PeakPeople(nodes: seq<Node>): nat {
    if nodes == [] then 0 else Max(PeakPeople(nodes[..|nodes| - 1]), Qualified(nodes[|nodes| - 1]))
  }

  ghost function Candidates(nodes: seq<Node>): seq<Node> {
    if nodes == [] then []
    else
      var before, n := Candidates(nodes[..|nodes| - 1]), nodes[|nodes| - 1];
      if n.candidate then before + [n] else before
  }

  ghost predicate AllCandidates(reports: seq<Node>) {
    forall i :: 0 <= i < |reports| ==> reports[i].candidate
  }

  /** Every report is placed, rejected or without a distance. */
  lemma {:induction false} FatesAddUp(reports: seq<Node>, poses: seq<Pose>)
    ensures |PlacedPoints(reports, poses)| == CountFate(reports, poses, Placed)
    ensures |PlacedPoints(reports, poses)| + CountFate(reports, poses, Rejected)
            + CountFate(reports, poses, Distanceless) == |reports|
  {
    if reports != [] {
      FatesAddUp(reports[..|reports| - 1], poses);
    }
  }

  /** Nobody is lost or made up: the people reported are the clusters and the extras, plus one
      for each rejected report and for each point that joined an existing cluster. */
  lemma {:induction false} PeopleConserved(reports: seq<Node>, poses: seq<Pose>)
    requires AllCandidates(reports)
    ensures People(reports) == Extras(reports) + CountFate(reports, poses, Rejected) + |PlacedPoints(reports, poses)|
  {
    if reports != [] {
      PeopleConserved(reports[..|reports| - 1], poses);
    }
  }

  // ---------------------------------------------------------------------------
  // The cluster table
  // ---------------------------------------------------------------------------

  /** Each cluster is the exact mean of its group. */
  ghost predicate Tracks(clusters: seq<Cluster>, groups: seq<seq<Point>>) {
    && |clusters| == |groups| && NoneEmpty(groups)
    && forall i :: 0 <= i < |groups| ==> clusters[i] == Cluster(Mean(groups[i]), |groups[i]|)
  }

  /** The running mean the firmware keeps. */
  function Moved(c: Cluster, p: Point): Cluster {
    var n, more := c.members as real, (c.members + 1) as real;
    Cluster(Point((c.centre.x * n + p.x) / more, (c.centre.y * n + p.y) / more), c.members + 1)
  }

  lemma DivThenTimes(sum: real, n: real)
    requires n > 0.0
    ensures sum / n * n == sum
  {
  }

  /** Updating a mean one point at a time gives the mean of all the points. */
  lemma RunningMean(group: seq<Point>, p: Point)
    requires group != []
    ensures Moved(Cluster(Mean(group), |group|), p) == Cluster(Mean(group + [p]), |group| + 1)
  {
    var n := |group| as real;
    DivThenTimes(SumX(group), n);
    DivThenTimes(SumY(group), n);
    assert (group + [p])[..|group|] == group;
  }

  lemma TracksMoved(clusters: seq<Cluster>, groups: seq<seq<Point>>, i: nat, p: Point)
    requires Tracks(clusters, groups) && i < |groups| && i == Home(groups, p)
    ensures Tracks(clusters[i := Moved(clusters[i], p)], Joined(groups, p))
  {
    RunningMean(groups[i], p);
  }

  lemma TracksNew(clusters: seq<Cluster>, groups: seq<seq<Point>>, p: Point)
    requires Tracks(clusters, groups) && Home(groups, p) == |groups|
    ensures Tracks(clusters + [Cluster(p, 1)], Joined(groups, p))
  {
    MeanOfOne(p);
  }

  lemma MeanOfOne(p: Point)
    ensures Mean([p]) == p
  {
    var one := [p];
    assert one[..|one| - 1] == [];
    assert SumX(one) == p.x;
    assert SumY(one) == SumY(one[..|one| - 1]) + p.y == p.y;
    DivThenTimes(p.x, 1.0);
    DivThenTimes(p.y, 1.0);
  }

  lemma HomeIs(groups: seq<seq<Point>>, p: Point, i: nat)
    requires NoneEmpty(groups) && i <= |groups|
    requires forall j :: 0 <= j < i ==> !Near(p, Mean(groups[j]), CLUSTER_RADIUS_CM)
    requires i < |groups| ==> Near(p, Mean(groups[i]), CLUSTER_RADIUS_CM)
    ensures Home(groups, p) == i
  {
  }

  class ClusterTable {
    const clusters: array<Cluster>
    var clusterCount: nat
    var unresolved: byte

    ghost predicate Valid()
      reads this
    {
      clusters.Length == MAX_ROOM_PEERS + 1 && clusterCount <= clusters.Length
    }

    /** The table holds exactly the groups of the points placed so far. */
    ghost predicate Shows(points: seq<Point>)
      reads this, clusters
    {
      Valid() && Tracks(clusters[..clusterCount], Grouped(points))
    }

    constructor ()
      ensures Valid() && fresh(clusters) && Shows([]) && unresolved == 0
    {
      clusters := new Cluster[MAX_ROOM_PEERS + 1];
      clusterCount := 0;
      unresolved := 0;
    }

    method FindCluster(p: Point, ghost groups: seq<seq<Point>>) returns (i: nat)
      requires Valid() && Tracks(clusters[..clusterCount], groups)
      ensures i == Home(groups, p)
    {
      i := 0;
      while i < clusterCount
        invariant i <= clusterCount
        invariant forall j :: 0 <= j < i ==> !Near(p, Mean(groups[j]), CLUSTER_RADIUS_CM)
      {
        assert clusters[..clusterCount][i] == clusters[i];
        if Near(p, clusters[i].centre, CLUSTER_RADIUS_CM) {
          HomeIs(groups, p, i);
          return;
        }
        i := i + 1;
      }
      HomeIs(groups, p, i);
    }

    /** There is always room: a table with as many places as nodes never fills. */
    method Place(p: Point, ghost points: seq<Point>)
      requires Shows(points) && |points| <= MAX_ROOM_PEERS
      modifies this`clusterCount, clusters
      ensures Shows(points + [p])
    {
      ghost var groups, before := Grouped(points), clusters[..clusterCount];
      GroupsPartition(points);
      assert (points + [p])[..|points|] == points;
      var i := FindCluster(p, groups);
      if i < clusterCount {
        TracksMoved(before, groups, i, p);
        clusters[i] := Moved(clusters[i], p);
        assert clusters[..clusterCount] == before[i := Moved(before[i], p)];
      } else {
        TracksNew(before, groups, p);
        clusters[clusterCount] := Cluster(p, 1);
        clusterCount := clusterCount + 1;
        assert clusters[..clusterCount] == before + [Cluster(p, 1)];
      }
    }

    method AddUnresolved(people: nat)
      modifies this`unresolved
      ensures unresolved == Min(255, old(unresolved) + people)
    {
      unresolved := Min(255, unresolved + people);
    }

    method AddDetection(n: Node, poses: array<Pose>, poseCount: nat, ghost reports: seq<Node>)
      requires poseCount <= poses.Length && |reports| <= MAX_ROOM_PEERS && n.candidate
      requires Shows(PlacedPoints(reports, poses[..poseCount])) && unresolved == Min(255, Extras(reports))
      modifies this, clusters
      ensures Shows(PlacedPoints(reports + [n], poses[..poseCount]))
      ensures unresolved == Min(255, Extras(reports + [n]))
    {
      ghost var points := PlacedPoints(reports, poses[..poseCount]);
      assert (reports + [n])[..|reports|] == reports;
      FatesAddUp(reports, poses[..poseCount]);
      if Qualified(n) > 1 {
        AddUnresolved(Qualified(n) - 1);
      }
      if n.distance < 0 {
        AddUnresolved(1);
        return;
      }
      var ghostly := IsGhost(n, poses, poseCount);
      if InRoom(n) && !ghostly {
        Place(n.detection, points);
      }
    }
  }

  method IsGhost(n: Node, poses: array<Pose>, poseCount: nat) returns (found: bool)
    requires poseCount <= poses.Length
    ensures found <==> Ghost(n, poses[..poseCount])
  {
    for i := 0 to poseCount
      invariant !Ghost(n, poses[..i])
    {
      if poses[i].id != n.id && Near(n.detection, poses[i].at, GHOST_RADIUS_CM) {
        assert poses[..poseCount][i] == poses[i];
        return true;
      }
    }
    return false;
  }

  // ---------------------------------------------------------------------------
  // The estimate
  // ---------------------------------------------------------------------------

  datatype RoomMetrics = RoomMetrics(people: byte, activeNodes: nat, peerNodes: nat, activity: byte)

  /** The counters that are kept node by node. */
  datatype Tally = Tally(peak: byte, total: byte, activity: nat)

  function Tallied(t: Tally, n: Node): Tally {
    var people := Qualified(n);
    Tally(Max(t.peak, people), Min(255, (t.total as int) + people), t.activity + n.activity)
  }

  ghost function TallyOf(nodes: seq<Node>): Tally {
    if nodes == [] then Tally(0, 0, 0) else Tallied(TallyOf(nodes[..|nodes| - 1]), nodes[|nodes| - 1])
  }

  /** The nodes whose word counts: this one, then every fresh peer in table order. */
  ghost function Voices(local: Node, slots: seq<Slot>, now: nat): seq<Node> {
    if slots == [] then [local]
    else
      var before, slot := Voices(local, slots[..|slots| - 1], now), slots[|slots| - 1];
      if Counted(slot, now) then before + [slot.node] else before
  }

  ghost predicate SomeCandidate(nodes: seq<Node>) {
    exists i :: 0 <= i < |nodes| && nodes[i].candidate
  }

  lemma {:induction false} VoicesBound(local: Node, slots: seq<Slot>, now: nat)
    ensures 1 <= |Voices(local, slots, now)| <= |slots| + 1
  {
    if slots != [] {
      VoicesBound(local, slots[..|slots| - 1], now);
    }
  }

  lemma {:induction false} CandidatesMeaning(nodes: seq<Node>)
    ensures AllCandidates(Candidates(nodes)) && |Candidates(nodes)| <= |nodes|
    ensures People(Candidates(nodes)) == People(nodes)
  {
    if nodes != [] {
      var before, n := nodes[..|nodes| - 1], nodes[|nodes| - 1];
      CandidatesMeaning(before);
      assert (Candidates(before) + [n])[..|Candidates(before)|] == Candidates(before);
    }
  }

  ghost function Activities(nodes: seq<Node>): nat {
    if nodes == [] then 0 else Activities(nodes[..|nodes| - 1]) + nodes[|nodes| - 1].activity
  }

  /** The peak lies below the total, and both are positive exactly when somebody sees a candidate. */
  lemma {:induction false} TallyMeaning(nodes: seq<Node>)
    ensures TallyOf(nodes).peak == PeakPeople(nodes) && TallyOf(nodes).total == Min(255, People(nodes))
    ensures TallyOf(nodes).activity == Activities(nodes)
    ensures PeakPeople(nodes) <= Min(255, People(nodes))
    ensures PeakPeople(nodes) > 0 <==> SomeCandidate(nodes)
    ensures People(nodes) > 0 <==> SomeCandidate(nodes)
  {
    if nodes != [] {
      var before := nodes[..|nodes| - 1];
      TallyMeaning(before);
      assert forall i :: 0 <= i < |before| ==> nodes[i] == before[i];
      if nodes[|nodes| - 1].candidate {
        assert SomeCandidate(nodes);
      } else if SomeCandidate(nodes) {
        var i :| 0 <= i < |nodes| && nodes[i].candidate;
        assert before[i].candidate;
      }
    }
  }

  ghost function Poses(nodes: seq<Node>): seq<Pose> {
    seq(|nodes|, i requires 0 <= i < |nodes| => Pose(nodes[i].id, nodes[i].pose))
  }

  method CollectPoses(local: Node, slots: array<Slot>, now: nat) returns (poses: array<Pose>, count: nat)
    requires slots.Length == MAX_ROOM_PEERS
    ensures fresh(poses) && count <= poses.Length && poses[..count] == Poses(Voices(local, slots[..], now))
  {
    poses := new Pose[MAX_ROOM_PEERS + 1];
    poses[0] := Pose(local.id, local.pose);
    count := 1;
    for i := 0 to MAX_ROOM_PEERS
      invariant count <= i + 1
      invariant poses[..count] == Poses(Voices(local, slots[..i], now))
    {
      ghost var voices := Voices(local, slots[..i], now);
      assert slots[..i + 1][..i] == slots[..i];
      if Counted(slots[i], now) {
        ghost var before := poses[..count];
        poses[count] := Pose(slots[i].node.id, slots[i].node.pose);
        count := count + 1;
        assert poses[..count] == before + [Pose(slots[i].node.id, slots[i].node.pose)];
        assert Poses(voices + [slots[i].node]) == Poses(voices) + [Pose(slots[i].node.id, slots[i].node.pose)];
      }
    }
    assert slots[..MAX_ROOM_PEERS] == slots[..];
  }

  /** The clusters and extras of the reports, as far as a byte can say. */
  ghost function Fused(reports: seq<Node>, poses: seq<Pose>): nat {
    Min(255, |Grouped(PlacedPoints(reports, poses))| + Extras(reports))
  }

  /** The estimate for the nodes heard. */
  ghost function Estimate(nodes: seq<Node>): int {
    Min(Max(PeakPeople(nodes), Fused(Candidates(nodes), Poses(nodes))), Min(255, People(nodes)))
  }

  ghost predicate TableShows(table: ClusterTable, nodes: seq<Node>, poses: seq<Pose>)
    reads table, table.clusters
  {
    && table.Shows(PlacedPoints(Candidates(nodes), poses))
    && table.unresolved == Min(255, Extras(Candidates(nodes)))
  }

  method HearNode(table: ClusterTable, n: Node, poses: array<Pose>, poseCount: nat, active: nat, ghost nodes: seq<Node>)
    returns (nowActive: nat)
    requires poseCount <= poses.Length && |nodes| <= MAX_ROOM_PEERS && active == |Candidates(nodes)|
    requires TableShows(table, nodes, poses[..poseCount])
    modifies table, table.clusters
    ensures TableShows(table, nodes + [n], poses[..poseCount]) && nowActive == |Candidates(nodes + [n])|
  {
    assert (nodes + [n])[..|nodes|] == nodes;
    CandidatesMeaning(nodes);
    nowActive := active;
    if n.candidate {
      table.AddDetection(n, poses, poseCount, Candidates(nodes));
      nowActive := active + 1;
    }
  }

  lemma NextVoice(local: Node, slots: seq<Slot>, i: nat, now: nat)
    requires i < |slots|
    ensures Voices(local, slots[..i + 1], now)
         == if Counted(slots[i], now) then Voices(local, slots[..i], now) + [slots[i].node]
            else Voices(local, slots[..i], now)
    ensures |Voices(local, slots[..i], now)| <= i + 1
  {
    assert slots[..i + 1][..i] == slots[..i];
    VoicesBound(local, slots[..i], now);
  }

  lemma TallyNext(nodes: seq<Node>, n: Node)
    ensures TallyOf(nodes + [n]) == Tallied(TallyOf(nodes), n)
  {
    assert (nodes + [n])[..|nodes|] == nodes;
  }

  /** Everything kept while listening agrees with the nodes heard so far. */
  ghost predicate Heeds(table: ClusterTable, tally: Tally, active: nat, peerNodes: nat, nodes: seq<Node>, poses: seq<Pose>)
    reads table, table.clusters
  {
    && TableShows(table, nodes, poses) && tally == TallyOf(nodes)
    && active == |Candidates(nodes)| && peerNodes + 1 == |nodes|
  }

  method ListenToPeers(table: ClusterTable, local: Node, slots: array<Slot>, now: nat, poses: array<Pose>,
                       poseCount: nat, first: Tally, firstActive: nat)
    returns (tally: Tally, active: nat, peerNodes: nat)
    requires slots.Length == MAX_ROOM_PEERS && poseCount <= poses.Length
    requires Heeds(table, first, firstActive, 0, [local], poses[..poseCount])
    modifies table, table.clusters
    ensures Heeds(table, tally, active, peerNodes, Voices(local, slots[..], now), poses[..poseCount])
  {
    tally, active, peerNodes := first, firstActive, 0;
    for i := 0 to MAX_ROOM_PEERS
      invariant Heeds(table, tally, active, peerNodes, Voices(local, slots[..i], now), poses[..poseCount])
    {
      ghost var voices := Voices(local, slots[..i], now);
      NextVoice(local, slots[..], i, now);
      assert slots[..][..i] == slots[..i] && slots[..][..i + 1] == slots[..i + 1];
      if Counted(slots[i], now) {
        TallyNext(voices, slots[i].node);
        peerNodes := peerNodes + 1;
        tally := Tallied(tally, slots[i].node);
        active := HearNode(table, slots[i].node, poses, poseCount, active, voices);
      }
    }
    assert slots[..MAX_ROOM_PEERS] == slots[..];
  }

  method BuildRoomMetrics(local: Node, slots: array<Slot>, now: nat) returns (m: RoomMetrics)
    requires slots.Length == MAX_ROOM_PEERS
    ensures m.people == Estimate(Voices(local, slots[..], now))
    ensures m.activeNodes == |Candidates(Voices(local, slots[..], now))|
    ensures m.peerNodes == |Voices(local, slots[..], now)| - 1
    ensures m.activity == Min(100, Activities(Voices(local, slots[..], now)))
  {
    var poses, poseCount := CollectPoses(local, slots, now);
    var table := new ClusterTable();
    TallyNext([], local);
    assert [] + [local] == [local];
    var active := HearNode(table, local, poses, poseCount, 0, []);
    var tally, peerNodes;
    tally, active, peerNodes :=
      ListenToPeers(table, local, slots, now, poses, poseCount, Tallied(Tally(0, 0, 0), local), active);
    ghost var voices := Voices(local, slots[..], now);
    TallyMeaning(voices);
    var fused: byte := Min(255, table.clusterCount + table.unresolved);
    assert fused == Fused(Candidates(voices), Poses(voices));
    m := RoomMetrics(Min(Max(tally.peak, fused), tally.total), active, peerNodes, Min(100, tally.activity));
  }

  /** The estimate is between the largest single report and what all reports add up to, and
      somebody is in the room exactly when a node that counts sees a candidate. */
  lemma EstimateBounds(nodes: seq<Node>)
    ensures PeakPeople(nodes) <= Estimate(nodes) <= Min(255, People(nodes))
    ensures Estimate(nodes) > 0 <==> SomeCandidate(nodes)
  {
    TallyMeaning(nodes);
  }

  /** Clusters and extras never exceed the people reported, and reach them exactly when no report
      was rejected and every placed point has a cluster to itself. */
  lemma FusionAccount(nodes: seq<Node>, poses: seq<Pose>)
    requires poses == Poses(nodes)
    ensures |Grouped(PlacedPoints(Candidates(nodes), poses))| + Extras(Candidates(nodes)) <= People(nodes)
    ensures |Grouped(PlacedPoints(Candidates(nodes), poses))| + Extras(Candidates(nodes)) == People(nodes)
       <==> CountFate(Candidates(nodes), poses, Rejected) == 0
            && |Grouped(PlacedPoints(Candidates(nodes), poses))| == |PlacedPoints(Candidates(nodes), poses)|
  {
    CandidatesMeaning(nodes);
    PeopleConserved(Candidates(nodes), poses);
    GroupsPartition(PlacedPoints(Candidates(nodes), poses));
  }
}
