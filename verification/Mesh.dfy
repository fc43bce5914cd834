/** A mesh of nodes that sync their firmware to the highest peer release they see. */
module Mesh {
  import opened Wrappers
  import opened Versions
  import opened Peers

  /** A node as far as syncing goes: its build target and the release it runs. */
  datatype Node = Node(target: string, release: Rank)

  ghost predicate Sees(mesh: seq<Node>, i: nat, visible: set<nat>, j: nat)
    requires i < |mesh|
  {
    j in visible && j < |mesh| && j != i && mesh[j].target == mesh[i].target && mesh[j].release != NoRelease
  }

  /** j is one of the greatest releases that node i sees among its own build target. */
  ghost predicate Best(mesh: seq<Node>, i: nat, visible: set<nat>, j: nat) {
    && i < |mesh| && Sees(mesh, i, visible, j)
    && forall k: nat :: Sees(mesh, i, visible, k) ==> !Below(mesh[j].release, mesh[k].release)
  }

  /** Node i runs firmware_sync, with some set of peers visible to it: it installs the best
      release it sees if that is above its own, and the image it gets is that release. */
  ghost predicate Sync(before: seq<Node>, after: seq<Node>, i: nat, visible: set<nat>, j: nat) {
    && Best(before, i, visible, j)
    && Below(before[i].release, before[j].release)
    && after == before[i := before[i].(release := before[j].release)]
  }

  ghost predicate Step(before: seq<Node>, after: seq<Node>) {
    exists i: nat, visible, j: nat :: Sync(before, after, i, visible, j)
  }

  ghost predicate Run(states: seq<seq<Node>>) {
    states != [] && forall t :: 0 <= t < |states| - 1 ==> Step(states[t], states[t + 1])
  }

  // ---------------------------------------------------------------------------
  // What every step and every run keeps
  // ---------------------------------------------------------------------------

  /** Every release in the mesh was there at the start, on a node of the same target, and
      no node runs a lower one than at the start. */
  ghost predicate Rooted(start: seq<Node>, mesh: seq<Node>) {
    && |mesh| == |start|
    && forall i :: 0 <= i < |mesh| ==> Descends(start, i, mesh[i])
  }

  ghost predicate Descends(start: seq<Node>, i: nat, node: Node)
    requires i < |start|
  {
    node in start && node.target == start[i].target && !Below(node.release, start[i].release)
  }

  lemma {:induction false} StepKeepsRooted(start: seq<Node>, before: seq<Node>, after: seq<Node>)
    requires Rooted(start, before) && Step(before, after)
    ensures Rooted(start, after)
    ensures forall k: nat :: k < |before| ==> !Below(after[k].release, before[k].release)
  {
    var i: nat, visible, j: nat :| Sync(before, after, i, visible, j);
    assert Descends(start, i, before[i]) && Descends(start, j, before[j]);
    NotBelowChain(start[i].release, before[i].release, before[j].release);
    assert after[i] == before[j] && Descends(start, i, after[i]);
    forall k | 0 <= k < |after| && k != i ensures Descends(start, k, after[k]) {
      assert after[k] == before[k];
    }
  }

  lemma NotBelowChain(a: Rank, b: Rank, c: Rank)
    requires !Below(b, a) && Below(b, c)
    ensures !Below(c, a) && !Below(c, b)
  {
  }

  /** How many of the initial releases are still above a rank. */
  ghost function Above(start: seq<Node>, rank: Rank): nat {
    if start == [] then 0
    else Above(start[..|start| - 1], rank) + if Below(rank, start[|start| - 1].release) then 1 else 0
  }

  ghost function Measure(start: seq<Node>, mesh: seq<Node>): nat {
    if mesh == [] then 0
    else Measure(start, mesh[..|mesh| - 1]) + Above(start, mesh[|mesh| - 1].release)
  }

  lemma {:induction false} AboveBound(start: seq<Node>, rank: Rank)
    ensures Above(start, rank) <= |start|
  {
    if start != [] { AboveBound(start[..|start| - 1], rank); }
  }

  lemma {:induction false} MeasureBound(start: seq<Node>, mesh: seq<Node>)
    ensures Measure(start, mesh) <= |mesh| * |start|
  {
    if mesh != [] {
      MeasureBound(start, mesh[..|mesh| - 1]);
      AboveBound(start, mesh[|mesh| - 1].release);
      assert |mesh| * |start| == (|mesh| - 1) * |start| + |start|;
    }
  }

  lemma {:induction false} AboveDrops(start: seq<Node>, low: Rank, high: Rank)
    requires Below(low, high)
    ensures Above(start, high) <= Above(start, low)
    ensures (exists r :: 0 <= r < |start| && start[r].release == high) ==> Above(start, high) < Above(start, low)
  {
    if start != [] {
      AboveDrops(start[..|start| - 1], low, high);
      BelowOrder(low, high, start[|start| - 1].release);
    }
  }

  lemma BelowOrder(a: Rank, b: Rank, c: Rank)
    ensures Below(a, b) && Below(b, c) ==> Below(a, c)
    ensures !Below(a, a)
  {
  }

  lemma {:induction false} MeasureUpdate(start: seq<Node>, mesh: seq<Node>, i: nat, node: Node)
    requires i < |mesh|
    ensures Measure(start, mesh[i := node])
         == Measure(start, mesh) - Above(start, mesh[i].release) + Above(start, node.release)
  {
    var front := mesh[..|mesh| - 1];
    if i < |mesh| - 1 {
      MeasureUpdate(start, front, i, node);
      assert mesh[i := node][..|mesh| - 1] == front[i := node];
    } else {
      assert mesh[i := node][..|mesh| - 1] == front;
    }
  }

  lemma StepCosts(start: seq<Node>, before: seq<Node>, after: seq<Node>)
    requires Rooted(start, before) && Step(before, after)
    ensures Measure(start, after) < Measure(start, before)
  {
    var i: nat, visible, j: nat :| Sync(before, after, i, visible, j);
    MeasureUpdate(start, before, i, after[i]);
    assert Descends(start, j, before[j]);
    AboveDrops(start, before[i].release, after[i].release);
  }

  /** Over every run, whatever each node sees at each moment: no release appears that was
      not there at the start, none is ever lowered, and the run is at most n * n steps long. */
  lemma {:induction false} RunsAreShort(states: seq<seq<Node>>)
    requires Run(states)
    ensures forall t :: 0 <= t < |states| ==> Rooted(states[0], states[t])
    ensures |states| - 1 + Measure(states[0], states[|states| - 1]) <= |states[0]| * |states[0]|
    decreases |states|
  {
    var start, n := states[0], |states|;
    if n == 1 {
      MeasureBound(start, start);
      assert forall i :: 0 <= i < |start| ==> Descends(start, i, start[i]);
    } else {
      var earlier := states[..n - 1];
      RunsAreShort(earlier);
      assert earlier[n - 2] == states[n - 2] && Step(states[n - 2], states[n - 1]);
      StepKeepsRooted(start, states[n - 2], states[n - 1]);
      StepCosts(start, states[n - 2], states[n - 1]);
      forall t | 0 <= t < n ensures Rooted(start, states[t]) {
        if t < n - 1 { assert Rooted(start, earlier[t]); }
      }
    }
  }

  // ---------------------------------------------------------------------------
  // Where runs end
  // ---------------------------------------------------------------------------

  /** All nodes of a build target run the same release. */
  ghost predicate Level(mesh: seq<Node>) {
    forall i, j :: 0 <= i < |mesh| && 0 <= j < |mesh| && mesh[i].target == mesh[j].target ==>
      mesh[i].release == mesh[j].release
  }

  ghost function Everyone(mesh: seq<Node>): (all: set<nat>)
    ensures forall k: nat :: k in all <==> k < |mesh|
  {
    if mesh == [] then {} else Everyone(mesh[..|mesh| - 1]) + {|mesh| - 1}
  }

  /** With every node visible, the mesh is at rest exactly when it is level. */
  lemma {:induction false} QuietIffLevel(mesh: seq<Node>)
    ensures Level(mesh) <==> forall after, i: nat, j: nat :: !Sync(mesh, after, i, Everyone(mesh), j)
  {
    if !Level(mesh) {
      var i, j :| 0 <= i < |mesh| && 0 <= j < |mesh| && mesh[i].target == mesh[j].target
                  && mesh[i].release != mesh[j].release;
      var (low, high) := if Below(mesh[i].release, mesh[j].release) then (i, j) else (j, i);
      assert Below(mesh[low].release, mesh[high].release);
      var best := FindBest(mesh, low, high, |mesh|);
      var after := mesh[low := mesh[low].(release := mesh[best].release)];
      assert Sync(mesh, after, low, Everyone(mesh), best);
    }
  }

  /** The best of the first n nodes that node i sees, starting from one that it sees. */
  lemma {:induction false} FindBest(mesh: seq<Node>, i: nat, seen: nat, n: nat) returns (best: nat)
    requires i < |mesh| && n <= |mesh| && Sees(mesh, i, Everyone(mesh), seen)
    ensures Sees(mesh, i, Everyone(mesh), best) && !Below(mesh[best].release, mesh[seen].release)
    ensures forall k: nat :: k < n && Sees(mesh, i, Everyone(mesh), k) ==> !Below(mesh[best].release, mesh[k].release)
  {
    if n == 0 {
      best := seen;
    } else {
      best := FindBest(mesh, i, seen, n - 1);
      if Sees(mesh, i, Everyone(mesh), n - 1) && Below(mesh[best].release, mesh[n - 1].release) {
        best := n - 1;
      }
    }
  }

  // ---------------------------------------------------------------------------
  // Nodes with their version texts
  // ---------------------------------------------------------------------------

  datatype Device = Device(target: string, version: string)

  ghost function NodesOf(devices: seq<Device>): seq<Node> {
    seq(|devices|, i requires 0 <= i < |devices| => Node(devices[i].target, RankOf(devices[i].version)))
  }

  lemma NodesAfter(devices: seq<Device>, i: nat, version: string)
    requires i < |devices|
    ensures NodesOf(devices[i := devices[i].(version := version)])
         == NodesOf(devices)[i := NodesOf(devices)[i].(release := RankOf(version))]
  {
  }

  /** Installing the core of the best visible version is a step of the mesh. */
  lemma InstallIsSync(devices: seq<Device>, i: nat, visible: set<nat>, j: nat)
    requires i < |devices| && Best(NodesOf(devices), i, visible, j)
    requires Compare(devices[j].version, devices[i].version) > 0
    ensures var after := devices[i := devices[i].(version := Core(devices[j].version))];
            Sync(NodesOf(devices), NodesOf(after), i, visible, j)
  {
    var core := Core(devices[j].version);
    RankOfCore(devices[j].version);
    NodesAfter(devices, i, core);
  }

  // ---------------------------------------------------------------------------
  // The peer a node chooses
  // ---------------------------------------------------------------------------

  /** The fresh peers in a node's table are other devices, with the target and the version
      each of them announces; `device` tells which. */
  ghost predicate Tells(peers: seq<Peer>, uptime: nat, devices: seq<Device>, i: nat, device: seq<nat>) {
    && |device| == |peers|
    && forall p :: 0 <= p < |peers| && IsActive(peers[p], uptime) ==> TellsOf(peers[p], devices, i, device[p])
  }

  ghost predicate TellsOf(peer: Peer, devices: seq<Device>, i: nat, d: nat) {
    && d < |devices| && d != i
    && peer.details.buildTarget == devices[d].target && peer.details.firmwareVersion == devices[d].version
  }

  /** The devices that a node sees are those that its fresh peers stand for. */
  ghost function Seen(peers: seq<Peer>, uptime: nat, device: seq<nat>): (seen: set<nat>)
    requires |device| == |peers|
    ensures forall d :: d in seen <==> exists p :: 0 <= p < |peers| && IsActive(peers[p], uptime) && device[p] == d
  {
    set p | 0 <= p < |peers| && IsActive(peers[p], uptime) :: device[p]
  }

  lemma SeenIsEligible(peers: seq<Peer>, uptime: nat, devices: seq<Device>, i: nat, device: seq<nat>, p: nat)
    requires i < |devices| && Tells(peers, uptime, devices, i, device) && p < |peers| && IsActive(peers[p], uptime)
    ensures Sees(NodesOf(devices), i, Seen(peers, uptime, device), device[p])
       <==> CandidateOf(peers[p], devices[i].target, uptime).Some?
    ensures CandidateOf(peers[p], devices[i].target, uptime).Some? ==>
      CandidateOf(peers[p], devices[i].target, uptime).value == NodesOf(devices)[device[p]].release
  {
    assert TellsOf(peers[p], devices, i, device[p]);
  }

  /** The peer chosen from the table is one of the best the node sees. */
  lemma ChosenIsBest(peers: seq<Peer>, uptime: nat, devices: seq<Device>, i: nat, device: seq<nat>, p: nat)
    requires i < |devices| && Tells(peers, uptime, devices, i, device)
    requires FirstGreatest(Candidates(peers, devices[i].target, uptime), p)
    ensures Best(NodesOf(devices), i, Seen(peers, uptime, device), device[p])
    ensures IsActive(peers[p], uptime) && device[p] < |devices|
  {
    var mesh, ranks, seen := NodesOf(devices), Candidates(peers, devices[i].target, uptime), Seen(peers, uptime, device);
    SeenIsEligible(peers, uptime, devices, i, device, p);
    forall k: nat | Sees(mesh, i, seen, k) ensures !Below(mesh[device[p]].release, mesh[k].release) {
      var q :| 0 <= q < |peers| && IsActive(peers[q], uptime) && device[q] == k;
      SeenIsEligible(peers, uptime, devices, i, device, q);
      assert ranks[q].Some?;
    }
  }

  /** What the mesh becomes when node i syncs to the version it chose. */
  ghost predicate Syncs(devices: seq<Device>, highest: Highest, i: nat, visible: set<nat>)
    requires i < |devices|
  {
    var after := devices[i := devices[i].(version := highest.version)];
    exists j: nat :: Sync(NodesOf(devices), NodesOf(after), i, visible, j)
  }

  /** Installing what the search of the table returns is a step of the mesh if it is above the
      node's own version; and if nothing is returned, or nothing above it, the node sees no
      higher release and no step of it is possible. */
  lemma SyncsToHighest(peers: seq<Peer>, uptime: nat, devices: seq<Device>, i: nat, device: seq<nat>, highest: Highest)
    requires i < |devices| && Tells(peers, uptime, devices, i, device)
    requires IsHighest(peers, devices[i].target, uptime, highest)
    ensures Compare(highest.version, devices[i].version) > 0 ==>
      Syncs(devices, highest, i, Seen(peers, uptime, device))
    ensures Compare(highest.version, devices[i].version) <= 0 ==>
      forall after, j: nat :: !Sync(NodesOf(devices), after, i, Seen(peers, uptime, device), j)
  {
    var mesh, ranks, seen := NodesOf(devices), Candidates(peers, devices[i].target, uptime), Seen(peers, uptime, device);
    if highest.version == "" {
      forall j: nat | j in seen ensures !Sees(mesh, i, seen, j) {
        var q :| 0 <= q < |peers| && IsActive(peers[q], uptime) && device[q] == j;
        SeenIsEligible(peers, uptime, devices, i, device, q);
        assert ranks[q].None?;
      }
    } else {
      var p: nat :| ChosenAt(peers, ranks, uptime, highest, p);
      ChosenIsBest(peers, uptime, devices, i, device, p);
      SeenIsEligible(peers, uptime, devices, i, device, p);
      RankOfCore(peers[p].details.firmwareVersion);
      if Compare(highest.version, devices[i].version) > 0 {
        InstallIsSync(devices, i, seen, device[p]);
      }
    }
  }
}
