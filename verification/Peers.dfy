/** The Rust firmware's peer vector: at most twelve nodes heard over UDP discovery or as room
    summaries, the oldest evicted when it is full and stale ones pruned. */
module Peers {
  import opened Wrappers
  import opened Recency

  const MAX_PEERS: nat := 12
  const PEER_FRESHNESS_MS: nat := 20_000

  datatype Details = Details(
    friendlyName: string, roomId: string, sensorRole: string, firmwareVersion: string, buildTarget: string,
    hostname: string, ipAddress: string, wifiRssiDbm: int, wifiChannel: nat, uptimeS: nat, freeHeapBytes: nat)

  datatype Pose = Pose(xCm: int, yCm: int, headingDeg: int, roomWidthCm: nat, roomHeightCm: nat)

  datatype Peer = Peer(nodeId: string, details: Details, pose: Pose, lastSeenMs: nat, lastRoomSummaryMs: nat)

  /** A received payload as the JSON field readers present it: absent texts are already
      empty and absent numbers already have their defaults. */
  datatype Payload = Payload(
    kind: Option<string>, looksLikeRoomSummary: bool, nodeId: Option<string>, details: Details, pose: Pose)

  const NO_DETAILS := Details("", "", "", "", "", "", "", 0, 0, 0, 0)
  const NO_POSE := Pose(0, 0, 0, 0, 0)

  // ---------------------------------------------------------------------------
  // Searching and pruning
  // ---------------------------------------------------------------------------

  /** Position of the first peer with this id, or the length if there is none. */
  function FindPeer(peers: seq<Peer>, id: string): (i: nat)
    ensures i <= |peers|
    ensures i < |peers| ==> peers[i].nodeId == id
    ensures forall j :: 0 <= j < i ==> peers[j].nodeId != id
  {
    if peers == [] then 0
    else if peers[0].nodeId == id then 0
    else 1 + FindPeer(peers[1..], id)
  }

  /** Position of the first peer with the least last-seen time. */
  function OldestPeer(peers: seq<Peer>): (i: nat)
    requires peers != []
    ensures i < |peers|
    ensures forall j :: 0 <= j < |peers| ==> peers[i].lastSeenMs <= peers[j].lastSeenMs
    ensures forall j :: 0 <= j < i ==> peers[i].lastSeenMs < peers[j].lastSeenMs
  {
    if |peers| == 1 then 0
    else
      var i := 1 + OldestPeer(peers[1..]);
      if peers[0].lastSeenMs <= peers[i].lastSeenMs then 0 else i
  }

  predicate IsActive(peer: Peer, uptime: nat) {
    SaturatingSub(uptime, peer.lastSeenMs) <= PEER_FRESHNESS_MS
  }

  function Retained(peers: seq<Peer>, uptime: nat): seq<Peer> {
    if peers == [] then []
    else
      Retained(peers[..|peers| - 1], uptime)
      + if IsActive(peers[|peers| - 1], uptime) then [peers[|peers| - 1]] else []
  }

  // ---------------------------------------------------------------------------
  // The vector as a recency table
  // ---------------------------------------------------------------------------

  ghost function Entries(peers: seq<Peer>): seq<Entry<string>> {
    seq(|peers|, i requires 0 <= i < |peers| => Some(Heard(peers[i].nodeId, peers[i].lastSeenMs)))
  }

  ghost function Table(peers: seq<Peer>): map<string, nat> {
    TableOf(Entries(peers))
  }

  ghost predicate Faithful(peers: seq<Peer>, log: seq<Heard<string>>, floor: nat) {
    && |peers| <= MAX_PEERS
    && Distinct(Entries(peers))
    && Tracks(Table(peers), log, MAX_PEERS, floor)
  }

  lemma {:induction false} InTable(peers: seq<Peer>, id: string)
    requires Distinct(Entries(peers))
    ensures id in Table(peers) <==> FindPeer(peers, id) < |peers|
    ensures |Table(peers)| == |peers|
  {
    TableMeaning(Entries(peers));
    TableSize(Entries(peers));
    var i := FindPeer(peers, id);
    if i < |peers| {
      assert Holds(Entries(peers), i, id, peers[i].lastSeenMs);
    } else if id in Table(peers) {
      var j := FindHolder(Entries(peers), id);
      assert false;
    }
  }

  /** Refreshing a known peer. */
  lemma {:induction false} RefreshKeeps(peers: seq<Peer>, log: seq<Heard<string>>, floor: nat, now: nat, i: nat, peer: Peer)
    requires Faithful(peers, log, floor) && InOrder(log, now)
    requires i < |peers| && peer.nodeId == peers[i].nodeId && peer.lastSeenMs == now
    ensures Faithful(peers[i := peer], log + [Heard(peer.nodeId, now)], floor)
  {
    var entries, id := Entries(peers), peer.nodeId;
    TableMeaning(entries);
    assert Holds(entries, i, id, peers[i].lastSeenMs);
    OverwriteTable(entries, i, id, now);
    assert Entries(peers[i := peer]) == entries[i := Some(Heard(id, now))];
    HearKeeps(Table(peers), log, MAX_PEERS, floor, id, now);
  }

  /** Pushing a new peer when there is room. */
  lemma {:induction false} PushTable(peers: seq<Peer>, peer: Peer)
    requires Distinct(Entries(peers)) && FindPeer(peers, peer.nodeId) == |peers|
    ensures Distinct(Entries(peers + [peer]))
    ensures Table(peers + [peer]) == Table(peers)[peer.nodeId := peer.lastSeenMs]
  {
    assert Entries(peers + [peer]) == Entries(peers) + [Some(Heard(peer.nodeId, peer.lastSeenMs))];
    assert (Entries(peers) + [Some(Heard(peer.nodeId, peer.lastSeenMs))])[..|peers|] == Entries(peers);
  }

  function Without(peers: seq<Peer>, i: nat): seq<Peer>
    requires i < |peers|
  {
    peers[..i] + peers[i + 1..]
  }

  lemma {:induction false} RemoveTable(peers: seq<Peer>, i: nat)
    requires Distinct(Entries(peers)) && i < |peers|
    ensures Distinct(Entries(Without(peers, i)))
    ensures Table(Without(peers, i)) == Table(peers) - {peers[i].nodeId}
  {
    var entries, after := Entries(peers), Entries(Without(peers, i));
    TableMeaning(entries);
    forall j | 0 <= j < |after| ensures after[j] == entries[if j < i then j else j + 1] {
    }
    var table := TableOf(entries) - {peers[i].nodeId};
    assert Holds(entries, i, peers[i].nodeId, peers[i].lastSeenMs);
    forall j: nat, k, t | Holds(after, j, k, t) ensures k in table && table[k] == t {
      assert Holds(entries, if j < i then j else j + 1, k, t);
    }
    forall k | k in table ensures exists j :: Holds(after, j, k, table[k]) {
      var j := FindHolder(entries, k);
      assert Holds(after, if j < i then j else j - 1, k, table[k]);
    }
    SameTable(after, table);
  }

  /** A new peer: pushed if there is room, otherwise in place of the oldest. */
  function Admitted(peers: seq<Peer>, peer: Peer): seq<Peer> {
    (if |peers| >= MAX_PEERS then Without(peers, OldestPeer(peers)) else peers) + [peer]
  }

  lemma {:induction false} AdmitKeeps(peers: seq<Peer>, log: seq<Heard<string>>, floor: nat, now: nat, peer: Peer)
    requires Faithful(peers, log, floor) && InOrder(log, now)
    requires FindPeer(peers, peer.nodeId) == |peers| && peer.lastSeenMs == now
    ensures Faithful(Admitted(peers, peer), log + [Heard(peer.nodeId, now)], floor)
  {
    InTable(peers, peer.nodeId);
    if |peers| < MAX_PEERS {
      PushTable(peers, peer);
      HearKeeps(Table(peers), log, MAX_PEERS, floor, peer.nodeId, now);
    } else {
      var i := OldestPeer(peers);
      OldestInTable(peers, i);
      RemoveTable(peers, i);
      PushTable(Without(peers, i), peer);
      EvictKeeps(Table(peers), log, MAX_PEERS, floor, peer.nodeId, now, peers[i].nodeId);
    }
  }

  lemma {:induction false} OldestInTable(peers: seq<Peer>, i: nat)
    requires Distinct(Entries(peers)) && i < |peers|
    requires forall j :: 0 <= j < |peers| ==> peers[i].lastSeenMs <= peers[j].lastSeenMs
    ensures var table, victim := Table(peers), peers[i].nodeId;
            victim in table && forall k :: k in table ==> table[victim] <= table[k]
  {
    var entries := Entries(peers);
    TableMeaning(entries);
    assert Holds(entries, i, peers[i].nodeId, peers[i].lastSeenMs);
    forall k | k in Table(peers) ensures Table(peers)[peers[i].nodeId] <= Table(peers)[k] {
      var j := FindHolder(entries, k);
    }
  }

  lemma {:induction false} TableOfLast(peers: seq<Peer>, front: seq<Peer>, last: Peer)
    requires Distinct(Entries(peers)) && peers == front + [last]
    ensures Distinct(Entries(front)) && last.nodeId !in Table(front)
    ensures Table(peers) == Table(front)[last.nodeId := last.lastSeenMs]
  {
    assert Entries(front) == Entries(peers)[..|front|];
    assert Entries(peers)[|front|] == Some(Heard(last.nodeId, last.lastSeenMs));
    forall i | 0 <= i < |front| ensures front[i].nodeId != last.nodeId {
      assert Entries(peers)[i] == Some(Heard(front[i].nodeId, front[i].lastSeenMs));
    }
    if last.nodeId in Table(front) {
      var j := FindHolder(Entries(front), last.nodeId);
      assert false;
    }
  }

  lemma PrunedEntry<K>(table: map<K, nat>, key: K, time: nat, floor: int)
    requires key !in table
    ensures Pruned(table[key := time], floor)
         == if time >= floor then Pruned(table, floor)[key := time] else Pruned(table, floor)
  {
  }

  lemma {:induction false} RetainedSubset(peers: seq<Peer>, uptime: nat)
    ensures |Retained(peers, uptime)| <= |peers|
    ensures forall p :: p in Retained(peers, uptime) ==> p in peers && IsActive(p, uptime)
  {
    if peers != [] {
      RetainedSubset(peers[..|peers| - 1], uptime);
    }
  }

  /** Pruning drops exactly the entries below the new floor. */
  lemma {:induction false} RetainTable(peers: seq<Peer>, uptime: nat)
    requires Distinct(Entries(peers))
    ensures Distinct(Entries(Retained(peers, uptime))) && |Retained(peers, uptime)| <= |peers|
    ensures Table(Retained(peers, uptime)) == Pruned(Table(peers), SaturatingSub(uptime, PEER_FRESHNESS_MS))
    ensures forall p :: p in Retained(peers, uptime) ==> p in peers && IsActive(p, uptime)
  {
    RetainedSubset(peers, uptime);
    if peers == [] {
      assert Table([]) == map[];
    } else {
      var front, last := peers[..|peers| - 1], peers[|peers| - 1];
      var kept := Retained(front, uptime);
      TableOfLast(peers, front, last);
      RetainTable(front, uptime);
      PrunedEntry(Table(front), last.nodeId, last.lastSeenMs, SaturatingSub(uptime, PEER_FRESHNESS_MS));
      if IsActive(last, uptime) {
        InTable(kept, last.nodeId);
        PushTable(kept, last);
      } else {
        assert Retained(peers, uptime) == kept;
      }
    }
  }

  lemma {:induction false} RetainKeeps(peers: seq<Peer>, log: seq<Heard<string>>, floor: nat, uptime: nat)
    requires Faithful(peers, log, floor) && floor <= SaturatingSub(uptime, PEER_FRESHNESS_MS)
    ensures Faithful(Retained(peers, uptime), log, SaturatingSub(uptime, PEER_FRESHNESS_MS))
  {
    RetainTable(peers, uptime);
    PruneKeeps(Table(peers), log, MAX_PEERS, floor, SaturatingSub(uptime, PEER_FRESHNESS_MS));
  }

  /** What the node keeps about a peer after a discovery packet: everything it announced,
      and the pose from an earlier room summary. */
  function Discovered(peers: seq<Peer>, id: string, payload: Payload, now: nat): Peer {
    var i := FindPeer(peers, id);
    if i < |peers| then peers[i].(details := payload.details, lastSeenMs := now)
    else Peer(id, payload.details, NO_POSE, now, 0)
  }

  /** And after a room summary: the pose and four of the texts. */
  function Summarized(peers: seq<Peer>, id: string, payload: Payload, now: nat): Peer {
    var i := FindPeer(peers, id);
    var peer := if i < |peers| then peers[i] else Peer(id, NO_DETAILS, NO_POSE, now, 0);
    peer.(details := peer.details.(roomId := payload.details.roomId,
                                   sensorRole := payload.details.sensorRole,
                                   firmwareVersion := payload.details.firmwareVersion,
                                   buildTarget := payload.details.buildTarget),
          pose := payload.pose, lastSeenMs := now, lastRoomSummaryMs := now)
  }

  /** The vector after a peer's record is written: over the old record, or as a new one. */
  function Stored(peers: seq<Peer>, peer: Peer): seq<Peer> {
    var i := FindPeer(peers, peer.nodeId);
    if i < |peers| then peers[i := peer] else Admitted(peers, peer)
  }

  /** Everything the node guarantees about its vector, against the log, at a given time. */
  ghost predicate Healthy(self: string, peers: seq<Peer>, log: seq<Heard<string>>, floor: nat, clock: nat) {
    && Faithful(peers, log, floor)
    && InOrder(log, clock)
    && floor <= SaturatingSub(clock, PEER_FRESHNESS_MS)
    && self !in Keys(log)
  }

  lemma {:induction false} StoreKeeps(self: string, peers: seq<Peer>, log: seq<Heard<string>>, floor: nat, clock: nat,
                                      peer: Peer, now: nat)
    requires Healthy(self, peers, log, floor, clock) && clock <= now
    requires peer.lastSeenMs == now && peer.nodeId != self
    ensures Healthy(self, Stored(peers, peer), log + [Heard(peer.nodeId, now)], floor, now)
  {
    var i := FindPeer(peers, peer.nodeId);
    if i < |peers| {
      RefreshKeeps(peers, log, floor, now, i, peer);
    } else {
      AdmitKeeps(peers, log, floor, now, peer);
    }
    InOrderExtends(log, peer.nodeId, now);
    LastHeardStep(log, Heard(peer.nodeId, now), peer.nodeId);
  }

  lemma {:induction false} PruneKeepsHealthy(self: string, peers: seq<Peer>, log: seq<Heard<string>>, floor: nat,
                                             clock: nat, now: nat)
    requires Healthy(self, peers, log, floor, clock) && clock <= now
    ensures Healthy(self, Retained(peers, now), log, SaturatingSub(now, PEER_FRESHNESS_MS), now)
  {
    RetainKeeps(peers, log, floor, now);
  }

  /** A record just written survives the prune that follows it. */
  lemma {:induction false} StoredSurvives(peers: seq<Peer>, peer: Peer, now: nat)
    requires peer.lastSeenMs == now
    ensures peer in Retained(Stored(peers, peer), now)
  {
    var i := FindPeer(peers, peer.nodeId);
    var after := Stored(peers, peer);
    assert after[if i < |peers| then i else |after| - 1] == peer;
    RetainsActive(after, now, peer);
  }

  lemma {:induction false} RetainsActive(peers: seq<Peer>, uptime: nat, peer: Peer)
    requires peer in peers && IsActive(peer, uptime)
    ensures peer in Retained(peers, uptime)
  {
    var front := peers[..|peers| - 1];
    if peer != peers[|peers| - 1] {
      assert peer in front;
      RetainsActive(front, uptime, peer);
    }
  }

  // ---------------------------------------------------------------------------
  // The node's peer state over a whole run
  // ---------------------------------------------------------------------------

  class PeerState {
    const nodeId: string
    var peers: seq<Peer>
    ghost var log: seq<Heard<string>>  // every accepted payload since the last clear
    ghost var floor: nat               // everything heard earlier may have been pruned
    ghost var clock: nat               // the latest time seen

    ghost predicate Valid()
      reads this
    {
      Healthy(nodeId, peers, log, floor, clock)
    }

    constructor (nodeId: string)
      ensures Valid() && this.nodeId == nodeId && log == [] && clock == 0
    {
      this.nodeId := nodeId;
      peers, log, floor, clock := [], [], 0, 0;
    }

    /** Whether a payload names a peer at all: not itself, and not nobody. */
    predicate Names(payload: Payload)
    {
      payload.nodeId.Some? && payload.nodeId.value != "" && payload.nodeId.value != nodeId
    }

    /** A node never lists itself. */
    lemma {:induction false} NeverSelf()
      requires Valid()
      ensures forall p :: p in peers ==> p.nodeId != nodeId
    {
      forall i | 0 <= i < |peers| ensures peers[i].nodeId in Keys(log) {
        TableMeaning(Entries(peers));
        assert Holds(Entries(peers), i, peers[i].nodeId, peers[i].lastSeenMs);
      }
    }

    /** Writes a record over the peer's old one, or pushes it, evicting the oldest if full. */
    method Store(peer: Peer, now: nat)
      requires Valid() && clock <= now && peer.lastSeenMs == now && peer.nodeId != nodeId
      modifies this`peers, this`log, this`clock
      ensures Valid() && clock == now
      ensures log == old(log) + [Heard(peer.nodeId, now)] && peers == Stored(old(peers), peer)
    {
      StoreKeeps(nodeId, peers, log, floor, clock, peer, now);
      log := log + [Heard(peer.nodeId, now)];
      clock := now;
      var i := FindPeer(peers, peer.nodeId);
      if i < |peers| {
        peers := peers[i := peer];
      } else {
        if |peers| >= MAX_PEERS {
          peers := Without(peers, OldestPeer(peers));
        }
        peers := peers + [peer];
      }
    }

    method SyncDiscoveryPeer(payload: Payload, now: nat)
      requires Valid() && clock <= now
      modifies this
      ensures Valid() && clock <= now
      ensures if payload.kind == Some("lb_udp_discovery") && Names(payload) then
                var id := payload.nodeId.value;
                && log == old(log) + [Heard(id, now)]
                && peers == Retained(Stored(old(peers), Discovered(old(peers), id, payload, now)), now)
              else log == old(log) && peers == old(peers)
    {
      if payload.kind != Some("lb_udp_discovery") || !Names(payload) {
        return;
      }
      var id := payload.nodeId.value;
      var peer := Discovered(peers, id, payload, now);
      Store(peer, now);
      PruneKeepsHealthy(nodeId, peers, log, floor, clock, now);
      peers := Retained(peers, now);
      floor := SaturatingSub(now, PEER_FRESHNESS_MS);
    }

    method SyncRoomSummaryPeer(payload: Payload, now: nat)
      requires Valid() && clock <= now
      modifies this
      ensures Valid() && clock <= now
      ensures if payload.looksLikeRoomSummary && Names(payload) then
                var id := payload.nodeId.value;
                && log == old(log) + [Heard(id, now)]
                && peers == Stored(old(peers), Summarized(old(peers), id, payload, now))
              else log == old(log) && peers == old(peers)
    {
      if !payload.looksLikeRoomSummary || !Names(payload) {
        return;
      }
      var id := payload.nodeId.value;
      var peer := Summarized(peers, id, payload, now);
      Store(peer, now);
    }

    method Prune(now: nat)
      requires Valid() && clock <= now
      modifies this
      ensures Valid() && clock == now && log == old(log)
      ensures forall p :: p in peers ==> p in old(peers) && IsActive(p, now)
      ensures forall p :: p in old(peers) && IsActive(p, now) ==> p in peers
    {
      PruneKeepsHealthy(nodeId, peers, log, floor, clock, now);
      RetainTable(peers, now);
      forall p | p in peers && IsActive(p, now) ensures p in Retained(peers, now) {
        RetainsActive(peers, now, p);
      }
      peers := Retained(peers, now);
      floor, clock := SaturatingSub(now, PEER_FRESHNESS_MS), now;
    }

    method Clear(now: nat)
      requires Valid() && clock <= now
      modifies this
      ensures Valid() && clock == now && log == [] && peers == []
    {
      peers, log, floor, clock := [], [], 0, now;
    }

    /** The node reports as many active peers as were heard in the last 20 seconds, up to
        twelve, whatever was evicted and pruned on the way. */
    method ActivePeerCount(uptime: nat) returns (count: nat)
      requires Valid() && clock <= uptime
      ensures count == Min(MAX_PEERS, |FreshKeys(log, uptime, PEER_FRESHNESS_MS)|)
    {
      count := 0;
      ghost var entries := Entries(peers);
      for i := 0 to |peers|
        invariant count == FreshCount(entries[..i], uptime, PEER_FRESHNESS_MS)
      {
        assert entries[..i + 1][..i] == entries[..i];
        if IsActive(peers[i], uptime) {
          count := count + 1;
        }
      }
      assert entries[..|peers|] == entries;
      FreshCountIsActive(entries, uptime, PEER_FRESHNESS_MS);
      ActiveCount(Table(peers), log, MAX_PEERS, floor, uptime, PEER_FRESHNESS_MS);
    }
  }
}
