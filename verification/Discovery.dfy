/** From the text of an announcement to the peer table of the Rust node that hears it. */
module Discovery {
  import opened Wrappers
  import opened Json
  import opened Recency
  import opened Peers
  import opened RustReader
  import Announcement

  /** The record is in the table, and the only one with its id. */
  ghost predicate OnlyRecord(peers: seq<Peer>, peer: Peer) {
    peer in peers && forall p :: p in peers && p.nodeId == peer.nodeId ==> p == peer
  }

  /** A record says what a node announced of itself. */
  ghost predicate SaysNode(peer: Peer, n: Announcement.Node) {
    peer.nodeId == n.nodeId && peer.details == Sent(n, false).details
  }

  lemma StoredElsewhere(peers: seq<Peer>, peer: Peer)
    ensures forall p :: p in Stored(peers, peer) ==> p == peer || p in peers
  {
  }

  /** Ids in a faithful table are distinct. */
  lemma OneRecord(peers: seq<Peer>, peer: Peer)
    requires Distinct(Entries(peers)) && peer in peers
    ensures OnlyRecord(peers, peer)
  {
    forall p | p in peers && p.nodeId == peer.nodeId ensures p == peer {
      var i :| 0 <= i < |peers| && peers[i] == p;
      var j :| 0 <= j < |peers| && peers[j] == peer;
      assert Entries(peers)[i].Some? && Entries(peers)[j].Some?;
    }
  }

  lemma SaysNodeExactly(peer: Peer, n: Announcement.Node, style: Style)
    requires peer.nodeId == Raw(n.nodeId, style) && peer.details == Received(n, style, false).details
    ensures SaysNode(peer, n) <==> AllVerbatim(n, style) && Announcement.InRange(n)
  {
    ReceivedExactly(n, style, false);
    RawExactly(n.nodeId, style);
  }

  lemma AnnouncementNames(n: Announcement.Node, style: Style)
    ensures Received(n, style, false).kind == Some("lb_udp_discovery")
    ensures Received(n, style, false).nodeId == Some(Raw(n.nodeId, style))
  {
  }

  /** The record just written is the only one with its id, and the others were there before. */
  lemma WrittenIsOnly(before: seq<Peer>, written: Peer, now: nat)
    requires written.lastSeenMs == now && Distinct(Entries(Retained(Stored(before, written), now)))
    ensures var after := Retained(Stored(before, written), now);
      OnlyRecord(after, written) && forall p :: p in after && p != written ==> p in before
  {
    StoredSurvives(before, written, now);
    OneRecord(Retained(Stored(before, written), now), written);
    RetainedSubset(Stored(before, written), now);
    StoredElsewhere(before, written);
  }

  /** The record under an id before, if there was one. */
  ghost function Known(peers: seq<Peer>, id: string): Option<Peer> {
    var i := FindPeer(peers, id);
    if i < |peers| then Some(peers[i]) else None
  }

  /** What is not announced stays: where the node stands, and when its last summary came. */
  ghost predicate KeepsPlace(peer: Peer, known: Option<Peer>) {
    match known
    case Some(p) => peer.pose == p.pose && peer.lastRoomSummaryMs == p.lastRoomSummaryMs
    case None => peer.pose == Pose(0, 0, 0, 0, 0) && peer.lastRoomSummaryMs == 0
  }

  /** And a summary leaves alone what it does not say. */
  ghost predicate KeepsDetails(peer: Peer, known: Option<Peer>) {
    var d := if known.Some? then known.value.details else Details("", "", "", "", "", "", "", 0, 0, 0, 0);
    && peer.details.friendlyName == d.friendlyName && peer.details.hostname == d.hostname
    && peer.details.ipAddress == d.ipAddress && peer.details.wifiRssiDbm == d.wifiRssiDbm
    && peer.details.wifiChannel == d.wifiChannel && peer.details.uptimeS == d.uptimeS
    && peer.details.freeHeapBytes == d.freeHeapBytes
  }

  /** What it says, the record says. */
  ghost predicate Summarizes(peer: Peer, payload: Payload, now: nat) {
    && peer.lastSeenMs == now && peer.lastRoomSummaryMs == now && peer.pose == payload.pose
    && peer.details.roomId == payload.details.roomId && peer.details.sensorRole == payload.details.sensorRole
    && peer.details.firmwareVersion == payload.details.firmwareVersion
    && peer.details.buildTarget == payload.details.buildTarget
  }

  lemma StoredIsThere(peers: seq<Peer>, peer: Peer)
    ensures peer in Stored(peers, peer)
  {
    var i, after := FindPeer(peers, peer.nodeId), Stored(peers, peer);
    assert after[if i < |peers| then i else |after| - 1] == peer;
  }

  /** What the table holds after a room summary: one record of the node, with what the summary
      says and otherwise as it was. */
  method HearSummary(state: PeerState, payload: Payload, now: nat) returns (ghost peer: Option<Peer>)
    requires state.Valid() && state.clock <= now
    modifies state
    ensures state.Valid() && state.clock <= now
    ensures peer.None? <==> !payload.looksLikeRoomSummary || !state.Names(payload)
    ensures peer.None? ==> state.peers == old(state.peers) && state.log == old(state.log)
    ensures peer.Some? ==>
              && Some(peer.value.nodeId) == payload.nodeId && Summarizes(peer.value, payload, now)
              && KeepsDetails(peer.value, Known(old(state.peers), peer.value.nodeId))
              && OnlyRecord(state.peers, peer.value)
              && forall p :: p in state.peers && p != peer.value ==> p in old(state.peers)
  {
    ghost var before := state.peers;
    state.SyncRoomSummaryPeer(payload, now);
    peer := None;
    if payload.looksLikeRoomSummary && state.Names(payload) {
      ghost var written := Summarized(before, payload.nodeId.value, payload, now);
      StoredIsThere(before, written);
      OneRecord(state.peers, written);
      StoredElsewhere(before, written);
      peer := Some(written);
    }
  }

  /** What the table holds after a payload. */
  method HearPayload(state: PeerState, payload: Payload, now: nat) returns (ghost peer: Option<Peer>)
    requires state.Valid() && state.clock <= now
    modifies state
    ensures state.Valid() && state.clock <= now
    ensures peer.None? <==> payload.kind != Some("lb_udp_discovery") || !state.Names(payload)
    ensures peer.None? ==> state.peers == old(state.peers) && state.log == old(state.log)
    ensures peer.Some? ==>
              && Some(peer.value.nodeId) == payload.nodeId && peer.value.details == payload.details
              && peer.value.lastSeenMs == now && OnlyRecord(state.peers, peer.value)
              && KeepsPlace(peer.value, Known(old(state.peers), peer.value.nodeId))
              && forall p :: p in state.peers && p != peer.value ==> p in old(state.peers)
  {
    ghost var before := state.peers;
    state.SyncDiscoveryPeer(payload, now);
    peer := None;
    if payload.kind == Some("lb_udp_discovery") && state.Names(payload) {
      ghost var written := Discovered(before, payload.nodeId.value, payload, now);
      WrittenIsOnly(before, written, now);
      peer := Some(written);
    }
  }

  /** What a Rust node's table holds after the text of an announcement has arrived: one record
      under the announced id, just seen, which says what the sender announced exactly when no
      text needs escaping and every number fits; every other record was there before. An
      announcement without an id, or of the node itself, changes nothing. */
  method Hear(state: PeerState, json: string, now: nat, ghost n: Announcement.Node, ghost style: Style)
    returns (ghost peer: Option<Peer>)
    requires state.Valid() && state.clock <= now && json == Print(Announcement.FieldsOf(n), style)
    modifies state
    ensures state.Valid() && state.clock <= now
    ensures peer.None? <==> Raw(n.nodeId, style) == "" || Raw(n.nodeId, style) == state.nodeId
    ensures peer.None? ==> state.peers == old(state.peers) && state.log == old(state.log)
    ensures peer.Some? ==>
              && peer.value.nodeId == Raw(n.nodeId, style) && peer.value.lastSeenMs == now
              && OnlyRecord(state.peers, peer.value)
              && (SaysNode(peer.value, n) <==> AllVerbatim(n, style) && Announcement.InRange(n))
              && forall p :: p in state.peers && p != peer.value ==> p in old(state.peers)
  {
    var payload := ReadPayload(json, false);
    AnnouncementRead(n, style, false);
    AnnouncementNames(n, style);
    peer := HearPayload(state, payload, now);
    if peer.Some? {
      SaysNodeExactly(peer.value, n, style);
    }
  }
}
