/** Release versions: the core major.minor.patch inside a version text, the order on versions,
    and the choice of the highest peer release. */
module Versions {
  import opened Wrappers
  import opened Decimals
  import opened Peers
  import opened Texts

  // ---------------------------------------------------------------------------
  // The version core
  // ---------------------------------------------------------------------------

  /** A core: three non-empty runs of digits, with dots at positions a and b. */
  ghost predicate IsCoreAt(s: string, a: nat, b: nat) {
    && 0 < a && a + 1 < b && b + 1 < |s|
    && s[a] == '.' && s[b] == '.'
    && forall i :: 0 <= i < |s| && i != a && i != b ==> IsDigit(s[i])
  }

  ghost predicate IsCore(s: string) {
    exists a: nat, b: nat :: IsCoreAt(s, a, b)
  }

  /** The longest run of digits from i ends at j. */
  ghost predicate RunEnds(s: string, i: nat, j: nat) {
    && i <= j <= |s|
    && (forall k :: i <= k < j ==> IsDigit(s[k]))
    && (j < |s| ==> !IsDigit(s[j]))
  }

  method SkipDigits(s: string, start: nat) returns (cursor: nat)
    requires start <= |s|
    ensures RunEnds(s, start, cursor)
  {
    cursor := start;
    while cursor < |s| && IsDigit(s[cursor])
      invariant start <= cursor <= |s|
      invariant forall k :: start <= k < cursor ==> IsDigit(s[k])
    {
      cursor := cursor + 1;
    }
  }

  function CoreStart(trimmed: string): (start: nat)
    ensures start <= |trimmed|
  {
    if trimmed != "" && trimmed[0] in "vV" then 1 else 0
  }

  /** A trimmed text contains a core: after an optional v, and not followed by a digit. */
  ghost predicate Contains(trimmed: string, core: string) {
    var start := CoreStart(trimmed);
    && IsCore(core)
    && start + |core| <= |trimmed|
    && trimmed[start..start + |core|] == core
    && (start + |core| < |trimmed| ==> !IsDigit(trimmed[start + |core|]))
  }

  ghost predicate HasCore(trimmed: string) {
    exists c :: Contains(trimmed, c)
  }

  /** Where the three runs of digits of a contained core lie. */
  ghost predicate Runs(trimmed: string, core: string, dot1: nat, dot2: nat, end: nat) {
    var start := CoreStart(trimmed);
    && start < dot1 && RunEnds(trimmed, start, dot1)
    && dot1 + 1 < dot2 && RunEnds(trimmed, dot1 + 1, dot2)
    && dot2 + 1 < end && RunEnds(trimmed, dot2 + 1, end)
    && trimmed[dot1] == '.' && trimmed[dot2] == '.'
    && core == trimmed[start..end]
  }

  lemma ContainedRuns(trimmed: string, core: string) returns (dot1: nat, dot2: nat, end: nat)
    requires Contains(trimmed, core)
    ensures Runs(trimmed, core, dot1, dot2, end)
  {
    var start := CoreStart(trimmed);
    var a: nat, b: nat :| IsCoreAt(core, a, b);
    assert forall i :: 0 <= i < |core| ==> trimmed[start + i] == core[i];
    dot1, dot2, end := start + a, start + b, start + |core|;
    forall k | start <= k < end && k != dot1 && k != dot2 ensures IsDigit(trimmed[k]) {
      assert trimmed[k] == core[k - start];
    }
  }

  lemma RunsContained(trimmed: string, core: string, dot1: nat, dot2: nat, end: nat)
    requires Runs(trimmed, core, dot1, dot2, end)
    ensures Contains(trimmed, core)
  {
    var start := CoreStart(trimmed);
    assert IsCoreAt(core, dot1 - start, dot2 - start);
  }

  lemma RunUnique(s: string, i: nat, j: nat, j': nat)
    requires RunEnds(s, i, j) && RunEnds(s, i, j')
    ensures j == j'
  {
  }

  /** A text contains at most one core. */
  lemma ContainsUnique(trimmed: string, c: string, d: string)
    requires Contains(trimmed, c) && Contains(trimmed, d)
    ensures c == d
  {
    var dot1, dot2, end := ContainedRuns(trimmed, c);
    var dot1', dot2', end' := ContainedRuns(trimmed, d);
    RunUnique(trimmed, CoreStart(trimmed), dot1, dot1');
    RunUnique(trimmed, dot1 + 1, dot2, dot2');
    RunUnique(trimmed, dot2 + 1, end, end');
  }

  /** semantic_version_core: the core a version text contains, or nothing. */
  ghost function Core(version: string): (core: string) {
    if HasCore(Trim(version)) then
      var c :| Contains(Trim(version), c); c
    else ""
  }

  /** The core is exactly what a text contains. */
  lemma CoreExact(version: string, c: string)
    ensures Core(version) == c != "" <==> Contains(Trim(version), c)
  {
    if Contains(Trim(version), c) {
      ContainsUnique(Trim(version), c, Core(version));
    }
  }

  lemma FirstRun(trimmed: string, dot1: nat)
    requires HasCore(trimmed) && RunEnds(trimmed, CoreStart(trimmed), dot1)
    ensures CoreStart(trimmed) < dot1 < |trimmed| && trimmed[dot1] == '.'
  {
    var c :| Contains(trimmed, c);
    var d1, d2, e := ContainedRuns(trimmed, c);
    RunUnique(trimmed, CoreStart(trimmed), dot1, d1);
  }

  lemma SecondRun(trimmed: string, dot1: nat, dot2: nat)
    requires HasCore(trimmed) && RunEnds(trimmed, CoreStart(trimmed), dot1)
    requires dot1 < |trimmed| && RunEnds(trimmed, dot1 + 1, dot2)
    ensures dot1 + 1 < dot2 < |trimmed| && trimmed[dot2] == '.'
  {
    var c :| Contains(trimmed, c);
    var d1, d2, e := ContainedRuns(trimmed, c);
    RunUnique(trimmed, CoreStart(trimmed), dot1, d1);
    RunUnique(trimmed, dot1 + 1, dot2, d2);
  }

  lemma ThirdRun(trimmed: string, dot1: nat, dot2: nat, end: nat)
    requires HasCore(trimmed) && RunEnds(trimmed, CoreStart(trimmed), dot1)
    requires dot1 < |trimmed| && RunEnds(trimmed, dot1 + 1, dot2)
    requires dot2 < |trimmed| && RunEnds(trimmed, dot2 + 1, end)
    ensures dot2 + 1 < end
  {
    var c :| Contains(trimmed, c);
    var d1, d2, e := ContainedRuns(trimmed, c);
    RunUnique(trimmed, CoreStart(trimmed), dot1, d1);
    RunUnique(trimmed, dot1 + 1, dot2, d2);
    RunUnique(trimmed, dot2 + 1, end, e);
  }

  /** The scanner finds the core exactly when there is one. */
  method SemanticVersionCore(version: string) returns (core: string)
    ensures core == Core(version)
  {
    var trimmed := Trim(version);
    if trimmed == "" {
      return "";
    }
    var start := if trimmed[0] in "vV" then 1 else 0;
    var dot1 := SkipDigits(trimmed, start);
    if HasCore(trimmed) { FirstRun(trimmed, dot1); }
    if dot1 <= start || dot1 >= |trimmed| || trimmed[dot1] != '.' {
      return "";
    }
    var dot2 := SkipDigits(trimmed, dot1 + 1);
    if HasCore(trimmed) { SecondRun(trimmed, dot1, dot2); }
    if dot2 <= dot1 + 1 || dot2 >= |trimmed| || trimmed[dot2] != '.' {
      return "";
    }
    var end := SkipDigits(trimmed, dot2 + 1);
    if HasCore(trimmed) { ThirdRun(trimmed, dot1, dot2, end); }
    if end <= dot2 + 1 {
      return "";
    }
    core := trimmed[start..end];
    RunsContained(trimmed, core, dot1, dot2, end);
    ContainsUnique(trimmed, core, Core(version));
  }

  /** A core is its own core. */
  lemma CoreOfCore(core: string)
    requires IsCore(core)
    ensures Core(core) == core
  {
    var a: nat, b: nat :| IsCoreAt(core, a, b);
    assert IsDigit(core[0]) && IsDigit(core[|core| - 1]);
    TrimmedStays(core);
    assert Contains(core, core);
    ContainsUnique(core, core, Core(core));
  }

  /** Extracting the core is idempotent. */
  lemma CoreIdempotent(version: string)
    ensures Core(Core(version)) == Core(version)
  {
    if HasCore(Trim(version)) {
      CoreOfCore(Core(version));
    } else {
      assert Trim("") == "";
    }
  }

  // ---------------------------------------------------------------------------
  // The order
  // ---------------------------------------------------------------------------

  function ParseU32OrZero(s: string): nat {
    match DigitsValue(s)
    case Some(v) => if v <= U32_MAX then v else 0
    case None => 0
  }

  function IndexOfDot(s: string, from: nat): (i: nat)
    requires from <= |s|
    ensures from <= i <= |s|
    decreases |s| - from
  {
    if from == |s| || s[from] == '.' then from else IndexOfDot(s, from + 1)
  }

  /** The n-th piece of split('.'), if there are that many. */
  function Piece(s: string, n: nat): Option<string>
    decreases n
  {
    var dot := IndexOfDot(s, 0);
    if n == 0 then Some(s[..dot])
    else if dot == |s| then None
    else Piece(s[dot + 1..], n - 1)
  }

  function Part(core: string, n: nat): nat {
    match Piece(core, n)
    case Some(piece) => ParseU32OrZero(piece)
    case None => 0
  }

  /** Releases in their order; a text without a core comes before all of them. */
  datatype Rank = NoRelease | Release(major: nat, minor: nat, patch: nat)

  ghost function RankOf(version: string): Rank {
    RankOfCoreText(Core(version))
  }

  ghost function RankOfCoreText(core: string): Rank {
    if core == "" then NoRelease else Release(Part(core, 0), Part(core, 1), Part(core, 2))
  }

  ghost predicate Below(a: Rank, b: Rank) {
    match (a, b)
    case (_, NoRelease) => false
    case (NoRelease, Release(_, _, _)) => true
    case (Release(x, y, z), Release(x', y', z')) =>
      x < x' || (x == x' && (y < y' || (y == y' && z < z')))
  }

  ghost function Compare(left: string, right: string): int {
    Order(RankOf(left), RankOf(right))
  }

  ghost function Order(left: Rank, right: Rank): int {
    if Below(left, right) then -1 else if Below(right, left) then 1 else 0
  }

  method CompareVersions(left: string, right: string) returns (order: int)
    ensures order == Compare(left, right)
  {
    var leftCore := SemanticVersionCore(left);
    var rightCore := SemanticVersionCore(right);
    if leftCore == "" && rightCore == "" {
      return 0;
    }
    if leftCore == "" {
      return -1;
    }
    if rightCore == "" {
      return 1;
    }
    for index := 0 to 3
      invariant forall k :: 0 <= k < index ==> Part(leftCore, k) == Part(rightCore, k)
    {
      if Part(leftCore, index) < Part(rightCore, index) {
        FirstDifference(leftCore, rightCore, index);
        return -1;
      }
      if Part(leftCore, index) > Part(rightCore, index) {
        FirstDifference(rightCore, leftCore, index);
        return 1;
      }
    }
    NoDifference(leftCore, rightCore);
    return 0;
  }

  lemma FirstDifference(low: string, high: string, index: nat)
    requires low != "" && high != "" && index < 3
    requires forall k :: 0 <= k < index ==> Part(low, k) == Part(high, k)
    requires Part(low, index) < Part(high, index)
    ensures Order(RankOfCoreText(low), RankOfCoreText(high)) == -1
    ensures Order(RankOfCoreText(high), RankOfCoreText(low)) == 1
  {
    assert 0 < index ==> Part(low, 0) == Part(high, 0);
    assert 1 < index ==> Part(low, 1) == Part(high, 1);
  }

  lemma NoDifference(left: string, right: string)
    requires left != "" && right != ""
    requires forall k :: 0 <= k < 3 ==> Part(left, k) == Part(right, k)
    ensures Order(RankOfCoreText(left), RankOfCoreText(right)) == 0
  {
  }

  /** The comparison is a total preorder. */
  lemma CompareIsPreorder(a: string, b: string, c: string)
    ensures Compare(a, a) == 0
    ensures Compare(a, b) == -Compare(b, a)
    ensures Compare(a, b) <= 0 && Compare(b, c) <= 0 ==> Compare(a, c) <= 0
    ensures Compare(a, b) <= 0 && Compare(b, c) < 0 ==> Compare(a, c) < 0
    ensures Compare(a, b) < 0 && Compare(b, c) <= 0 ==> Compare(a, c) < 0
  {
    OrderIsPreorder(RankOf(a), RankOf(b), RankOf(c));
  }

  lemma OrderIsPreorder(a: Rank, b: Rank, c: Rank)
    ensures Order(a, a) == 0
    ensures Order(a, b) == -Order(b, a)
    ensures Order(a, b) <= 0 && Order(b, c) <= 0 ==> Order(a, c) <= 0
    ensures Order(a, b) <= 0 && Order(b, c) < 0 ==> Order(a, c) < 0
    ensures Order(a, b) < 0 && Order(b, c) <= 0 ==> Order(a, c) < 0
  {
  }

  /** Comparing cores is comparing versions. */
  lemma CompareCores(a: string, b: string)
    ensures Compare(Core(a), b) == Compare(a, b) && Compare(a, Core(b)) == Compare(a, b)
  {
    CoreIdempotent(a);
    CoreIdempotent(b);
  }

  // ---------------------------------------------------------------------------
  // The highest peer release
  // ---------------------------------------------------------------------------

  ghost predicate Eligible(peer: Peer, target: string, uptime: nat) {
    IsActive(peer, uptime) && peer.details.buildTarget == target && Core(peer.details.firmwareVersion) != ""
  }

  datatype Highest = Highest(nodeId: string, version: string, source: string)

  const ROOM_SUMMARY_FRESHNESS_MS: nat := 20_000

  function SourceOf(peer: Peer, uptime: nat): string {
    if peer.lastRoomSummaryMs > 0 && SaturatingSub(uptime, peer.lastRoomSummaryMs) <= ROOM_SUMMARY_FRESHNESS_MS
    then "room_summary" else "udp_discovery"
  }

  /** The version came with a room summary exactly when one came in the last 20 s. */
  lemma SourceExactly(peer: Peer, uptime: nat)
    ensures SourceOf(peer, uptime) == "room_summary" <==>
      peer.lastRoomSummaryMs > 0 && uptime <= peer.lastRoomSummaryMs + 20_000
    ensures SourceOf(peer, uptime) == "room_summary" || SourceOf(peer, uptime) == "udp_discovery"
  {
  }

  /** The releases that are candidates, in the order of the vector. */
  ghost function Candidates(peers: seq<Peer>, target: string, uptime: nat): seq<Option<Rank>> {
    seq(|peers|, i requires 0 <= i < |peers| => CandidateOf(peers[i], target, uptime))
  }

  /** i is the first of the greatest candidates. */
  ghost predicate FirstGreatest(ranks: seq<Option<Rank>>, i: nat) {
    && i < |ranks| && ranks[i].Some?
    && (forall j :: 0 <= j < |ranks| && ranks[j].Some? ==> !Below(ranks[i].value, ranks[j].value))
    && (forall j :: 0 <= j < i && ranks[j].Some? ==> Below(ranks[j].value, ranks[i].value))
  }

  /** The chosen peer is the first of those with the greatest release, among the fresh peers
      with this node's build target; nothing is chosen only if there is none. */
  ghost predicate IsHighest(peers: seq<Peer>, target: string, uptime: nat, highest: Highest) {
    var ranks := Candidates(peers, target, uptime);
    if highest.version == "" then
      highest == Highest("", "", "") && forall i :: 0 <= i < |ranks| ==> ranks[i].None?
    else
      exists i: nat :: ChosenAt(peers, ranks, uptime, highest, i)
  }

  ghost predicate ChosenAt(peers: seq<Peer>, ranks: seq<Option<Rank>>, uptime: nat, highest: Highest, i: nat)
    requires |ranks| == |peers|
  {
    FirstGreatest(ranks, i) && highest == Chosen(peers[i], uptime)
  }

  ghost function Chosen(peer: Peer, uptime: nat): Highest {
    Highest(peer.nodeId, Core(peer.details.firmwareVersion), SourceOf(peer, uptime))
  }

  method HighestPeer(peers: seq<Peer>, target: string, uptime: nat) returns (highest: Highest)
    ensures IsHighest(peers, target, uptime, highest)
  {
    highest := Highest("", "", "");
    for k := 0 to |peers|
      invariant IsHighest(peers[..k], target, uptime, highest)
    {
      HighestUpTo(peers, k, target, uptime, highest);
      highest := Consider(peers[k], target, uptime, highest);
    }
    assert peers[..|peers|] == peers;
  }

  ghost function Better(peer: Peer, target: string, uptime: nat, highest: Highest): Highest {
    if Eligible(peer, target, uptime)
       && (highest.version == "" || Below(RankOf(highest.version), RankOf(peer.details.firmwareVersion)))
    then Chosen(peer, uptime) else highest
  }

  /** One turn of the search. */
  method Consider(peer: Peer, target: string, uptime: nat, highest: Highest) returns (better: Highest)
    ensures better == Better(peer, target, uptime, highest)
  {
    better := highest;
    if !IsActive(peer, uptime) || peer.details.buildTarget != target {
      return;
    }
    var candidate := SemanticVersionCore(peer.details.firmwareVersion);
    if candidate == "" {
      return;
    }
    if highest.version == "" {
      return Highest(peer.nodeId, candidate, SourceOf(peer, uptime));
    }
    var order := CompareVersions(candidate, highest.version);
    RankOfCore(peer.details.firmwareVersion);
    if order > 0 {
      better := Highest(peer.nodeId, candidate, SourceOf(peer, uptime));
    }
  }

  lemma RankOfCore(version: string)
    ensures RankOf(Core(version)) == RankOf(version)
  {
    CoreIdempotent(version);
  }

  lemma GreatestStep(ranks: seq<Option<Rank>>, i: nat, r: Option<Rank>)
    requires FirstGreatest(ranks, i)
    ensures var next := if r.Some? && Below(ranks[i].value, r.value) then |ranks| else i;
            FirstGreatest(ranks + [r], next)
  {
  }

  lemma CandidatesStep(peers: seq<Peer>, peer: Peer, target: string, uptime: nat)
    ensures Candidates(peers + [peer], target, uptime) == Candidates(peers, target, uptime)
            + [CandidateOf(peer, target, uptime)]
  {
  }

  ghost function CandidateOf(peer: Peer, target: string, uptime: nat): Option<Rank> {
    if Eligible(peer, target, uptime) then Some(RankOf(peer.details.firmwareVersion)) else None
  }

  lemma {:induction false} HighestStep(peers: seq<Peer>, peer: Peer, target: string, uptime: nat, before: Highest)
    requires IsHighest(peers, target, uptime, before)
    ensures IsHighest(peers + [peer], target, uptime, Better(peer, target, uptime, before))
  {
    var all, ranks := peers + [peer], Candidates(peers, target, uptime);
    var r, after := CandidateOf(peer, target, uptime), Better(peer, target, uptime, before);
    CandidatesStep(peers, peer, target, uptime);
    if before.version != "" {
      var i: nat :| ChosenAt(peers, ranks, uptime, before, i);
      var next := ChoiceStep(peers, ranks, peer, r, target, uptime, before, i);
      assert ChosenAt(all, ranks + [r], uptime, after, next);
    } else if r.Some? {
      FirstChoice(peers, ranks, peer, r, target, uptime);
      assert ChosenAt(all, ranks + [r], uptime, after, |peers|);
    }
  }

  lemma FirstChoice(peers: seq<Peer>, ranks: seq<Option<Rank>>, peer: Peer, r: Option<Rank>, target: string, uptime: nat)
    requires |ranks| == |peers| && forall j :: 0 <= j < |ranks| ==> ranks[j].None?
    requires r == CandidateOf(peer, target, uptime) && r.Some?
    ensures ChosenAt(peers + [peer], ranks + [r], uptime, Chosen(peer, uptime), |peers|)
    ensures Chosen(peer, uptime).version != ""
  {
  }

  lemma {:induction false} ChoiceStep(peers: seq<Peer>, ranks: seq<Option<Rank>>, peer: Peer, r: Option<Rank>,
                                      target: string, uptime: nat, before: Highest, i: nat) returns (next: nat)
    requires |ranks| == |peers| && ChosenAt(peers, ranks, uptime, before, i) && before.version != ""
    requires ranks[i].value == RankOf(peers[i].details.firmwareVersion) && r == CandidateOf(peer, target, uptime)
    ensures Better(peer, target, uptime, before).version != ""
    ensures ChosenAt(peers + [peer], ranks + [r], uptime, Better(peer, target, uptime, before), next)
  {
    RankOfCore(peers[i].details.firmwareVersion);
    GreatestStep(ranks, i, r);
    next := if r.Some? && Below(ranks[i].value, r.value) then |peers| else i;
  }

  lemma HighestUpTo(peers: seq<Peer>, k: nat, target: string, uptime: nat, before: Highest)
    requires k < |peers| && IsHighest(peers[..k], target, uptime, before)
    ensures IsHighest(peers[..k + 1], target, uptime, Better(peers[k], target, uptime, before))
  {
    assert peers[..k + 1] == peers[..k] + [peers[k]];
    HighestStep(peers[..k], peers[k], target, uptime, before);
  }
}
