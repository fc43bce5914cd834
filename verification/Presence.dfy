/** The C++ presence state machine: a poll every 25 ms, four hits to qualify, eighty misses in
    a row to release, and a hold time after that. */
module Presence {
  import opened Wrappers

  const POLL_MS: nat := 25
  const QUALIFY_SAMPLES: nat := 4
  const RELEASE_SAMPLES: nat := 80
  const MIN_HOLD_MS: nat := 3000
  const MAX_HOLD_MS: nat := 60_000

  /** One accepted poll: when it happened and whether it saw a detection candidate. */
  datatype Sample = Sample(time: nat, hit: bool)

  // ---------------------------------------------------------------------------
  // What the counters stand for
  // ---------------------------------------------------------------------------

  /** Misses since the last hit. */
  ghost function Trailing(h: seq<Sample>): (n: nat)
    ensures n <= |h|
  {
    if h == [] || h[|h| - 1].hit then 0 else 1 + Trailing(h[..|h| - 1])
  }

  lemma {:induction false} TrailingMeaning(h: seq<Sample>)
    ensures forall k :: |h| - Trailing(h) <= k < |h| ==> !h[k].hit
    ensures Trailing(h) < |h| ==> h[|h| - Trailing(h) - 1].hit
  {
    if h != [] && !h[|h| - 1].hit { TrailingMeaning(h[..|h| - 1]); }
  }

  /** The length of the longest prefix that ends in eighty misses: everything up to the last
      release. */
  ghost function LastRelease(h: seq<Sample>): (n: nat)
    ensures n <= |h|
  {
    if h == [] then 0
    else if Trailing(h) >= RELEASE_SAMPLES then |h|
    else LastRelease(h[..|h| - 1])
  }

  ghost function Hits(h: seq<Sample>): nat {
    if h == [] then 0 else Hits(h[..|h| - 1]) + if h[|h| - 1].hit then 1 else 0
  }

  /** Hits since then, counted as they come. */
  ghost function HitsSinceRelease(h: seq<Sample>): nat {
    if h == [] then 0
    else if h[|h| - 1].hit then HitsSinceRelease(h[..|h| - 1]) + 1
    else if Trailing(h) >= RELEASE_SAMPLES then 0
    else HitsSinceRelease(h[..|h| - 1])
  }

  /** They are the hits among the samples after the last release. */
  lemma {:induction false} HitsSinceReleaseMeaning(h: seq<Sample>)
    ensures HitsSinceRelease(h) == Hits(h[LastRelease(h)..])
  {
    if h != [] {
      var front, n := h[..|h| - 1], LastRelease(h);
      HitsSinceReleaseMeaning(front);
      if n == |h| {
        assert h[n..] == [];
      } else {
        assert h[n..][..|h| - n - 1] == front[n..];
      }
    }
  }

  lemma {:induction false} OneMore(h: seq<Sample>, s: Sample)
    ensures Trailing(h + [s]) == if s.hit then 0 else Trailing(h) + 1
    ensures HitsSinceRelease(h + [s])
         == if s.hit then HitsSinceRelease(h) + 1
            else if Trailing(h) + 1 >= RELEASE_SAMPLES then 0 else HitsSinceRelease(h)
  {
    assert (h + [s])[..|h|] == h;
  }

  // ---------------------------------------------------------------------------
  // Time
  // ---------------------------------------------------------------------------

  ghost predicate Spaced(h: seq<Sample>) {
    && (h != [] ==> h[0].time >= POLL_MS)
    && forall i :: 0 <= i < |h| - 1 ==> h[i].time + POLL_MS <= h[i + 1].time
  }

  lemma {:induction false} SpacedApart(h: seq<Sample>, i: nat, j: nat)
    requires Spaced(h) && i <= j < |h|
    ensures h[i].time + POLL_MS * (j - i) <= h[j].time
    decreases j
  {
    if i < j { SpacedApart(h, i, j - 1); }
  }

  function EffectiveHoldMs(configured: nat): nat {
    Max(MIN_HOLD_MS, Min(configured, MAX_HOLD_MS))
  }

  function DecayRemainingMs(lastDetectionMs: nat, now: nat, holdMs: nat): nat
    requires lastDetectionMs <= now
  {
    var hold := EffectiveHoldMs(holdMs);
    if hold == 0 || lastDetectionMs == 0 then 0
    else
      var elapsed := now - lastDetectionMs;
      if elapsed >= hold then 0 else hold - elapsed
  }

  /** Below three seconds the hold counts as three, and above a minute as a minute. */
  function Held(holdMs: nat): nat {
    if holdMs < 3000 then 3000 else if holdMs <= 60_000 then holdMs else 60_000
  }

  /** Time is left exactly while the last detection is no longer ago than that. */
  lemma DecayMeaning(lastDetectionMs: nat, now: nat, holdMs: nat)
    requires lastDetectionMs <= now
    ensures DecayRemainingMs(lastDetectionMs, now, holdMs) > 0 <==>
      lastDetectionMs > 0 && now < lastDetectionMs + Held(holdMs)
    ensures DecayRemainingMs(lastDetectionMs, now, holdMs) > 0 ==>
      now + DecayRemainingMs(lastDetectionMs, now, holdMs) == lastDetectionMs + Held(holdMs)
  {
  }

  /** Eighty misses in a row, from sample r on, right after a hit. */
  ghost predicate ReleaseRun(h: seq<Sample>, r: nat) {
    && 1 <= r && r + RELEASE_SAMPLES <= |h|
    && h[r - 1].hit && forall k :: r <= k < r + RELEASE_SAMPLES ==> !h[k].hit
  }

  ghost predicate ActiveAfter(h: seq<Sample>) {
    HitsSinceRelease(h) >= QUALIFY_SAMPLES
  }

  /** Detection was not active after any sample from the given length of history on. */
  ghost predicate QuietSince(h: seq<Sample>, from: nat) {
    |h| < from || (!ActiveAfter(h) && (h == [] || QuietSince(h[..|h| - 1], from)))
  }

  lemma {:induction false} QuietMeaning(h: seq<Sample>, from: nat, k: nat)
    requires QuietSince(h, from) && from <= k <= |h|
    ensures !ActiveAfter(h[..k])
  {
    if k < |h| {
      QuietMeaning(h[..|h| - 1], from, k);
      assert h[..|h| - 1][..k] == h[..k];
    } else {
      assert h[..k] == h;
    }
  }

  /** The release run from r on ended the last activity: detection was active until its last
      miss, and has not been since. */
  ghost predicate Releases(h: seq<Sample>, r: nat) {
    && ReleaseRun(h, r) && ActiveAfter(h[..r + RELEASE_SAMPLES - 1])
    && QuietSince(h, r + RELEASE_SAMPLES)
  }

  /** There is only one such run. */
  lemma ReleasesOnce(h: seq<Sample>, r: nat, q: nat)
    requires Releases(h, r) && Releases(h, q)
    ensures r == q
  {
    if r < q {
      QuietMeaning(h, r + RELEASE_SAMPLES, q + RELEASE_SAMPLES - 1);
    }
    if q < r {
      QuietMeaning(h, q + RELEASE_SAMPLES, r + RELEASE_SAMPLES - 1);
    }
  }

  /** Presence, from everything polled so far: four hits without eighty misses in between, or an
      activity whose last sample but one before its release is no longer ago than the hold. */
  ghost predicate Present(h: seq<Sample>, now: nat, holdMs: nat) {
    ActiveAfter(h) || exists r: nat :: Releases(h, r) && now < h[r + 78].time + Held(holdMs)
  }

  lemma PresentExactly(h: seq<Sample>, c: Counters, released: nat, now: nat, holdMs: nat)
    requires Reflects(h, c, released)
    ensures Present(h, now, holdMs) <==> c.active || (c.lastDetectionMs > 0 && now < c.lastDetectionMs + Held(holdMs))
  {
    if !c.active && c.lastDetectionMs > 0 {
      forall r: nat | Releases(h, r) ensures r == released {
        ReleasesOnce(h, r, released);
      }
    }
    if c.lastDetectionMs == 0 {
      forall r: nat | ReleaseRun(h, r) ensures !Releases(h, r) {
        QuietMeaning(h, 0, r + RELEASE_SAMPLES - 1);
      }
    }
  }

  /** What it takes before presence may fall: the hit before the releasing run lies at least
      79 polls and the shortest hold back. */
  ghost predicate LongGone(h: seq<Sample>, now: nat) {
    exists r: nat :: Releases(h, r) && h[r - 1].time + (RELEASE_SAMPLES - 1) * POLL_MS + MIN_HOLD_MS <= now
  }

  /** New activity makes any earlier release count for nothing. */
  lemma ActivityForgets(h: seq<Sample>, now: nat)
    requires ActiveAfter(h)
    ensures !LongGone(h, now)
  {
  }

  // ---------------------------------------------------------------------------
  // The counters after each poll
  // ---------------------------------------------------------------------------

  datatype Counters = Counters(hits: nat, misses: nat, active: bool, lastDetectionMs: nat)

  /** The counters, in terms of everything seen so far: hits since the last eighty misses,
      misses since the last hit, and active exactly with four hits. */
  ghost predicate Counting(h: seq<Sample>, c: Counters) {
    && c.hits == Min(QUALIFY_SAMPLES, HitsSinceRelease(h))
    && c.misses == Min(RELEASE_SAMPLES, Trailing(h))
    && (c.active <==> c.hits == QUALIFY_SAMPLES)
  }

  /** The time of the last detection: the last poll, or the 79th miss of the releasing run. */
  ghost predicate Detecting(h: seq<Sample>, c: Counters, released: nat) {
    && (c.active ==> h != [] && c.lastDetectionMs == h[|h| - 1].time && Trailing(h) < RELEASE_SAMPLES)
    && (!c.active && c.lastDetectionMs > 0 ==>
          Releases(h, released) && c.lastDetectionMs == h[released + RELEASE_SAMPLES - 2].time)
    && (c.lastDetectionMs == 0 ==> QuietSince(h, 0))
  }

  ghost predicate Reflects(h: seq<Sample>, c: Counters, released: nat) {
    Spaced(h) && Counting(h, c) && Detecting(h, c, released)
  }

  function AfterHit(c: Counters, now: nat): Counters {
    var hits := Min(QUALIFY_SAMPLES, c.hits + 1);
    var active := c.active || hits >= QUALIFY_SAMPLES;
    Counters(hits, 0, active, if active then now else c.lastDetectionMs)
  }

  function AfterMiss(c: Counters, now: nat): Counters {
    var misses := Min(RELEASE_SAMPLES, c.misses + 1);
    if misses >= RELEASE_SAMPLES then Counters(0, misses, false, c.lastDetectionMs)
    else Counters(c.hits, misses, c.active, if c.active then now else c.lastDetectionMs)
  }

  ghost predicate Follows(h: seq<Sample>, now: nat) {
    if h == [] then now >= POLL_MS else h[|h| - 1].time + POLL_MS <= now
  }

  lemma HitKeeps(h: seq<Sample>, c: Counters, released: nat, now: nat)
    requires Reflects(h, c, released) && Follows(h, now)
    ensures Reflects(h + [Sample(now, true)], AfterHit(c, now), released)
  {
    OneMore(h, Sample(now, true));
    Extends(h, Sample(now, true), released);
  }

  lemma MissKeeps(h: seq<Sample>, c: Counters, released: nat, now: nat)
    requires Reflects(h, c, released) && Follows(h, now)
    ensures var h' := h + [Sample(now, false)];
            Reflects(h', AfterMiss(c, now), ReleaseAfter(h, c, released, false))
  {
    OneMore(h, Sample(now, false));
    Extends(h, Sample(now, false), released);
    if c.active && c.misses + 1 >= RELEASE_SAMPLES {
      JustReleased(h, now);
      assert |h| >= RELEASE_SAMPLES;
    }
  }

  function After(c: Counters, now: nat, hit: bool): Counters {
    if hit then AfterHit(c, now) else AfterMiss(c, now)
  }

  ghost function ReleaseAfter(h: seq<Sample>, c: Counters, released: nat, hit: bool): nat {
    if !hit && c.active && c.misses + 1 >= RELEASE_SAMPLES && |h| >= RELEASE_SAMPLES
    then |h| + 1 - RELEASE_SAMPLES else released
  }

  lemma SampleKeeps(h: seq<Sample>, c: Counters, released: nat, now: nat, hit: bool)
    requires Reflects(h, c, released) && Follows(h, now)
    ensures Reflects(h + [Sample(now, hit)], After(c, now, hit), ReleaseAfter(h, c, released, hit))
    ensures c.hits >= QUALIFY_SAMPLES ==> c.active
  {
    if hit {
      HitKeeps(h, c, released, now);
    } else {
      MissKeeps(h, c, released, now);
    }
  }

  // ---------------------------------------------------------------------------
  // The monitor
  // ---------------------------------------------------------------------------

  class Monitor {
    var hits: nat
    var misses: nat
    var active: bool
    var lastDetectionMs: nat
    var lastPollMs: nat
    var initialized: bool
    var presence: bool
    var changes: nat
    ghost var counters: Counters    // the four fields above, as one value
    ghost var history: seq<Sample>  // every accepted poll since boot
    ghost var released: nat         // where the last release run began, once there was one

    ghost predicate Valid()
      reads this
    {
      && Reflects(history, counters, released) && InFields(counters)
      && (history == [] || lastPollMs == history[|history| - 1].time)
      && lastDetectionMs <= lastPollMs
      && (presence ==> lastDetectionMs > 0)
    }

    constructor ()
      ensures Valid() && history == [] && !active && !presence && !initialized && changes == 0
    {
      hits, misses, active, lastDetectionMs, lastPollMs := 0, 0, false, 0, 0;
      initialized, presence, changes, history, released := false, false, 0, [], 0;
      counters := Counters(0, 0, false, 0);
    }

    /** One call of pollPresence. Polls that come too early change nothing. */
    method Poll(now: nat, candidate: bool, holdMs: nat) returns (changed: bool)
      requires Valid() && lastPollMs <= now <= U32_MAX
      modifies this
      ensures Valid()
      ensures now - old(lastPollMs) < POLL_MS ==> history == old(history) && presence == old(presence) && !changed
      ensures now - old(lastPollMs) >= POLL_MS ==>
                && history == old(history) + [Sample(now, candidate)]
                && (presence <==> Present(history, now, holdMs))
                && (active ==> presence)
                && (!active && lastDetectionMs > 0 ==> (presence <==> now - lastDetectionMs < Held(holdMs)))
                && (changed <==> old(initialized) && presence != old(presence))
                && initialized && changes == old(changes) + (if changed then 1 else 0)
      ensures old(presence) && !presence ==> LongGone(history, now)
    {
      if now - lastPollMs < POLL_MS {
        return false;
      }
      changed := Accept(now, candidate, holdMs);
    }

    /** A poll that is due. Reported presence falls only when the hit before the releasing
        misses is long gone, whatever the configured hold time was in between. */
    method Accept(now: nat, candidate: bool, holdMs: nat) returns (changed: bool)
      requires Valid() && lastPollMs + POLL_MS <= now
      modifies this
      ensures Valid() && history == old(history) + [Sample(now, candidate)]
      ensures presence <==> Present(history, now, holdMs)
      ensures presence <==> active || (lastDetectionMs > 0 && now < lastDetectionMs + Held(holdMs))
      ensures initialized && changes == old(changes) + (if changed then 1 else 0)
      ensures changed <==> old(initialized) && presence != old(presence)
      ensures old(presence) && !presence ==> LongGone(history, now)
    {
      ghost var detected := presence;
      CountSample(now, candidate);
      changed := Report(now, holdMs);
      PresentExactly(history, counters, released, now, holdMs);
      if detected && !presence {
        FallsLate(history, counters, released, now);
      }
    }

    /** The second half of pollPresence: what is reported, and whether that is news. */
    method Report(now: nat, holdMs: nat) returns (changed: bool)
      requires lastDetectionMs <= now
      modifies this`initialized, this`presence, this`changes
      ensures initialized
      ensures presence <==> active || (lastDetectionMs > 0 && now < lastDetectionMs + Held(holdMs))
      ensures changed <==> old(initialized) && presence != old(presence)
      ensures changes == old(changes) + if changed then 1 else 0
      ensures !presence && lastDetectionMs > 0 ==> !active && lastDetectionMs + MIN_HOLD_MS <= now
      ensures presence ==> active || lastDetectionMs > 0
    {
      DecayMeaning(lastDetectionMs, now, holdMs);
      var next := active || DecayRemainingMs(lastDetectionMs, now, holdMs) > 0;
      changed := initialized && next != presence;
      if changed {
        changes := changes + 1;
      }
      initialized, presence := true, next;
    }

    ghost predicate InFields(c: Counters)
      reads this`hits, this`misses, this`active, this`lastDetectionMs
    {
      hits == c.hits && misses == c.misses && active == c.active && lastDetectionMs == c.lastDetectionMs
    }

    /** The first half of pollPresence: the hit and miss counters. */
    method CountSample(now: nat, candidate: bool)
      requires Reflects(history, counters, released) && InFields(counters)
      requires Follows(history, now) && lastDetectionMs <= now
      modifies this`hits, this`misses, this`active, this`lastDetectionMs
      modifies this`lastPollMs, this`counters, this`history, this`released
      ensures Reflects(history, counters, released) && history == old(history) + [Sample(now, candidate)]
      ensures InFields(counters) && counters == After(old(counters), now, candidate)
      ensures lastPollMs == now && lastDetectionMs <= now
    {
      ghost var longer, next := history + [Sample(now, candidate)], After(counters, now, candidate);
      ghost var releasing := ReleaseAfter(history, counters, released, candidate);
      SampleKeeps(history, counters, released, now, candidate);
      UpdateFields(now, candidate, counters);
      lastPollMs := now;
      history, counters, released := longer, next, releasing;
    }

    method UpdateFields(now: nat, candidate: bool, ghost c: Counters)
      requires InFields(c) && (c.hits >= QUALIFY_SAMPLES ==> c.active)
      modifies this`hits, this`misses, this`active, this`lastDetectionMs
      ensures InFields(After(c, now, candidate))
    {
      if candidate {
        hits := Min(QUALIFY_SAMPLES, hits + 1);
        misses := 0;
      } else {
        misses := Min(RELEASE_SAMPLES, misses + 1);
        if misses >= RELEASE_SAMPLES {
          hits := 0;
          active := false;
        }
      }
      if hits >= QUALIFY_SAMPLES {
        active := true;
      }
      if active {
        lastDetectionMs := now;
      }
    }
  }

  lemma Extends(h: seq<Sample>, s: Sample, r: nat)
    requires Spaced(h) && (if h == [] then s.time >= POLL_MS else h[|h| - 1].time + POLL_MS <= s.time)
    ensures Spaced(h + [s])
    ensures ReleaseRun(h, r) ==> (h + [s])[r + RELEASE_SAMPLES - 2] == h[r + RELEASE_SAMPLES - 2]
    ensures Releases(h, r) && !ActiveAfter(h + [s]) ==> Releases(h + [s], r)
  {
    var longer := h + [s];
    assert longer[..|h|] == h;
    if Releases(h, r) {
      assert longer[..r + RELEASE_SAMPLES - 1] == h[..r + RELEASE_SAMPLES - 1];
    }
  }

  /** The eightieth miss in a row after a detection makes a releasing run. */
  lemma JustReleased(h: seq<Sample>, now: nat)
    requires Trailing(h) == RELEASE_SAMPLES - 1 && ActiveAfter(h)
    ensures Releases(h + [Sample(now, false)], |h| - RELEASE_SAMPLES + 1)
  {
    LastMissRun(h, now);
    LosesActivity(h, Sample(now, false));
    ReleasesAtEnd(h, Sample(now, false), |h| - RELEASE_SAMPLES + 1);
  }

  lemma LosesActivity(h: seq<Sample>, s: Sample)
    requires Trailing(h) == RELEASE_SAMPLES - 1 && !s.hit
    ensures !ActiveAfter(h + [s])
  {
    OneMore(h, s);
  }

  lemma ReleasesAtEnd(h: seq<Sample>, s: Sample, r: nat)
    requires ReleaseRun(h + [s], r) && r + RELEASE_SAMPLES == |h| + 1
    requires ActiveAfter(h) && !ActiveAfter(h + [s])
    ensures Releases(h + [s], r)
  {
    assert (h + [s])[..|h|] == h;
  }

  lemma LastMissRun(h: seq<Sample>, now: nat)
    requires Trailing(h) == RELEASE_SAMPLES - 1 && ActiveAfter(h)
    ensures RELEASE_SAMPLES <= |h| && ReleaseRun(h + [Sample(now, false)], |h| - RELEASE_SAMPLES + 1)
  {
    TrailingMeaning(h);
    if Trailing(h) == |h| {
      NoHits(h);
      assert false;
    }
  }

  lemma {:induction false} NoHits(h: seq<Sample>)
    requires forall k :: 0 <= k < |h| ==> !h[k].hit
    ensures HitsSinceRelease(h) == 0
  {
    if h != [] { NoHits(h[..|h| - 1]); }
  }

  /** Detection over, and the shortest hold too: the hit before the releasing run is long gone. */
  lemma FallsLate(h: seq<Sample>, c: Counters, released: nat, now: nat)
    requires Reflects(h, c, released) && !c.active && c.lastDetectionMs > 0
    requires c.lastDetectionMs + MIN_HOLD_MS <= now
    ensures LongGone(h, now)
  {
    SpacedApart(h, released - 1, released + RELEASE_SAMPLES - 2);
  }
}
