/** What the Rust core makes of a radar frame: derived metrics, and the decision whether
    somebody is there. */
module Metrics {
  import opened Wrappers
  import opened RadarFrame
  import opened Radar

  const GATE_SIZE_CM: int := 70
  const ACTIVE_GATE_FLOOR: int := 25
  const MAX_PEOPLE: int := 4

  datatype Frame = Energy(energy: EnergyFrame) | Text(presence: bool, rangeCm: Option<u16>) | Generic

  datatype Derived = Derived(
    valid: bool, energyBased: bool, people: byte, activeGates: byte,
    dominantIndex: int, dominantDistance: int, dominantEnergy: u16, totalEnergy: nat, activity: byte)

  datatype Tuning = Tuning(
    maxRange: u16, minGateEnergy: u16, sensitivity: byte, minActiveGates: byte, minActivity: byte)

  datatype Decision =
    | Candidate | InvalidMetrics | OutOfRange | InsufficientActiveGates | LowActivity
    | MissingEnergyFrame | LowEnergy | NearFieldClutter

  // ---------------------------------------------------------------------------
  // Gates
  // ---------------------------------------------------------------------------

  function Last<T>(s: seq<T>): T
    requires s != []
  {
    s[|s| - 1]
  }

  function Init<T>(s: seq<T>): seq<T>
    requires s != []
  {
    s[..|s| - 1]
  }

  function Total(gates: seq<u16>): nat {
    if gates == [] then 0 else Total(Init(gates)) + Last(gates)
  }

  function Peak(gates: seq<u16>): u16 {
    if gates == [] then 0 else Max(Peak(Init(gates)), Last(gates))
  }

  function PeakIndex(gates: seq<u16>): int {
    if gates == [] then -1
    else if Last(gates) > Peak(Init(gates)) then |gates| - 1
    else PeakIndex(Init(gates))
  }

  function Threshold(peak: u16): u16 {
    if peak > 0 then Max(ACTIVE_GATE_FLOOR, peak / 5) else ACTIVE_GATE_FLOOR
  }

  function ActiveCount(gates: seq<u16>, threshold: u16): nat {
    if gates == [] then 0 else ActiveCount(Init(gates), threshold) + (if Last(gates) >= threshold then 1 else 0)
  }

  predicate OpenAtEnd(gates: seq<u16>, threshold: u16) {
    gates != [] && Last(gates) >= threshold
  }

  function RunCount(gates: seq<u16>, threshold: u16): nat {
    if gates == [] then 0
    else RunCount(Init(gates), threshold)
         + (if Last(gates) >= threshold && !OpenAtEnd(Init(gates), threshold) then 1 else 0)
  }

  lemma Extended(gates: seq<u16>, i: nat)
    requires i < |gates|
    ensures Init(gates[..i + 1]) == gates[..i] && Last(gates[..i + 1]) == gates[i]
  {
  }

  lemma {:induction false} TotalBound(gates: seq<u16>)
    ensures Total(gates) <= |gates| * 0xFFFF
  {
    if gates != [] {
      TotalBound(Init(gates));
    }
  }

  lemma {:induction false} CountBounds(gates: seq<u16>, threshold: u16)
    ensures ActiveCount(gates, threshold) <= |gates|
    ensures RunCount(gates, threshold) <= ActiveCount(gates, threshold)
    ensures 2 * RunCount(gates, threshold) <= |gates| + (if OpenAtEnd(gates, threshold) then 1 else 0)
  {
    if gates != [] {
      CountBounds(Init(gates), threshold);
    }
  }

  /** The first loudest gate, or -1 when every gate is silent. */
  lemma {:induction false} PeakMeaning(gates: seq<u16>)
    ensures forall i :: 0 <= i < |gates| ==> gates[i] <= Peak(gates)
    ensures -1 <= PeakIndex(gates) < |gates| && (PeakIndex(gates) == -1 <==> Peak(gates) == 0)
    ensures PeakIndex(gates) >= 0 ==> gates[PeakIndex(gates)] == Peak(gates)
    ensures forall i :: 0 <= i < PeakIndex(gates) ==> gates[i] < Peak(gates)
  {
    if gates != [] {
      PeakMeaning(Init(gates));
      assert forall i :: 0 <= i < |gates| - 1 ==> gates[i] == Init(gates)[i];
    }
  }

  // ---------------------------------------------------------------------------
  // Runs
  // ---------------------------------------------------------------------------

  /** Gates a..b are active and neither neighbour is. */
  ghost predicate MaximalRun(gates: seq<u16>, threshold: u16, a: nat, b: nat) {
    && a < b <= |gates|
    && (forall i :: a <= i < b ==> gates[i] >= threshold)
    && (a > 0 ==> gates[a - 1] < threshold)
    && (b < |gates| ==> gates[b] < threshold)
  }

  ghost function MaximalRuns(gates: seq<u16>, threshold: u16): set<(nat, nat)> {
    set a: nat, b: nat | a < |gates| && b <= |gates| && MaximalRun(gates, threshold, a, b) :: (a, b)
  }

  /** Where the run that is open at the end began. */
  function OpenSince(gates: seq<u16>, threshold: u16): nat {
    if OpenAtEnd(gates, threshold) then OpenSince(Init(gates), threshold) else |gates|
  }

  lemma {:induction false} OpenSinceMeaning(gates: seq<u16>, threshold: u16, a: nat)
    requires a == OpenSince(gates, threshold)
    ensures a <= |gates| && (a < |gates| <==> OpenAtEnd(gates, threshold))
    ensures forall i :: a <= i < |gates| ==> gates[i] >= threshold
    ensures 0 < a ==> gates[a - 1] < threshold
  {
    if OpenAtEnd(gates, threshold) {
      OpenSinceMeaning(Init(gates), threshold, a);
      assert forall i :: 0 <= i < |gates| - 1 ==> gates[i] == Init(gates)[i];
    }
  }

  lemma {:induction false} OnlyStart(gates: seq<u16>, threshold: u16, a: nat)
    requires a <= |gates| && (0 < a ==> gates[a - 1] < threshold)
    requires forall i :: a <= i < |gates| ==> gates[i] >= threshold
    ensures a == OpenSince(gates, threshold)
  {
    if OpenAtEnd(gates, threshold) {
      assert forall i :: 0 <= i < |gates| - 1 ==> gates[i] == Init(gates)[i];
      OnlyStart(Init(gates), threshold, a);
    }
  }

  /** A new gate ends the open run, or makes it longer, or begins one. */
  lemma RunOfInit(gates: seq<u16>, threshold: u16, a: nat, b: nat)
    requires gates != []
    ensures b < |gates| ==> (MaximalRun(gates, threshold, a, b)
      <==> MaximalRun(Init(gates), threshold, a, b) && (b == |gates| - 1 ==> Last(gates) < threshold))
    ensures b == |gates| ==> (MaximalRun(gates, threshold, a, b)
      <==> Last(gates) >= threshold && a == OpenSince(Init(gates), threshold))
  {
    var init, n, since := Init(gates), |gates| - 1, OpenSince(Init(gates), threshold);
    assert forall i :: 0 <= i < n ==> gates[i] == init[i];
    if b == |gates| {
      OpenSinceMeaning(init, threshold, since);
      if MaximalRun(gates, threshold, a, b) {
        OnlyStart(init, threshold, a);
      }
    }
  }

  /** The runs after one more active gate. */
  ghost function Grown(gates: seq<u16>, threshold: u16): set<(nat, nat)> {
    var since := OpenSince(gates, threshold);
    MaximalRuns(gates, threshold) - {(since, |gates|)} + {(since, |gates| + 1)}
  }

  lemma RunsOfInit(gates: seq<u16>, threshold: u16)
    requires gates != []
    ensures Last(gates) < threshold ==> MaximalRuns(gates, threshold) == MaximalRuns(Init(gates), threshold)
    ensures Last(gates) >= threshold ==> MaximalRuns(gates, threshold) == Grown(Init(gates), threshold)
  {
    var init, n, since := Init(gates), |gates| - 1, OpenSince(Init(gates), threshold);
    OpenSinceMeaning(init, threshold, since);
    forall a: nat, b: nat | b <= |gates|
      ensures MaximalRun(gates, threshold, a, b) <==>
        if b == |gates| then Last(gates) >= threshold && a == since
        else MaximalRun(init, threshold, a, b) && (b == n ==> Last(gates) < threshold)
    {
      RunOfInit(gates, threshold, a, b);
    }
    forall a: nat | MaximalRun(init, threshold, a, n) ensures a == since {
      OnlyStart(init, threshold, a);
    }
  }

  lemma SwapOne<T>(s: set<T>, x: T, y: T)
    requires y !in s && x != y
    ensures |s - {x} + {y}| == |s| + (if x in s then 0 else 1)
  {
    if x !in s {
      assert s - {x} == s;
    }
    assert y !in s - {x};
  }

  lemma OpenRunListed(gates: seq<u16>, threshold: u16)
    ensures (OpenSince(gates, threshold), |gates|) in MaximalRuns(gates, threshold) <==> OpenAtEnd(gates, threshold)
    ensures (OpenSince(gates, threshold), |gates| + 1) !in MaximalRuns(gates, threshold)
  {
    OpenSinceMeaning(gates, threshold, OpenSince(gates, threshold));
  }

  /** The count is that of the maximal runs of active gates. */
  lemma {:induction false} RunCountMeaning(gates: seq<u16>, threshold: u16)
    ensures RunCount(gates, threshold) == |MaximalRuns(gates, threshold)|
  {
    if gates == [] {
      assert MaximalRuns(gates, threshold) == {};
    } else {
      var init, since := Init(gates), OpenSince(Init(gates), threshold);
      RunCountMeaning(init, threshold);
      RunsOfInit(gates, threshold);
      OpenRunListed(init, threshold);
      SwapOne(MaximalRuns(init, threshold), (since, |gates| - 1), (since, |gates|));
    }
  }

  // ---------------------------------------------------------------------------
  // Derived metrics
  // ---------------------------------------------------------------------------

  /** Energy near the antenna that the reported distance does not explain. */
  predicate NearFieldClutterSeen(m: Derived, e: EnergyFrame)
    requires |e.gates| == GATE_COUNT
  {
    && m.energyBased && 0 <= m.dominantIndex <= 1 && m.totalEnergy != 0
    && e.distanceCm > 0 && m.dominantDistance >= 0
    && e.distanceCm - m.dominantDistance >= 105
    && (BandShare(m, e) >= 55
        || (PeakShare(m) >= 45 && m.dominantEnergy > Neighborhood(e, ReportedGate(e.distanceCm))))
  }

  function BandShare(m: Derived, e: EnergyFrame): nat
    requires |e.gates| == GATE_COUNT && m.totalEnergy != 0
  {
    ((e.gates[0] as int) + (e.gates[1] as int) + (e.gates[2] as int)) * 100 / m.totalEnergy
  }

  function PeakShare(m: Derived): nat
    requires m.totalEnergy != 0
  {
    (m.dominantEnergy as int) * 100 / m.totalEnergy
  }

  function ReportedGate(distance: nat): nat {
    Min((distance + 35) / GATE_SIZE_CM, 15)
  }

  function Neighborhood(e: EnergyFrame, gate: nat): nat
    requires |e.gates| == GATE_COUNT && gate < GATE_COUNT
  {
    var here: int := e.gates[gate];
    var below: int := if gate > 0 then e.gates[gate - 1] else 0;
    var above: int := if gate < 15 then e.gates[gate + 1] else 0;
    here + below + above
  }

  /** One more person when at least half the gates are active and no single gate dominates. */
  function Bonus(active: nat, total: nat, peak: nat): nat {
    if active >= 8 && total >= peak * 3 then 1 else 0
  }

  /** The people seen before clutter is ruled out. */
  function Crowd(e: EnergyFrame): nat {
    var peak := Peak(e.gates);
    var active, runs := ActiveCount(e.gates, Threshold(peak)), RunCount(e.gates, Threshold(peak));
    if e.presence && peak > 0 then Min(Max(1, runs) + Bonus(active, Total(e.gates), peak), MAX_PEOPLE) else 0
  }

  function Activity(total: nat, active: nat, peak: nat): byte {
    Min(total / 300 + active * 6 + peak / 120, 100)
  }

  /** The metrics of an energy frame, in terms of its gates. */
  ghost predicate Measures(m: Derived, e: EnergyFrame) {
    && m.valid && m.energyBased
    && m.totalEnergy == Total(e.gates) && m.dominantEnergy == Peak(e.gates)
    && m.dominantIndex == PeakIndex(e.gates)
    && m.dominantDistance == (if m.dominantIndex >= 0 then m.dominantIndex * GATE_SIZE_CM + 35 else -1)
    && m.activeGates == ActiveCount(e.gates, Threshold(Peak(e.gates)))
    && m.activity == Activity(m.totalEnergy, m.activeGates, m.dominantEnergy)
  }

  /** Sum, peak and peak position in one pass; the sum fits 32 bits. */
  method ScanPeak(gates: seq<u16>) returns (total: nat, peak: u16, index: int)
    requires |gates| == GATE_COUNT
    ensures total == Total(gates) <= U32_MAX && peak == Peak(gates) && index == PeakIndex(gates)
  {
    total, peak, index := 0, 0, -1;
    for i := 0 to GATE_COUNT
      invariant total == Total(gates[..i]) && peak == Peak(gates[..i]) && index == PeakIndex(gates[..i])
    {
      Extended(gates, i);
      total := total + gates[i];
      if gates[i] > peak {
        peak, index := gates[i], i;
      }
    }
    assert gates[..GATE_COUNT] == gates;
    TotalBound(gates);
  }

  /** Active gates and clusters in one pass; both counters stay in 8 bits. */
  method CountActive(gates: seq<u16>, threshold: u16) returns (active: byte, clusters: byte)
    requires |gates| == GATE_COUNT
    ensures active == ActiveCount(gates, threshold) <= 16
    ensures clusters == RunCount(gates, threshold) == |MaximalRuns(gates, threshold)| <= 8
  {
    active, clusters := 0, 0;
    var open := false;
    for i := 0 to GATE_COUNT
      invariant active == ActiveCount(gates[..i], threshold) <= i
      invariant clusters == RunCount(gates[..i], threshold) <= i
      invariant open == OpenAtEnd(gates[..i], threshold)
    {
      Extended(gates, i);
      var gateActive := gates[i] >= threshold;
      if gateActive {
        active := active + 1;
      }
      if gateActive && !open {
        clusters := clusters + 1;
        open := true;
      } else if !gateActive {
        open := false;
      }
    }
    assert gates[..GATE_COUNT] == gates;
    CountBounds(gates, threshold);
    RunCountMeaning(gates, threshold);
  }

  method ApplyEnergyMetrics(e: EnergyFrame) returns (m: Derived)
    requires |e.gates| == GATE_COUNT
    ensures Measures(m, e) && m.people == Crowd(e)
  {
    var total, peak, index := ScanPeak(e.gates);
    var active, clusters := CountActive(e.gates, Threshold(peak));
    PeakMeaning(e.gates);
    var people: byte := 0;
    if e.presence && peak > 0 {
      people := Max(1, clusters);
      if active >= 8 && total >= (peak as int) * 3 {
        people := people + 1;
      }
      people := Min(people, MAX_PEOPLE);
    }
    m := Derived(true, true, people, active, index, if index >= 0 then index * GATE_SIZE_CM + 35 else -1,
                 peak, total, Activity(total, active, peak));
  }

  predicate WellFormed(frame: Option<Frame>) {
    frame.Some? && frame.value.Energy? ==> |frame.value.energy.gates| == GATE_COUNT
  }

  /** The metrics a frame leads to, if any; without an energy frame they come from the text or
      from the presence pin. */
  ghost predicate Built(m: Derived, frame: Option<Frame>, gpio: bool)
    requires WellFormed(frame)
  {
    if frame.Some? && frame.value.Energy? then
      && Measures(m, frame.value.energy)
      && m.people == (if NearFieldClutterSeen(m, frame.value.energy) then 0 else Crowd(frame.value.energy))
    else
      var text := frame.Some? && frame.value.Text?;
      var here := if (if text then frame.value.presence else gpio) then 1 else 0;
      var range := if text then frame.value.rangeCm else None;
      && m.valid == (frame.Some? || gpio) && !m.energyBased && m.people == m.activeGates == here
      && m.dominantEnergy == m.totalEnergy == 0 && m.activity == here * (if text then 15 else 5)
      && m.dominantDistance == (if range.Some? then range.value else -1)
      && m.dominantIndex == (if range.Some? then Min(range.value / GATE_SIZE_CM, 15) else -1)
  }

  /** What the estimate means: the maximal runs of active gates, at least one, at most four,
      nobody when the frame reports none or looks like clutter. */
  method BuildMetrics(frame: Option<Frame>, gpio: bool) returns (m: Derived)
    requires WellFormed(frame)
    ensures Built(m, frame, gpio)
    ensures m.people <= 4 && m.activeGates <= 16 && m.activity <= 100 && m.totalEnergy <= U32_MAX
    ensures -1 <= m.dominantIndex < GATE_COUNT
  {
    if frame.Some? && frame.value.Energy? {
      var e := frame.value.energy;
      m := ApplyEnergyMetrics(e);
      CountBounds(e.gates, Threshold(Peak(e.gates)));
      TotalBound(e.gates);
      PeakMeaning(e.gates);
      if NearFieldClutterSeen(m, e) {
        m := m.(people := 0);
      }
    } else if frame.Some? && frame.value.Text? {
      var here := if frame.value.presence then 1 else 0;
      var range := frame.value.rangeCm;
      m := Derived(true, false, here, here,
                   if range.Some? then Min(range.value / GATE_SIZE_CM, 15) else -1,
                   if range.Some? then range.value else -1, 0, 0, here * 15);
    } else {
      var here := if gpio then 1 else 0;
      m := Derived(frame.Some? || gpio, false, here, here, -1, -1, 0, 0, here * 5);
    }
  }

  /** A loud enough peak is itself in a run, so the estimate starts from one only for quiet frames. */
  lemma LoudPeakHasRun(gates: seq<u16>)
    ensures RunCount(gates, Threshold(Peak(gates))) >= 1 <==> Peak(gates) >= 25
  {
    PeakMeaning(gates);
    var t := Threshold(Peak(gates));
    RunsExist(gates, t);
    if Peak(gates) >= 25 {
      assert gates[PeakIndex(gates)] >= t;
    }
  }

  lemma {:induction false} RunsExist(gates: seq<u16>, threshold: u16)
    ensures RunCount(gates, threshold) >= 1 <==> exists i :: 0 <= i < |gates| && gates[i] >= threshold
  {
    if gates != [] {
      var init := Init(gates);
      RunsExist(init, threshold);
      assert forall i :: 0 <= i < |init| ==> gates[i] == init[i];
      if Last(gates) >= threshold {
        assert gates[|gates| - 1] >= threshold;
        if OpenAtEnd(init, threshold) {
          assert init[|init| - 1] >= threshold;
        }
      }
    }
  }

  // ---------------------------------------------------------------------------
  // Thresholds
  // ---------------------------------------------------------------------------

  /** A percentage between 140, at sensitivity 10 and below, and 50, at 100 and above. */
  function Percentage(sensitivity: nat): (p: nat)
    ensures 50 <= p <= 140
  {
    150 - Max(10, Min(sensitivity, 100))
  }

  function Share(setting: nat, percentage: nat): nat {
    setting * percentage / 100
  }

  /** Higher sensitivity asks for less. */
  function Scaled(setting: nat, sensitivity: nat): nat {
    Share(setting, Percentage(sensitivity))
  }

  /** The result is cut to 16 bits. */
  function EffectiveMinGateEnergy(setting: u16, sensitivity: byte): u16 {
    Max(Scaled(setting, sensitivity), 10) % 0x1_0000
  }

  function EffectiveMinActivity(setting: byte, sensitivity: byte): byte {
    Max(1, Min(Scaled(setting, sensitivity), 100))
  }

  lemma ShareGrows(setting: nat, p: nat, q: nat)
    requires p <= q
    ensures Share(setting, p) <= Share(setting, q)
  {
    var less, more := setting * p, setting * q;
    assert less <= more by {
      assert more - less == setting * (q - p);
    }
    assert less / 100 <= more / 100;
  }

  lemma ScaledFalls(setting: nat, s: nat, t: nat)
    requires s <= t
    ensures Scaled(setting, t) <= Scaled(setting, s) <= Share(setting, 140)
  {
    ShareGrows(setting, Percentage(t), Percentage(s));
    ShareGrows(setting, Percentage(s), 140);
  }

  ghost predicate ThresholdFalls(setting: u16) {
    forall s: byte, t: byte :: s <= t ==> EffectiveMinGateEnergy(setting, t) <= EffectiveMinGateEnergy(setting, s)
  }

  /** The energy threshold falls as sensitivity rises exactly when it is never cut. */
  lemma ThresholdFallsExactly(setting: u16)
    ensures ThresholdFalls(setting) <==> setting <= 46811
  {
    if setting <= 46811 {
      forall s: byte, t: byte | s <= t
        ensures EffectiveMinGateEnergy(setting, t) <= EffectiveMinGateEnergy(setting, s)
      {
        ScaledFalls(setting, s, t);
        ScaledFalls(setting, t, t);
      }
    } else {
      ThresholdJumps(setting);
    }
  }

  /** Above the limit the least sensitive setting has the lower threshold. */
  lemma ThresholdJumps(setting: u16)
    requires setting > 46811
    ensures EffectiveMinGateEnergy(setting, 10) < EffectiveMinGateEnergy(setting, 100)
  {
    assert Scaled(setting, 10) == setting * 140 / 100;
    assert Scaled(setting, 100) == setting * 50 / 100;
  }

  // ---------------------------------------------------------------------------
  // The decision
  // ---------------------------------------------------------------------------

  function MinTotal(minEnergy: nat, minActiveGates: nat): nat {
    minEnergy * Max(minActiveGates, 1)
  }

  function Decide(m: Derived, frame: Option<Frame>, t: Tuning): Decision
    requires WellFormed(frame)
  {
    var minActivity := EffectiveMinActivity(t.minActivity, t.sensitivity);
    var minEnergy := EffectiveMinGateEnergy(t.minGateEnergy, t.sensitivity);
    if !m.valid then InvalidMetrics
    else if m.dominantDistance >= 0 && m.dominantDistance > t.maxRange then OutOfRange
    else if m.activeGates < t.minActiveGates then InsufficientActiveGates
    else if m.activity < minActivity then LowActivity
    else if m.energyBased && !(frame.Some? && frame.value.Energy?) then MissingEnergyFrame
    else if m.energyBased && m.dominantEnergy < minEnergy && m.totalEnergy < MinTotal(minEnergy, t.minActiveGates)
    then LowEnergy
    else if m.energyBased && NearFieldClutterSeen(m, frame.value.energy) then NearFieldClutter
    else if m.people > 0 || m.activity >= minActivity then Candidate
    else LowActivity
  }

  /** Loud enough: by its dominant gate, or by all gates together. */
  ghost predicate Loud(m: Derived, t: Tuning) {
    var wanted := EffectiveMinGateEnergy(t.minGateEnergy, t.sensitivity);
    m.dominantEnergy >= wanted || m.totalEnergy >= MinTotal(wanted, t.minActiveGates)
  }

  /** What makes a candidate, in whatever order it is looked at; in particular the number of
      people plays no part. */
  lemma CandidateExactly(m: Derived, frame: Option<Frame>, t: Tuning)
    requires WellFormed(frame)
    ensures Decide(m, frame, t).Candidate? <==>
      && m.valid && m.dominantDistance <= t.maxRange && m.activeGates >= t.minActiveGates
      && m.activity >= EffectiveMinActivity(t.minActivity, t.sensitivity)
      && (m.energyBased ==>
            frame.Some? && frame.value.Energy? && Loud(m, t) && !NearFieldClutterSeen(m, frame.value.energy))
    ensures forall people: byte :: Decide(m.(people := people), frame, t) == Decide(m, frame, t)
  {
    forall people: byte ensures Decide(m.(people := people), frame, t) == Decide(m, frame, t) {
      if frame.Some? && frame.value.Energy? {
        assert NearFieldClutterSeen(m.(people := people), frame.value.energy)
          == NearFieldClutterSeen(m, frame.value.energy);
      }
    }
  }

  /** Whatever the firmware sees at one sensitivity it still sees at a higher one. */
  ghost predicate SensitivityHelps(t: Tuning) {
    forall m: Derived, frame: Option<Frame>, gpio: bool, low: byte, high: byte ::
      low <= high && WellFormed(frame) && Built(m, frame, gpio)
      && Decide(m, frame, t.(sensitivity := low)).Candidate?
      ==> Decide(m, frame, t.(sensitivity := high)).Candidate?
  }

  /** With a threshold that is not cut, or without an energy frame, a candidate stays one,
      whatever its metrics. */
  lemma StaysCandidate(m: Derived, frame: Option<Frame>, t: Tuning, low: byte, high: byte)
    requires low <= high && (t.minGateEnergy <= 46811 || !m.energyBased)
    requires WellFormed(frame)
    requires Decide(m, frame, t.(sensitivity := low)).Candidate?
    ensures Decide(m, frame, t.(sensitivity := high)).Candidate?
  {
    ScaledFalls(t.minActivity, low, high);
    if t.minGateEnergy <= 46811 {
      ThresholdFallsExactly(t.minGateEnergy);
      var before, after := EffectiveMinGateEnergy(t.minGateEnergy, low), EffectiveMinGateEnergy(t.minGateEnergy, high);
      assert after <= before;
      MinTotalGrows(after, before, t.minActiveGates);
    }
  }

  lemma MinTotalGrows(a: nat, b: nat, gates: nat)
    requires a <= b
    ensures MinTotal(a, gates) <= MinTotal(b, gates)
  {
  }

  lemma {:induction false} SilentGates(gates: seq<u16>)
    requires Peak(gates) == 0
    ensures Total(gates) == 0 && ActiveCount(gates, ACTIVE_GATE_FLOOR) == 0
  {
    if gates != [] {
      SilentGates(Init(gates));
    }
  }

  /** The nearest gate lies 35 cm away, and there are sixteen: a tuning that asks for less range
      or more gates rejects every energy frame. */
  lemma BlindToEnergy(m: Derived, e: EnergyFrame, t: Tuning)
    requires |e.gates| == GATE_COUNT && Measures(m, e)
    requires t.maxRange < 35 || t.minActiveGates > 16
    ensures !Decide(m, Some(Energy(e)), t).Candidate?
  {
    PeakMeaning(e.gates);
    CountBounds(e.gates, Threshold(Peak(e.gates)));
    if Peak(e.gates) == 0 {
      SilentGates(e.gates);
    }
  }

  /** Raising the sensitivity never loses a candidate, exactly when the threshold is not cut or
      the tuning rejects energy frames altogether. */
  lemma SensitivityHelpsExactly(t: Tuning)
    ensures SensitivityHelps(t) <==> t.minGateEnergy <= 46811 || t.maxRange < 35 || t.minActiveGates > 16
  {
    if t.minGateEnergy <= 46811 || t.maxRange < 35 || t.minActiveGates > 16 {
      forall m: Derived, frame: Option<Frame>, gpio: bool, low: byte, high: byte |
        low <= high && WellFormed(frame) && Built(m, frame, gpio)
        && Decide(m, frame, t.(sensitivity := low)).Candidate?
        ensures Decide(m, frame, t.(sensitivity := high)).Candidate?
      {
        HelpsOne(m, frame, gpio, t, low, high);
      }
    } else {
      var m, e := LosesCandidate(t);
      assert Built(m, Some(Energy(e)), false);
    }
  }

  lemma HelpsOne(m: Derived, frame: Option<Frame>, gpio: bool, t: Tuning, low: byte, high: byte)
    requires t.minGateEnergy <= 46811 || t.maxRange < 35 || t.minActiveGates > 16
    requires low <= high && WellFormed(frame) && Built(m, frame, gpio)
    requires Decide(m, frame, t.(sensitivity := low)).Candidate?
    ensures Decide(m, frame, t.(sensitivity := high)).Candidate?
  {
    if t.minGateEnergy > 46811 && m.energyBased {
      BlindToEnergy(m, frame.value.energy, t.(sensitivity := low));
    }
    StaysCandidate(m, frame, t, low, high);
  }

  // ---------------------------------------------------------------------------
  // A frame that is lost
  // ---------------------------------------------------------------------------

  /** The first gate at the peak, the next ones at a fifth of it, the others silent. */
  function Row(peak: u16, active: nat, length: nat): seq<u16> {
    seq(length, i requires 0 <= i < length => if i == 0 then peak else if i < active then peak / 5 else 0)
  }

  lemma MinTotalNext(wanted: nat, gates: nat)
    requires gates > 0
    ensures MinTotal(wanted, gates + 1) == MinTotal(wanted, gates) + wanted
  {
  }

  lemma {:induction false} RowMetrics(peak: u16, active: nat, length: nat, wanted: nat)
    requires 125 <= peak < wanted && 1 <= active && 1 <= length
    ensures var row := Row(peak, active, length);
      && Peak(row) == peak && PeakIndex(row) == 0
      && ActiveCount(row, peak / 5) == Min(active, length)
      && peak <= Total(row) < MinTotal(wanted, Min(active, length))
  {
    var row := Row(peak, active, length);
    if length == 1 {
      assert Init(row) == [];
    } else {
      assert Init(row) == Row(peak, active, length - 1);
      RowMetrics(peak, active, length - 1, wanted);
      MinTotalNext(wanted, Min(active, length - 1));
    }
  }

  /** The energy metrics, as a value. */
  ghost function EnergyMetrics(e: EnergyFrame): (m: Derived)
    requires |e.gates| == GATE_COUNT
    ensures Built(m, Some(Energy(e)), false)
  {
    CountBounds(e.gates, Threshold(Peak(e.gates)));
    var index, active := PeakIndex(e.gates), ActiveCount(e.gates, Threshold(Peak(e.gates)));
    var m := Derived(true, true, Crowd(e), active, index, if index >= 0 then index * GATE_SIZE_CM + 35 else -1,
                     Peak(e.gates), Total(e.gates), Activity(Total(e.gates), active, Peak(e.gates)));
    if NearFieldClutterSeen(m, e) then m.(people := 0) else m
  }

  /** For every other tuning the firmware can receive a frame, with somebody present, that is a
      candidate at ten percent and too quiet at a hundred: its loudest gate is one below the
      full threshold, and no more gates are active than asked for. */
  lemma LosesCandidate(t: Tuning) returns (m: Derived, e: EnergyFrame)
    requires t.minGateEnergy > 46811 && t.maxRange >= 35 && t.minActiveGates <= 16
    ensures e.length == FRAME_LENGTH && |e.gates| == GATE_COUNT && e.presence && Built(m, Some(Energy(e)), false)
    ensures Decide(m, Some(Energy(e)), t.(sensitivity := 10)).Candidate?
    ensures Decide(m, Some(Energy(e)), t.(sensitivity := 100)).LowEnergy?
  {
    var wanted, active := EffectiveMinGateEnergy(t.minGateEnergy, 100), Max(t.minActiveGates, 1);
    ThresholdJumps(t.minGateEnergy);
    FullThreshold(t.minGateEnergy);
    e := EnergyFrame(FRAME_LENGTH, 35, true, 0, Row(wanted - 1, active, GATE_COUNT));
    m := EnergyMetrics(e);
    RowMetrics(wanted - 1, active, GATE_COUNT, wanted);
  }

  lemma FullThreshold(setting: u16)
    requires setting > 46811
    ensures 23406 <= EffectiveMinGateEnergy(setting, 100) <= 0x8000
  {
    assert Scaled(setting, 100) == setting * 50 / 100;
  }
}
