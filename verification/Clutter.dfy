/** Near-field clutter and the reasons for a rejection, in terms of the frame and the tuning. */
module Clutter {
  import opened Wrappers
  import opened Metrics
  import opened RadarFrame
  import opened Radar

  /** Gate g is the one whose middle, 70 g cm away, is nearest; the last one is for all beyond. */
  ghost predicate NearestGate(g: nat, distance: nat) {
    g < 16 && (g == 0 || 70 * g <= distance + 35) && (g == 15 || distance + 35 < 70 * (g + 1))
  }

  lemma ReportedIsNearest(distance: nat, g: nat)
    ensures NearestGate(g, distance) <==> g == ReportedGate(distance)
  {
  }

  /** The energy of gates a to b. */
  ghost function Band(gates: seq<u16>, a: nat, b: nat): nat
    requires a <= b <= |gates|
  {
    Total(gates[a..b])
  }

  lemma {:induction false} BandNext(gates: seq<u16>, a: nat, b: nat)
    requires a <= b < |gates|
    ensures Band(gates, a, b + 1) == Band(gates, a, b) + gates[b] && Band(gates, a, a) == 0
  {
    assert Init(gates[a..b + 1]) == gates[a..b] && Last(gates[a..b + 1]) == gates[b];
  }

  lemma FirstThree(gates: seq<u16>)
    requires |gates| == 16
    ensures Band(gates, 0, 3) == (gates[0] as int) + (gates[1] as int) + (gates[2] as int)
  {
    BandNext(gates, 0, 0);
    BandNext(gates, 0, 1);
    BandNext(gates, 0, 2);
  }

  /** Gate g and its neighbours. */
  ghost function Around(gates: seq<u16>, g: nat): nat
    requires g < |gates|
  {
    Band(gates, if g == 0 then 0 else g - 1, if g + 2 <= |gates| then g + 2 else |gates|)
  }

  lemma AroundGate(e: EnergyFrame, g: nat)
    requires |e.gates| == GATE_COUNT && g < GATE_COUNT
    ensures Neighborhood(e, g) == Around(e.gates, g)
  {
    var a := if g == 0 then 0 else g - 1;
    if g > 0 {
      BandNext(e.gates, a, g - 1);
    }
    BandNext(e.gates, a, g);
    if g < 15 {
      BandNext(e.gates, a, g + 1);
    }
  }

  lemma ShareExactly(part: nat, total: nat, percent: nat)
    requires total > 0
    ensures part * 100 / total >= percent <==> part * 100 >= percent * total
  {
    var q := part * 100 / total;
    assert part * 100 == q * total + part * 100 % total;
    if q >= percent {
      assert q * total >= percent * total;
    } else {
      assert (q + 1) * total <= percent * total;
    }
  }

  /** A frame looks like clutter exactly when its loudest gate is one of the nearest two, the
      distance it reports lies at least 105 cm behind that gate, and either the nearest three
      gates hold 55 percent of the energy, or the loudest holds 45 percent and is louder than
      the gates around the reported distance together. */
  lemma ClutterExactly(m: Derived, e: EnergyFrame, g: nat)
    requires |e.gates| == GATE_COUNT && Measures(m, e) && NearestGate(g, e.distanceCm)
    ensures NearFieldClutterSeen(m, e) <==>
      var loudest, total := PeakIndex(e.gates), Total(e.gates);
      && (loudest == 0 || loudest == 1) && e.distanceCm >= 70 * loudest + 140
      && (|| 100 * Band(e.gates, 0, 3) >= 55 * total
          || (100 * e.gates[loudest] >= 45 * total && e.gates[loudest] > Around(e.gates, g)))
  {
    PeakMeaning(e.gates);
    TotalCovers(e.gates);
    ReportedIsNearest(e.distanceCm, g);
    FirstThree(e.gates);
    AroundGate(e, g);
    if m.totalEnergy > 0 {
      ShareExactly(Band(e.gates, 0, 3), m.totalEnergy, 55);
      ShareExactly(m.dominantEnergy, m.totalEnergy, 45);
    }
  }

  lemma {:induction false} TotalCovers(gates: seq<u16>)
    ensures Peak(gates) <= Total(gates)
  {
    if gates != [] {
      TotalCovers(Init(gates));
    }
  }

  // ---------------------------------------------------------------------------
  // Effective settings
  // ---------------------------------------------------------------------------

  /** From 10 to 100 percent a setting counts (150 - sensitivity) percent, and outside that
      range as at its ends. */
  lemma EffectiveSettings(energy: u16, activity: byte, sensitivity: byte)
    ensures var percent := if sensitivity < 10 then 140 else if sensitivity <= 100 then 150 - sensitivity else 50;
      var wanted, score := energy * percent / 100, activity * percent / 100;
      && EffectiveMinGateEnergy(energy, sensitivity) == (if wanted < 10 then 10 else wanted % 65536)
      && EffectiveMinActivity(activity, sensitivity) == (if score < 1 then 1 else if score <= 100 then score else 100)
  {
  }

  /** A gate is active when it reaches 25 and a fifth of the loudest. */
  lemma ActiveExactly(gate: u16, peak: u16)
    ensures gate >= Threshold(peak) <==> gate >= 25 && 5 * (gate + 1) > peak
  {
  }

  /** The activity score: a point for 300 of energy, six for a gate, one for 120 of the peak. */
  lemma ScoreExactly(total: nat, active: nat, peak: nat)
    ensures var score := total / 300 + peak / 120 + 6 * active;
      Activity(total, active, peak) == if score <= 100 then score else 100
  {
  }

  /** Loud enough is the loudest gate alone, or all gates together as loud as all that are
      asked for. */
  lemma LoudExactly(m: Derived, t: Tuning)
    ensures var wanted := EffectiveMinGateEnergy(t.minGateEnergy, t.sensitivity);
      Loud(m, t) <==>
        m.dominantEnergy >= wanted || m.totalEnergy >= (if t.minActiveGates == 0 then wanted else wanted * t.minActiveGates)
  {
  }

  // ---------------------------------------------------------------------------
  // The reasons
  // ---------------------------------------------------------------------------

  ghost predicate TooFar(m: Derived, t: Tuning) { m.dominantDistance >= 0 && m.dominantDistance > t.maxRange }

  ghost predicate TooCalm(m: Derived, t: Tuning) { m.activity < EffectiveMinActivity(t.minActivity, t.sensitivity) }

  /** The first test that fails names the reason, and every rejection has one. */
  lemma ReasonExactly(m: Derived, frame: Option<Frame>, t: Tuning)
    requires WellFormed(frame)
    ensures var d := Decide(m, frame, t);
      && (d.InvalidMetrics? <==> !m.valid)
      && (d.OutOfRange? <==> m.valid && TooFar(m, t))
      && (d.InsufficientActiveGates? <==> m.valid && !TooFar(m, t) && m.activeGates < t.minActiveGates)
      && (d.LowActivity? <==> m.valid && !TooFar(m, t) && m.activeGates >= t.minActiveGates && TooCalm(m, t))
    ensures var d := Decide(m, frame, t);
      m.valid && !TooFar(m, t) && m.activeGates >= t.minActiveGates && !TooCalm(m, t) ==>
      && (d.MissingEnergyFrame? <==> m.energyBased && !(frame.Some? && frame.value.Energy?))
      && (d.LowEnergy? <==> m.energyBased && frame.Some? && frame.value.Energy? && !Loud(m, t))
      && (d.NearFieldClutter? <==> m.energyBased && frame.Some? && frame.value.Energy? && Loud(m, t)
                                   && NearFieldClutterSeen(m, frame.value.energy))
  {
  }
}
