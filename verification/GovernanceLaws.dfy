/** The governance loop in numbers: what the readings come to, how far each value moves, and what the guard wants. */
module GovernanceLaws {
  import opened Common
  import opened GridArithmetic
  import opened Governance
  import opened GovernanceRuns

  // Readings

  /** A metric that is missing counts as 1. */
  lemma {:induction false} MissingIsPerfect(metrics: map<Metric, real>, m: Metric)
    requires m !in metrics
    ensures Evaluate(metrics) == Evaluate(metrics[m := 10000.0])
  {
    var full := metrics[m := 10000.0];
    assert forall k :: Reading(metrics, k) == Reading(full, k);
  }

  /** The pressure is what the lower of stability and confidence lacks to 1, the gaps what each lacks to 0.7, the
      fragmentation what the consensus strength lacks to 1. */
  lemma {:induction false} EvaluateIs(metrics: map<Metric, real>, stability: int, confidence: int, strength: int)
    requires Stability in metrics && metrics[Stability] == stability as real
    requires Confidence in metrics && metrics[Confidence] == confidence as real
    requires ConsensusStrength in metrics && metrics[ConsensusStrength] == strength as real
    ensures var e := Evaluate(metrics);
      && e.driftPressure == (if stability <= confidence && stability < 10000 then 10000 - stability
                             else if confidence < stability && confidence < 10000 then 10000 - confidence else 0)
      && e.stabilityGap == (if stability < 7000 then 7000 - stability else 0)
      && e.confidenceGap == (if confidence < 7000 then 7000 - confidence else 0)
      && e.fragmentation == (if strength < 10000 then 10000 - strength else 0)
      && e.stability == stability as real && e.confidence == confidence as real
      && e.consensusStrength == strength as real
      && (ReplayAccuracy in metrics ==> e.replayAccuracy == metrics[ReplayAccuracy])
  {
    RoundWhole(0);
    RoundWhole(10000 - stability);
    RoundWhole(10000 - confidence);
    RoundWhole(7000 - stability);
    RoundWhole(7000 - confidence);
    RoundWhole(10000 - strength);
  }

  // Steps

  /** Under pressure above one half a value goes up by a tenth, at most to 1; otherwise down by a tenth. */
  lemma {:induction false} ClampIs(v: real, tens: int, drift: int)
    requires 0 <= tens && v == (10 * tens) as real
    ensures drift > 5000 && 11 * tens <= 10000 ==> ClampChange(v, drift) == (11 * tens) as real
    ensures drift > 5000 && 11 * tens > 10000 ==> ClampChange(v, drift) == 10000.0
    ensures drift <= 5000 ==> ClampChange(v, drift) == (9 * tens) as real
  {
    assert v * 0.1 == tens as real;
    RoundWhole(11 * tens);
    RoundWhole(10000);
    RoundWhole(9 * tens);
  }

  /** In general a value goes to the nearest grid point of that. */
  lemma {:induction false} ClampIsNearest(v: real, drift: int)
    requires 0.0 <= v
    ensures OnGrid(ClampChange(v, drift))
    ensures drift > 5000 && 1.1 * v <= 10000.0 ==> -0.5 <= ClampChange(v, drift) - 1.1 * v <= 0.5
    ensures drift > 5000 && 1.1 * v >= 10000.0 ==> ClampChange(v, drift) == 10000.0
    ensures drift <= 5000 ==> -0.5 <= ClampChange(v, drift) - 0.9 * v <= 0.5
  {
    RoundWhole(10000);
  }

  /** From a pressure of a tenth on a weight moves like any other value; below, it loses as much of itself as the
      pressure says. */
  lemma {:induction false} NudgeIs(w: real, drift: int)
    ensures drift >= 1000 ==> Nudge(w, drift) == ClampChange(w, drift)
    ensures 0 <= drift <= 1000 ==> Nudge(10000.0, drift) == (10000 - drift) as real
  {
    RoundWhole(10000 - drift);
    assert drift >= 1000 ==> Rate(drift) == 0.1;
    if 0 <= drift <= 1000 {
      assert Rate(drift) == drift as real / 10000.0;
      assert 10000.0 * Rate(drift) == drift as real;
    }
  }

  /** Two weights of 0.95 and 0.05 under a pressure of 0.6: the first is cut at 1, so the second gains on it. */
  lemma {:induction false} UnevenWeights(ws: seq<Setting>)
    requires |ws| == 2 && ws[0].value == 9500.0 && ws[1].value == 500.0
    ensures var r := AdaptedWeights(ws, 6000);
      && |r| == 2 && r[0] == Setting(ws[0].key, 9479.0) && r[1] == Setting(ws[1].key, 521.0)
  {
    var n := Nudged(ws, 6000);
    NudgeIs(ws[0].value, 6000);
    NudgeIs(ws[1].value, 6000);
    ClampIs(9500.0, 950, 6000);
    ClampIs(500.0, 50, 6000);
    TotalOfTwo(n);
    RoundIs(10000.0 * ONE / 10550.0, 9479);
    RoundIs(550.0 * ONE / 10550.0, 521);
  }

  lemma {:induction false} TotalOfTwo(ws: seq<Setting>)
    requires |ws| == 2
    ensures Total(ws) == ws[0].value + ws[1].value
  {
    var one := ws[..1];
    var none := one[..0];
    assert Total(none) == 0.0;
    assert Total(one) == ws[0].value;
  }

  lemma {:induction false} RoundIs(x: real, n: int)
    requires -0.5 < x - n as real < 0.5
    ensures Round(x) == n
  {
    RoundAtMost(x, n);
    RoundAtMost(x, n - 1);
  }

  /** Every named threshold keeps its name and moves by itself. */
  lemma {:induction false} ThresholdsMove(ts: seq<Setting>, drift: int, i: nat, tens: int)
    requires i < |ts| && 0 <= tens && ts[i].value == (10 * tens) as real
    ensures |AdaptedThresholds(ts, drift)| == |ts|
    ensures AdaptedThresholds(ts, drift)[i] == Setting(ts[i].key,
      if drift <= 5000 then (9 * tens) as real else if 11 * tens <= 10000 then (11 * tens) as real else 10000.0)
  {
    ClampIs(ts[i].value, tens, drift);
  }

  // Ticks

  /** The guard in numbers: the same version, steps of at most 0.10, values from 0 to 1, stability not above
      confidence; and no proposal is never approved. */
  lemma {:induction false} ApprovesMeans(s: GovernanceState, p: GovernanceState)
    ensures !Approves(s, None)
    ensures Approves(s, Some(p)) <==>
      && p.version == s.version
      && s.drift - 1000.0 <= p.drift <= s.drift + 1000.0 && 0.0 <= p.drift <= 10000.0
      && s.confidence - 1000.0 <= p.confidence <= s.confidence + 1000.0 && 0.0 <= p.confidence <= 10000.0
      && s.stability - 1000.0 <= p.stability <= s.stability + 1000.0 && 0.0 <= p.stability <= 10000.0
      && p.stability <= p.confidence
  {
  }

  /** One tick of a state in steps of ten, with all readings given: it stands still below a stability of 0.7, or
      when the pressure or what is lacking in consensus does not compare with the tolerance as it must, and
      otherwise all three thresholds move together. */
  lemma {:induction false} TickIs(s: GovernanceState, metrics: map<Metric, real>, stability: int, confidence: int,
                                  strength: int, drift: int, conf: int, stab: int)
    requires Stability in metrics && metrics[Stability] == stability as real
    requires Confidence in metrics && metrics[Confidence] == confidence as real
    requires ConsensusStrength in metrics && metrics[ConsensusStrength] == strength as real
    requires stability <= 10000 && confidence <= 10000 && strength <= 10000
    requires 0 <= drift <= 1000 && 0 <= stab <= conf <= 1000
    requires s.drift == (10 * drift) as real && s.confidence == (10 * conf) as real
    requires s.stability == (10 * stab) as real
    ensures var t := Ticked(s, metrics);
      var pressure := 10000 - (if stability <= confidence then stability else confidence);
      if stability < 7000 || 10000 - strength > 10 * drift || pressure <= 10 * drift then t == s
      else
        && t.version == s.version
        && t.drift == StepOfTens(drift, pressure) && t.confidence == StepOfTens(conf, pressure)
        && t.stability == StepOfTens(stab, pressure)
        && t.weights == AdaptedWeights(s.weights, pressure) && t.thresholds == AdaptedThresholds(s.thresholds, pressure)
  {
    EvaluateIs(metrics, stability, confidence, strength);
    var e := Evaluate(metrics);
    assert OnGrid(s.drift) && OnGrid(s.confidence) && OnGrid(s.stability);
    GridNeverRoundsTooFar(s.confidence);
    GridNeverRoundsTooFar(s.stability);
    ProposalApproved(s, e);
    ClampIs(s.drift, drift, e.driftPressure);
    ClampIs(s.confidence, conf, e.driftPressure);
    ClampIs(s.stability, stab, e.driftPressure);
  }

  ghost function StepOfTens(tens: int, pressure: int): real {
    if pressure <= 5000 then (9 * tens) as real else if 11 * tens <= 10000 then (11 * tens) as real else 10000.0
  }
}
