/** When the guard approves everything the engine proposes, and what every run of the loop keeps. */
module GovernanceRuns {
  import opened Common
  import opened GridArithmetic
  import opened Governance

  /** Bounds and order; what the guard demands of a proposal by itself. */
  predicate WellFormed(s: GovernanceState) {
    InUnit(s.drift) && InUnit(s.confidence) && InUnit(s.stability) && s.stability <= s.confidence
  }

  predicate StateOnGrid(s: GovernanceState) {
    OnGrid(s.drift) && OnGrid(s.confidence) && OnGrid(s.stability)
  }

  /** A value just above a grid point near 1, from which rounding makes a downward step longer than 0.10. */
  predicate RoundsTooFar(v: real) {
    var k := 10000 - v.Floor;
    var part := v - v.Floor as real;
    part > 0.0 && (9.0 * part < (5 - k) as real || (9.0 * part == (5 - k) as real && k % 2 == 0))
  }

  lemma {:induction false} RoundAtMost(x: real, n: int)
    ensures Round(x) <= n <==> x < n as real + 0.5 || (x == n as real + 0.5 && n % 2 == 0)
  {
    if x.Floor < n {
      assert x < n as real;
    } else if x.Floor > n {
      assert x >= (n + 1) as real;
    }
  }

  lemma {:induction false} MovedIsMonotone(a: real, da: real, b: real, db: real, drift: int)
    requires a + da <= b + db && a - da <= b - db
    ensures Moved(a, da, drift) <= Moved(b, db, drift)
  {
    RoundIsMonotone(Min(ONE, a + da), Min(ONE, b + db));
    RoundIsMonotone(Max(0.0, a - da), Max(0.0, b - db));
  }

  lemma {:induction false} ClampIsMonotone(a: real, b: real, drift: int)
    requires a <= b
    ensures ClampChange(a, drift) <= ClampChange(b, drift)
  {
    MovedIsMonotone(a, a * 0.1, b, b * 0.1, drift);
  }

  lemma {:induction false} ClampStaysInUnit(v: real, drift: int)
    requires InUnit(v)
    ensures InUnit(ClampChange(v, drift)) && OnGrid(ClampChange(v, drift))
  {
    RoundBetween(Min(ONE, v + v * 0.1), 0, 10000);
    RoundBetween(Max(0.0, v - v * 0.1), 0, 10000);
  }

  /** The guard's step bound fails for exactly the downward steps that round too far. */
  lemma {:induction false} StepIsNearIff(v: real, drift: int)
    requires InUnit(v)
    ensures Near(ClampChange(v, drift), v) <==> drift > 5000 || !RoundsTooFar(v)
  {
    if drift > 5000 {
      RoundWhole(10000);
    } else {
      var k := 10000 - v.Floor;
      RoundAtMost(0.9 * v, 9000 - k);
      RoundAtMost(0.9 * v, 8999 - k);
      assert Max(0.0, v - v * 0.1) == 0.9 * v;
    }
  }

  lemma {:induction false} GridNeverRoundsTooFar(v: real)
    requires OnGrid(v) || v <= 9995.0
    ensures !RoundsTooFar(v)
  {
  }

  /** A single proposal, from a well-formed state. */
  lemma {:induction false} ProposalApproved(s: GovernanceState, e: Evaluation)
    requires WellFormed(s)
    requires s.drift < 5000.0 ==> !RoundsTooFar(s.confidence) && !RoundsTooFar(s.stability)
    ensures Approves(s, Some(Evolved(s, e)))
  {
    if !Frozen(s, e) {
      var d := e.driftPressure;
      ClampStaysInUnit(s.drift, d);
      ClampStaysInUnit(s.confidence, d);
      ClampStaysInUnit(s.stability, d);
      ClampIsMonotone(s.stability, s.confidence, d);
      StepIsNearIff(s.drift, d);
      StepIsNearIff(s.confidence, d);
      StepIsNearIff(s.stability, d);
      if d <= 5000 {
        GridNeverRoundsTooFar(s.drift);
      }
    }
  }

  ghost predicate AlwaysApproved(s: GovernanceState) {
    forall metrics :: Approves(s, Some(Evolved(s, Evaluate(metrics))))
  }

  /** The guard approves every proposal, whatever the metrics, exactly from these states. */
  lemma {:induction false} AlwaysApprovedIff(s: GovernanceState)
    ensures AlwaysApproved(s) <==>
      && WellFormed(s)
      && (s.drift < 5000.0 ==> !RoundsTooFar(s.confidence) && !RoundsTooFar(s.stability))
  {
    if AlwaysApproved(s) {
      assert Frozen(s, Evaluate(map[Stability := 0.0]));
      var calm := Evaluate(map[Confidence := 5000.0]);
      RoundWhole(5000);
      RoundWhole(0);
      assert calm.driftPressure == 5000 && calm.fragmentation == 0 && calm.stability == ONE;
      StepIsNearIff(s.confidence, 5000);
      StepIsNearIff(s.stability, 5000);
    } else {
      var metrics :| !Approves(s, Some(Evolved(s, Evaluate(metrics))));
      if WellFormed(s) && (s.drift < 5000.0 ==> !RoundsTooFar(s.confidence) && !RoundsTooFar(s.stability)) {
        ProposalApproved(s, Evaluate(metrics));
      }
    }
  }

  /** With thresholds of 0.99972 a downward step is rejected: it would come to 0.10002. */
  lemma {:induction false} OffGridCanBeRejected(s: GovernanceState)
    requires s.drift == 1000.0 && s.confidence == 9997.2 && s.stability == 9997.2
    ensures WellFormed(s) && !AlwaysApproved(s)
  {
    assert 9997.2.Floor == 9997;
    AlwaysApprovedIff(s);
  }

  function RunFrom(s: GovernanceState, history: seq<map<Metric, real>>): GovernanceState {
    if history == [] then s
    else Ticked(RunFrom(s, history[..|history| - 1]), history[|history| - 1])
  }

  /** From any state whatsoever: one tick moves each threshold by at most 0.10 and never the version. */
  lemma {:induction false} TickIsBounded(s: GovernanceState, metrics: map<Metric, real>)
    ensures var t := Ticked(s, metrics);
      && t.version == s.version
      && Near(t.drift, s.drift) && Near(t.confidence, s.confidence) && Near(t.stability, s.stability)
      && (WellFormed(s) ==> WellFormed(t))
      && (WellFormed(s) && StateOnGrid(s) ==> StateOnGrid(t))
      && (t != s ==> WellFormed(t))
  {
    var e := Evaluate(metrics);
    if WellFormed(s) && !Frozen(s, e) {
      ClampStaysInUnit(s.drift, e.driftPressure);
      ClampStaysInUnit(s.confidence, e.driftPressure);
      ClampStaysInUnit(s.stability, e.driftPressure);
    }
  }

  /** Every run keeps the bounds, the order and the version. */
  lemma {:induction false} EveryRunIsSafe(s: GovernanceState, history: seq<map<Metric, real>>)
    requires WellFormed(s)
    ensures WellFormed(RunFrom(s, history)) && RunFrom(s, history).version == s.version
    ensures StateOnGrid(s) ==> StateOnGrid(RunFrom(s, history))
  {
    if history != [] {
      var n := |history| - 1;
      EveryRunIsSafe(s, history[..n]);
      TickIsBounded(RunFrom(s, history[..n]), history[n]);
    }
  }

  /** From a well-formed state on the grid no proposal is ever rejected, however long the run. */
  lemma {:induction false} NoRunIsRejected(s: GovernanceState, history: seq<map<Metric, real>>)
    requires WellFormed(s) && StateOnGrid(s)
    ensures AlwaysApproved(RunFrom(s, history))
  {
    EveryRunIsSafe(s, history);
    var t := RunFrom(s, history);
    GridNeverRoundsTooFar(t.confidence);
    GridNeverRoundsTooFar(t.stability);
    AlwaysApprovedIff(t);
  }

  /** A grid value stands still in a step exactly when a tenth of it rounds away, or at the top. */
  lemma {:induction false} StandsStillIff(v: real, drift: int)
    requires InUnit(v) && OnGrid(v)
    ensures ClampChange(v, drift) == v <==> v <= 4.0 || (drift > 5000 && v == ONE)
  {
    if drift > 5000 {
      StandsStillUp(v);
    } else {
      StandsStillDown(v);
    }
  }

  lemma {:induction false} StandsStillUp(v: real)
    requires InUnit(v) && OnGrid(v)
    ensures Round(Min(ONE, v + v * 0.1)) as real == v <==> v <= 4.0 || v == ONE
  {
    RoundAtMost(Min(ONE, v + v * 0.1), v.Floor);
    RoundAtMost(Min(ONE, v + v * 0.1), v.Floor - 1);
  }

  lemma {:induction false} StandsStillDown(v: real)
    requires InUnit(v) && OnGrid(v)
    ensures Round(Max(0.0, v - v * 0.1)) as real == v <==> v <= 4.0
  {
    assert Max(0.0, v - v * 0.1) == v - v * 0.1;
    RoundAtMost(v - v * 0.1, v.Floor);
    RoundAtMost(v - v * 0.1, v.Floor - 1);
  }

  lemma {:induction false} StepDirection(v: real, drift: int)
    requires InUnit(v) && OnGrid(v)
    ensures if drift > 5000 then ClampChange(v, drift) >= v else ClampChange(v, drift) <= v
  {
    RoundWhole(v.Floor);
    RoundIsMonotone(v, Min(ONE, v + v * 0.1));
    RoundIsMonotone(Max(0.0, v - v * 0.1), v);
  }

  /**
   What a tick does to a well-formed grid state: nothing under instability, fragmentation or low pressure; otherwise
   pressure above one half raises all three thresholds and lower pressure lowers them.
   */
  lemma {:induction false} TickDirection(s: GovernanceState, metrics: map<Metric, real>)
    requires WellFormed(s) && StateOnGrid(s)
    ensures var t, e := Ticked(s, metrics), Evaluate(metrics);
      if Reading(metrics, Stability) < 7000.0 || e.fragmentation as real > s.drift || e.driftPressure as real <= s.drift
      then t == s
      else if e.driftPressure > 5000
      then t.drift >= s.drift && t.confidence >= s.confidence && t.stability >= s.stability
      else t.drift <= s.drift && t.confidence <= s.confidence && t.stability <= s.stability
  {
    var e := Evaluate(metrics);
    StepDirection(s.drift, e.driftPressure);
    StepDirection(s.confidence, e.driftPressure);
    StepDirection(s.stability, e.driftPressure);
  }

  // Weights

  ghost predicate NonNegative(ws: seq<Setting>) {
    forall i :: 0 <= i < |ws| ==> ws[i].value >= 0.0
  }

  lemma {:induction false} ScaleIsMonotone(a: real, b: real, c: real)
    requires a <= b && c >= 0.0
    ensures a * c <= b * c
  {
  }

  lemma {:induction false} QuotientIsMonotone(a: real, b: real, c: real)
    requires a <= b && c > 0.0
    ensures a / c <= b / c
  {
  }

  lemma {:induction false} DifferenceScales(a: real, b: real, r: real)
    ensures (b - a) * r == b * r - a * r
  {
  }

  lemma {:induction false} ShareOfGap(gap: real, r: real)
    requires gap >= 0.0 && 0.0 <= r <= 0.1
    ensures 0.0 <= gap * r <= gap
  {
    ScaleIsMonotone(0.0, gap, r);
    ScaleIsMonotone(0.0, gap, 1.0 - r);
    DifferenceScales(r, 1.0, gap);
    assert gap * r == r * gap && gap * (1.0 - r) == (1.0 - r) * gap;
  }

  /** Steps that differ by less than what they start from keep the order, up or down. */
  lemma {:induction false} BoundedSteps(a: real, b: real, low: real, high: real, share: real)
    requires share == high - low && 0.0 <= share <= b - a
    ensures a + low <= b + high && a - low <= b - high
  {
  }

  lemma {:induction false} StepIsMonotone(a: real, b: real, r: real)
    requires a <= b && 0.0 <= r <= 0.1
    ensures a + a * r <= b + b * r && a - a * r <= b - b * r
  {
    DifferenceScales(a, b, r);
    ShareOfGap(b - a, r);
    BoundedSteps(a, b, a * r, b * r, (b - a) * r);
  }

  lemma {:induction false} MovedByIsMonotone(a: real, b: real, r: real, drift: int)
    requires a <= b && 0.0 <= r <= 0.1
    ensures MovedBy(a, r, drift) <= MovedBy(b, r, drift)
  {
    StepIsMonotone(a, b, r);
    MovedIsMonotone(a, a * r, b, b * r, drift);
  }

  lemma {:induction false} NudgeIsMonotone(a: real, b: real, drift: int)
    requires a <= b && drift >= 0
    ensures Nudge(a, drift) <= Nudge(b, drift)
  {
    MovedByIsMonotone(a, b, Rate(drift), drift);
  }

  lemma {:induction false} NudgeZero(drift: int)
    ensures Nudge(0.0, drift) == 0.0
  {
    assert 0.0 * Rate(drift) == 0.0;
    RoundWhole(0);
  }

  lemma {:induction false} ShareIsMonotone(a: real, b: real, total: real)
    requires a <= b && total > 0.0
    ensures Share(a, total) <= Share(b, total)
  {
    QuotientIsMonotone(a * ONE, b * ONE, total);
    RoundIsMonotone(a * ONE / total, b * ONE / total);
  }

  /** Adaptation never turns two weights around. */
  lemma {:induction false} WeightsKeepOrder(ws: seq<Setting>, drift: int, i: nat, j: nat)
    requires drift >= 0 && i < |ws| && j < |ws| && ws[i].value <= ws[j].value
    ensures AdaptedWeights(ws, drift)[i].value <= AdaptedWeights(ws, drift)[j].value
  {
    NudgeIsMonotone(ws[i].value, ws[j].value, drift);
    var nudged := Nudged(ws, drift);
    if Total(nudged) > 0.0 {
      ShareIsMonotone(nudged[i].value, nudged[j].value, Total(nudged));
    }
  }

  lemma {:induction false} WeightsStayNonNegative(ws: seq<Setting>, drift: int)
    requires drift >= 0 && NonNegative(ws)
    ensures NonNegative(AdaptedWeights(ws, drift)) && NonNegative(Nudged(ws, drift))
  {
    NudgeZero(drift);
    var nudged := Nudged(ws, drift);
    forall i | 0 <= i < |ws|
      ensures nudged[i].value >= 0.0 && AdaptedWeights(ws, drift)[i].value >= 0.0
    {
      NudgeIsMonotone(0.0, ws[i].value, drift);
      if Total(nudged) > 0.0 {
        ShareIsMonotone(0.0, nudged[i].value, Total(nudged));
        assert 0.0 * ONE / Total(nudged) == 0.0;
        RoundWhole(0);
      }
    }
  }

  lemma {:induction false} QuotientAdds(a: real, b: real, c: real)
    requires c > 0.0
    ensures (a + b) / c == a / c + b / c
  {
  }

  /** The rounded shares of a prefix differ from its exact share by half a unit for each weight. */
  lemma {:induction false} SharesTotal(ws: seq<Setting>, total: real)
    requires total > 0.0
    ensures -0.5 * |ws| as real <= Total(Shares(ws, total)) - Total(ws) * ONE / total <= 0.5 * |ws| as real
  {
    if ws == [] {
      assert 0.0 * ONE / total == 0.0;
    } else {
      var n := |ws| - 1;
      SharesTotal(ws[..n], total);
      assert Shares(ws, total)[..n] == Shares(ws[..n], total);
      QuotientAdds(Total(ws[..n]) * ONE, ws[n].value * ONE, total);
      assert Total(ws) * ONE == Total(ws[..n]) * ONE + ws[n].value * ONE;
    }
  }

  lemma {:induction false} WholeIsOne(t: real)
    requires t > 0.0
    ensures t * ONE / t == ONE
  {
  }

  lemma {:induction false} TotalBoundsEach(ws: seq<Setting>, i: nat)
    requires NonNegative(ws) && i < |ws|
    ensures Total(ws) >= ws[i].value
    ensures Total(ws) >= 0.0
  {
    var n := |ws| - 1;
    TotalIsNonNegative(ws[..n]);
    if i < n {
      TotalBoundsEach(ws[..n], i);
    }
  }

  lemma {:induction false} TotalIsNonNegative(ws: seq<Setting>)
    requires NonNegative(ws)
    ensures Total(ws) >= 0.0
  {
    if ws != [] {
      TotalIsNonNegative(ws[..|ws| - 1]);
    }
  }

  /** Non-negative weights come out all zero, or summing to 1 up to half a unit for each weight. */
  lemma {:induction false} AdaptedWeightsSumToOne(ws: seq<Setting>, drift: int)
    requires drift >= 0 && NonNegative(ws)
    ensures (forall i :: 0 <= i < |ws| ==> AdaptedWeights(ws, drift)[i].value == 0.0)
      || -0.5 * |ws| as real <= Total(AdaptedWeights(ws, drift)) - ONE <= 0.5 * |ws| as real
  {
    var nudged := Nudged(ws, drift);
    WeightsStayNonNegative(ws, drift);
    if Total(nudged) > 0.0 {
      SharesTotal(nudged, Total(nudged));
      WholeIsOne(Total(nudged));
    } else {
      forall i | 0 <= i < |ws|
        ensures nudged[i].value == 0.0
      {
        TotalBoundsEach(nudged, i);
      }
    }
  }

  /** Over every run, weights and named thresholds keep their names, and weights their order and sign. */
  lemma {:induction false} EveryRunKeepsWeightOrder(s: GovernanceState, history: seq<map<Metric, real>>, i: nat, j: nat)
    requires i < |s.weights| && j < |s.weights| && 0.0 <= s.weights[i].value <= s.weights[j].value
    ensures var t := RunFrom(s, history);
      && |t.weights| == |s.weights|
      && t.weights[i].key == s.weights[i].key && t.weights[j].key == s.weights[j].key
      && (NonNegative(s.weights) ==> NonNegative(t.weights))
      && t.weights[i].value <= t.weights[j].value
  {
    if history != [] {
      var n := |history| - 1;
      EveryRunKeepsWeightOrder(s, history[..n], i, j);
      var t := RunFrom(s, history[..n]);
      var d := Evaluate(history[n]).driftPressure;
      WeightsKeepOrder(t.weights, d, i, j);
      if NonNegative(s.weights) {
        WeightsStayNonNegative(t.weights, d);
      }
    }
  }

  /** The named thresholds are not guarded, and keep to [0, 1] and to their order all the same. */
  lemma {:induction false} EveryRunKeepsThresholds(s: GovernanceState, history: seq<map<Metric, real>>, i: nat, j: nat)
    requires i < |s.thresholds| && j < |s.thresholds|
    requires InUnit(s.thresholds[i].value) && InUnit(s.thresholds[j].value)
    requires s.thresholds[i].value <= s.thresholds[j].value
    ensures var t := RunFrom(s, history);
      && |t.thresholds| == |s.thresholds| && t.thresholds[i].key == s.thresholds[i].key
      && InUnit(t.thresholds[i].value) && InUnit(t.thresholds[j].value)
      && t.thresholds[i].value <= t.thresholds[j].value
  {
    if history != [] {
      var n := |history| - 1;
      EveryRunKeepsThresholds(s, history[..n], i, j);
      var t := RunFrom(s, history[..n]);
      var d := Evaluate(history[n]).driftPressure;
      ClampStaysInUnit(t.thresholds[i].value, d);
      ClampStaysInUnit(t.thresholds[j].value, d);
      ClampIsMonotone(t.thresholds[i].value, t.thresholds[j].value, d);
    }
  }
}
