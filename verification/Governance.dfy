/** The governance evolution loop: evaluate the metrics, propose a new state, let the guard decide, commit. */
module Governance {
  import opened Common
  import opened GridArithmetic

  /** A named weight or threshold, in the order of the dictionary that holds it. */
  datatype Setting = Setting(key: string, value: real)

  /** All values in units of 1/10000. */
  datatype GovernanceState = GovernanceState(version: string, weights: seq<Setting>, thresholds: seq<Setting>,
                                             drift: real, confidence: real, stability: real)

  datatype Metric = Stability | Confidence | ConsensusStrength | ReplayAccuracy

  datatype Evaluation = Evaluation(driftPressure: int, stabilityGap: int, confidenceGap: int, fragmentation: int,
                                   replayAccuracy: real, stability: real, confidence: real, consensusStrength: real)

  /** A missing metric reads as perfect. */
  function Reading(metrics: map<Metric, real>, m: Metric): real {
    if m in metrics then metrics[m] else ONE
  }

  /** Gaps and pressures are never negative, and vanish exactly for readings that round to no gap. */
  function Evaluate(metrics: map<Metric, real>): (e: Evaluation)
    ensures 0 <= e.driftPressure && 0 <= e.fragmentation && 0 <= e.stabilityGap && 0 <= e.confidenceGap
    ensures e.driftPressure == 0 <==> Reading(metrics, Stability) >= 9999.5 && Reading(metrics, Confidence) >= 9999.5
    ensures e.fragmentation == 0 <==> Reading(metrics, ConsensusStrength) >= 9999.5
    ensures metrics == map[] ==> e == Evaluation(0, 0, 0, 0, ONE, ONE, ONE, ONE)
  {
    var stability := Reading(metrics, Stability);
    var confidence := Reading(metrics, Confidence);
    var strength := Reading(metrics, ConsensusStrength);
    Evaluation(Round(Max(0.0, ONE - Min(stability, confidence))),
               Round(Max(0.0, 7000.0 - stability)),
               Round(Max(0.0, 7000.0 - confidence)),
               Round(Max(0.0, ONE - strength)),
               Reading(metrics, ReplayAccuracy), stability, confidence, strength)
  }

  /** Up under strong drift, down otherwise; capped on its side and rounded. */
  function Moved(value: real, delta: real, drift: int): real {
    if drift > 5000 then Round(Min(ONE, value + delta)) as real
    else Round(Max(0.0, value - delta)) as real
  }

  function ClampChange(value: real, drift: int): real {
    Moved(value, value * 0.1, drift)
  }

  function Rate(drift: int): real {
    Min(drift as real / ONE, 0.1)
  }

  function MovedBy(weight: real, rate: real, drift: int): real {
    Moved(weight, weight * rate, drift)
  }

  function Nudge(weight: real, drift: int): real {
    MovedBy(weight, Rate(drift), drift)
  }

  function Total(ws: seq<Setting>): real {
    if ws == [] then 0.0 else Total(ws[..|ws| - 1]) + ws[|ws| - 1].value
  }

  function Share(value: real, total: real): real
    requires total > 0.0
  {
    Round(value * ONE / total) as real
  }

  function Nudged(ws: seq<Setting>, drift: int): seq<Setting> {
    seq(|ws|, i requires 0 <= i < |ws| => ws[i].(value := Nudge(ws[i].value, drift)))
  }

  function Shares(ws: seq<Setting>, total: real): seq<Setting>
    requires total > 0.0
  {
    seq(|ws|, i requires 0 <= i < |ws| => ws[i].(value := Share(ws[i].value, total)))
  }

  function AdaptedWeights(ws: seq<Setting>, drift: int): seq<Setting> {
    var nudged := Nudged(ws, drift);
    if Total(nudged) > 0.0 then Shares(nudged, Total(nudged)) else nudged
  }

  function AdaptedThresholds(ts: seq<Setting>, drift: int): seq<Setting> {
    seq(|ts|, i requires 0 <= i < |ts| => ts[i].(value := ClampChange(ts[i].value, drift)))
  }

  /** Unstable, fragmented or calm: nothing evolves. */
  predicate Frozen(s: GovernanceState, e: Evaluation) {
    e.stability < 7000.0 || e.fragmentation as real > s.drift || e.driftPressure as real <= s.drift
  }

  function Evolved(s: GovernanceState, e: Evaluation): GovernanceState {
    if Frozen(s, e) then s
    else
      GovernanceState(s.version, AdaptedWeights(s.weights, e.driftPressure),
                      AdaptedThresholds(s.thresholds, e.driftPressure),
                      ClampChange(s.drift, e.driftPressure), ClampChange(s.confidence, e.driftPressure),
                      ClampChange(s.stability, e.driftPressure))
  }

  method NudgeAll(ws: seq<Setting>, drift: int) returns (result: seq<Setting>)
    ensures result == Nudged(ws, drift)
  {
    result := ws;
    for i := 0 to |ws|
      invariant |result| == |ws|
      invariant forall j :: 0 <= j < |ws| ==> result[j] == if j < i then Nudged(ws, drift)[j] else ws[j]
    {
      result := result[i := result[i].(value := Nudge(result[i].value, drift))];
    }
  }

  method AdaptWeights(ws: seq<Setting>, drift: int) returns (result: seq<Setting>)
    ensures result == AdaptedWeights(ws, drift)
  {
    if ws == [] {
      return ws;
    }
    var nudged := NudgeAll(ws, drift);
    var total := 0.0;
    for i := 0 to |nudged|
      invariant total == Total(nudged[..i])
    {
      assert nudged[..i + 1][..i] == nudged[..i];
      total := total + nudged[i].value;
    }
    assert nudged[..|nudged|] == nudged;
    result := nudged;
    if total > 0.0 {
      result := [];
      for i := 0 to |nudged|
        invariant |result| == i
        invariant forall j :: 0 <= j < i ==> result[j] == Shares(nudged, total)[j]
      {
        result := result + [nudged[i].(value := Round(nudged[i].value * ONE / total) as real)];
      }
    }
  }

  method AdaptThresholds(ts: seq<Setting>, drift: int) returns (result: seq<Setting>)
    ensures result == AdaptedThresholds(ts, drift)
  {
    if ts == [] {
      return ts;
    }
    result := ts;
    for i := 0 to |ts|
      invariant |result| == |ts| && result[i..] == ts[i..]
      invariant result[..i] == AdaptedThresholds(ts, drift)[..i]
    {
      result := result[i := result[i].(value := ClampChange(result[i].value, drift))];
    }
  }

  method Evolve(s: GovernanceState, e: Evaluation) returns (proposed: GovernanceState)
    ensures proposed == Evolved(s, e)
  {
    if e.stability < 7000.0 {
      return s;
    }
    if e.fragmentation as real > s.drift {
      return s;
    }
    var drift := e.driftPressure;
    if drift as real <= s.drift {
      return s;
    }
    var weights := AdaptWeights(s.weights, drift);
    var thresholds := AdaptThresholds(s.thresholds, drift);
    return GovernanceState(s.version, weights, thresholds, ClampChange(s.drift, drift),
                           ClampChange(s.confidence, drift), ClampChange(s.stability, drift));
  }

  predicate Near(a: real, b: real) {
    -1000.0 <= a - b <= 1000.0
  }

  predicate InUnit(x: real) {
    0.0 <= x <= ONE
  }

  /** The guard: the version is frozen, steps are at most 0.10, values stay in [0, 1], stability below confidence. */
  predicate Approves(current: GovernanceState, proposed: Option<GovernanceState>) {
    proposed.Some? &&
    var p := proposed.value;
    && current.version == p.version
    && Near(p.drift, current.drift) && Near(p.confidence, current.confidence) && Near(p.stability, current.stability)
    && InUnit(p.drift) && InUnit(p.confidence) && InUnit(p.stability)
    && p.stability <= p.confidence
  }

  /** One cycle of the loop. */
  function Ticked(s: GovernanceState, metrics: map<Metric, real>): GovernanceState {
    var proposed := Evolved(s, Evaluate(metrics));
    if Approves(s, Some(proposed)) then proposed else s
  }

  class AdaptiveGovernanceLoop {
    var state: GovernanceState
    var cycleCount: nat
    var lastRejectionReason: Option<string>

    constructor (initial: GovernanceState)
      ensures state == initial && cycleCount == 0 && lastRejectionReason == None
    {
      state, cycleCount, lastRejectionReason := initial, 0, None;
    }

    method Tick(metrics: map<Metric, real>) returns (s: GovernanceState)
      modifies this
      ensures s == state == Ticked(old(state), metrics)
      ensures cycleCount == old(cycleCount) + 1
      ensures lastRejectionReason == None <==> Approves(old(state), Some(Evolved(old(state), Evaluate(metrics))))
      ensures lastRejectionReason != None ==> lastRejectionReason == Some("guard_rejected") && state == old(state)
    {
      cycleCount := cycleCount + 1;
      lastRejectionReason := None;
      var proposed := Evolve(state, Evaluate(metrics));
      if !Approves(state, Some(proposed)) {
        lastRejectionReason := Some("guard_rejected");
        return state;
      }
      if proposed != state {
        state := proposed;
      }
      return state;
    }
  }
}
