/** Weighted voting on schema versions: the dominant version, its strength, and the conflicts that are reported. */
module Consensus {
  import opened Common
  import opened Versions
  import opened EvolutionGraphs
  import opened Migrations
  import opened MigrationEngines
  import opened Ballots
  import opened ConflictResolvers
  import opened Sorting

  datatype Reason =
    | NoProposals
    | BelowThreshold(weight: real)
    | CloseMargin(dominant: Version, other: Version, diff: real)
    | UnknownSchema(version: Version)
    | OrphanSchema(version: Version)
    | IncompatiblePath(from: Version, to: Version)

  datatype ConsensusResult = ConsensusResult(agreed: Version, participating: seq<NodeId>, rejected: seq<NodeId>,
                                             strength: real, reasons: seq<Reason>)

  const CONSENSUS_THRESHOLD := 0.7
  const CONFLICT_MARGIN := 0.05

  /** Full for the current version, half ahead of it, and three tenths less for each step behind it. */
  ghost function Freshness(g: Registry, current: Version, v: Version): real
    requires ParentsFirst(g)
  {
    if v == current then 1.0
    else if current in Ancestors(g, v) then 0.5
    else if v in Ancestors(g, current) then
      var depth := IndexOf(Ancestors(g, current), v) + 1;
      if 1.0 - depth as real * 0.3 > 0.1 then 1.0 - depth as real * 0.3 else 0.1
    else 0.0
  }

  ghost function WeightIn(g: Registry, current: Version): Proposal -> real
    requires ParentsFirst(g)
  {
    (p: Proposal) => p.stability * 0.4 + p.confidence * 0.4 + Freshness(g, current, p.version) * 0.2
  }

  /** A version with its average weight and its nodes. */
  datatype Score = Score(version: Version, weight: real, nodes: seq<NodeId>)

  predicate AtLeastAsHeavy(a: Score, b: Score) {
    a.weight >= b.weight
  }

  ghost function ScoreOf(ps: seq<Proposal>, v: Version, weight: Proposal -> real): Score {
    Score(v, Average(GroupOf(ps, v), weight), NodesIn(GroupOf(ps, v)))
  }

  ghost function ScoreIn(ps: seq<Proposal>, weight: Proposal -> real): Version -> Score {
    v => ScoreOf(ps, v, weight)
  }

  ghost function ScoresOf(keys: seq<Version>, score: Version -> Score): seq<Score> {
    if keys == [] then [] else ScoresOf(keys[..|keys| - 1], score) + [score(keys[|keys| - 1])]
  }

  lemma {:induction false} ScoresOfLonger(keys: seq<Version>, i: nat, score: Version -> Score)
    requires i < |keys|
    ensures ScoresOf(keys[..i + 1], score) == ScoresOf(keys[..i], score) + [score(keys[i])]
  {
    assert keys[..i + 1][..i] == keys[..i];
  }

  // The reports, in the order of the scores

  function CloseMargins(dominant: Score, rest: seq<Score>): seq<Reason> {
    if rest == [] then []
    else
      var n := |rest| - 1;
      CloseMargins(dominant, rest[..n])
      + if dominant.weight - rest[n].weight < CONFLICT_MARGIN
        then [CloseMargin(dominant.version, rest[n].version, dominant.weight - rest[n].weight)] else []
  }

  function Unknowns(g: Registry, dominant: Version, scores: seq<Score>): seq<Reason> {
    if scores == [] then []
    else
      var n := |scores| - 1;
      var v := scores[n].version;
      Unknowns(g, dominant, scores[..n]) + if v != dominant && v !in g.values then [UnknownSchema(v)] else []
  }

  /** What the path from one version to the dominant one gives to report; None stands for an error. */
  ghost function PathReport(g: Registry, dominant: Version): Version -> Option<seq<Reason>>
    requires ParentsFirst(g)
  {
    (v: Version) =>
      if v == dominant then Some([])
      else
        match IsBackwardCompatible(v, dominant)
        case Err(_) => None
        case Ok(true) => Some([])
        case Ok(false) => Some(if Supported(g, v, dominant) then [] else [IncompatiblePath(v, dominant)])
  }

  ghost function Collected(scores: seq<Score>, report: Version -> Option<seq<Reason>>): Option<seq<Reason>> {
    if scores == [] then Some([])
    else
      var n := |scores| - 1;
      var before, last := Collected(scores[..n], report), report(scores[n].version);
      if before == None || last == None then None else Some(before.value + last.value)
  }

  ghost function Incompatibles(g: Registry, dominant: Version, scores: seq<Score>): Option<seq<Reason>>
    requires ParentsFirst(g)
  {
    Collected(scores, PathReport(g, dominant))
  }

  function NodesOf(scores: seq<Score>): seq<NodeId> {
    if scores == [] then [] else NodesOf(scores[..|scores| - 1]) + scores[|scores| - 1].nodes
  }

  /** From the sorted scores to the result; None stands for an error. */
  ghost function Concluded(g: Registry, current: Version, ps: seq<Proposal>,
                           sorted: seq<Score>): Option<ConsensusResult>
    requires ParentsFirst(g) && sorted != []
  {
    var dominant := sorted[0];
    if dominant.weight < CONSENSUS_THRESHOLD then
      Some(ConsensusResult(current, dominant.nodes, NodesOf(sorted[1..]), dominant.weight,
                           [BelowThreshold(dominant.weight)]))
    else
      match Incompatibles(g, dominant.version, sorted)
      case None => None
      case Some(incompatible) =>
        Some(ConsensusResult(
               dominant.version, dominant.nodes, Filter(NodesIn(ps), n => n !in dominant.nodes), dominant.weight,
               CloseMargins(dominant, sorted[1..]) + Unknowns(g, dominant.version, sorted) + incompatible))
  }

  ghost function SortedScores(g: Registry, current: Version, ps: seq<Proposal>): seq<Score>
    requires ParentsFirst(g)
  {
    StableSort(ScoresOf(VersionsOf(ps), ScoreIn(ps, WeightIn(g, current))), AtLeastAsHeavy)
  }

  ghost function Agreed(g: Registry, current: Version, ps: seq<Proposal>): Option<ConsensusResult>
    requires ParentsFirst(g)
  {
    var sorted := SortedScores(g, current, ps);
    if sorted == [] then Some(ConsensusResult(current, [], [], 0.0, [Reason.NoProposals]))
    else Concluded(g, current, ps, sorted)
  }

  class ConsensusEngine {
    const graph: EvolutionGraph
    const current: Version

    ghost predicate Valid()
      reads graph
    {
      graph.Valid()
    }

    constructor (graph: EvolutionGraph, current: Version)
      requires graph.Valid()
      ensures Valid() && this.graph == graph && this.current == current
    {
      this.graph := graph;
      this.current := current;
    }

    method GraphFreshness(version: Version) returns (freshness: real)
      requires Valid()
      ensures freshness == Freshness(graph.nodes, current, version)
    {
      if version == current {
        return 1.0;
      }
      var ahead := graph.GetAncestors(version);
      if current in ahead {
        return 0.5;
      }
      var behind := graph.GetAncestors(current);
      if version in behind {
        var depth := StepsBehind(version);
        return if 1.0 - depth as real * 0.3 > 0.1 then 1.0 - depth as real * 0.3 else 0.1;
      }
      return 0.0;
    }

    /** How many first parents lie between the current version and one of its ancestors. */
    method StepsBehind(version: Version) returns (depth: nat)
      requires Valid() && version in Ancestors(graph.nodes, current)
      ensures depth == IndexOf(Ancestors(graph.nodes, current), version) + 1
    {
      var path: seq<Version> := [];
      var v := current;
      while v != version
        invariant v == version || version in Ancestors(graph.nodes, v)
        invariant |path| + (if v == version then 0 else IndexOf(Ancestors(graph.nodes, v), version) + 1)
          == IndexOf(Ancestors(graph.nodes, current), version) + 1
        decreases if v in graph.nodes.keys then IndexOf(graph.nodes.keys, v) else 0
      {
        if v !in graph.nodes.values || graph.nodes.values[v].parents == [] {
          break;
        }
        FirstParentBefore(graph.nodes, v);
        v := graph.nodes.values[v].parents[0];
        path := path + [v];
      }
      return |path|;
    }

    method Weight(p: Proposal) returns (weight: real)
      requires Valid()
      ensures weight == WeightIn(graph.nodes, current)(p)
    {
      var freshness := GraphFreshness(p.version);
      return p.stability * 0.4 + p.confidence * 0.4 + freshness * 0.2;
    }

    method AverageWeight(group: seq<Proposal>) returns (average: real)
      requires Valid() && group != []
      ensures average == Average(group, WeightIn(graph.nodes, current))
    {
      var total := 0.0;
      for i := 0 to |group|
        invariant total == SumOf(group[..i], WeightIn(graph.nodes, current))
      {
        assert group[..i + 1][..i] == group[..i];
        var weight := Weight(group[i]);
        total := total + weight;
      }
      assert group[..|group|] == group;
      return total / |group| as real;
    }

    method Propose(ps: seq<Proposal>) returns (r: Option<ConsensusResult>)
      requires Valid()
      ensures r == Agreed(graph.nodes, current, ps)
    {
      SortedLength(graph.nodes, current, ps);
      if ps == [] {
        return Some(ConsensusResult(current, [], [], 0.0, [Reason.NoProposals]));
      }
      var groups := Group(ps);
      var scores := ScoreGroups(groups, ps);
      var sorted := StableSort(scores, AtLeastAsHeavy);
      r := Conclude(ps, sorted);
    }

    method ScoreGroups(groups: Groups, ghost ps: seq<Proposal>) returns (scores: seq<Score>)
      requires Valid() && IsGrouping(groups, ps)
      ensures scores == ScoresOf(groups.keys, ScoreIn(ps, WeightIn(graph.nodes, current)))
    {
      scores := [];
      var keys := groups.keys;
      ghost var score := ScoreIn(ps, WeightIn(graph.nodes, current));
      for i := 0 to |keys|
        invariant scores == ScoresOf(keys[..i], score)
      {
        ScoresOfLonger(keys, i, score);
        var next := ScoreGroup(groups, keys[i], ps);
        scores := scores + [next];
      }
      assert keys[..|keys|] == keys;
    }

    method ScoreGroup(groups: Groups, ver: Version, ghost ps: seq<Proposal>) returns (score: Score)
      requires Valid() && IsGrouping(groups, ps) && ver in groups.keys
      ensures score == ScoreIn(ps, WeightIn(graph.nodes, current))(ver)
    {
      GroupedVersions(ps, ver);
      var average := AverageWeight(groups.values[ver]);
      score := Score(ver, average, NodesIn(groups.values[ver]));
    }

    method Conclude(ps: seq<Proposal>, sorted: seq<Score>) returns (r: Option<ConsensusResult>)
      requires Valid() && sorted != []
      ensures r == Concluded(graph.nodes, current, ps, sorted)
    {
      var dominant := sorted[0];
      if dominant.weight < CONSENSUS_THRESHOLD {
        return Some(ConsensusResult(current, dominant.nodes, NodesOf(sorted[1..]), dominant.weight,
                                    [BelowThreshold(dominant.weight)]));
      }
      var close := ReportCloseMargins(dominant, sorted[1..]);
      var unknown := ReportUnknowns(dominant.version, sorted);
      var incompatible := ReportIncompatibles(dominant.version, sorted);
      if incompatible == None {
        return None;
      }
      return Some(ConsensusResult(dominant.version, dominant.nodes, Filter(NodesIn(ps), n => n !in dominant.nodes),
                                  dominant.weight, close + unknown + incompatible.value));
    }

    method ReportCloseMargins(dominant: Score, rest: seq<Score>) returns (reasons: seq<Reason>)
      ensures reasons == CloseMargins(dominant, rest)
    {
      reasons := [];
      for i := 0 to |rest|
        invariant reasons == CloseMargins(dominant, rest[..i])
      {
        assert rest[..i + 1][..i] == rest[..i];
        if dominant.weight - rest[i].weight < CONFLICT_MARGIN {
          reasons := reasons + [CloseMargin(dominant.version, rest[i].version, dominant.weight - rest[i].weight)];
        }
      }
      assert rest[..|rest|] == rest;
    }

    /** A registered version is never an orphan. */
    method ReportUnknowns(dominant: Version, scores: seq<Score>) returns (reasons: seq<Reason>)
      requires Valid()
      ensures reasons == Unknowns(graph.nodes, dominant, scores)
    {
      reasons := [];
      for i := 0 to |scores|
        invariant reasons == Unknowns(graph.nodes, dominant, scores[..i])
      {
        var ver := scores[i].version;
        assert scores[..i + 1][..i] == scores[..i];
        if ver == dominant {
          continue;
        }
        if ver !in graph.nodes.values {
          reasons := reasons + [UnknownSchema(ver)];
        } else {
          var orphan := graph.IsOrphan(ver);
          if orphan {
            reasons := reasons + [OrphanSchema(ver)];
          }
        }
      }
      assert scores[..|scores|] == scores;
    }

    method ReportIncompatibles(dominant: Version, scores: seq<Score>) returns (reasons: Option<seq<Reason>>)
      requires Valid()
      ensures reasons == Incompatibles(graph.nodes, dominant, scores)
    {
      reasons := Some([]);
      ghost var report := PathReport(graph.nodes, dominant);
      for i := 0 to |scores|
        invariant reasons.Some? && reasons == Collected(scores[..i], report)
      {
        assert scores[..i + 1][..i] == scores[..i];
        var more := ReportPath(dominant, scores[i].version);
        if more == None {
          CollectedNone(scores, report, i + 1);
          return None;
        }
        reasons := Some(reasons.value + more.value);
      }
      assert scores[..|scores|] == scores;
    }

    method ReportPath(dominant: Version, ver: Version) returns (reasons: Option<seq<Reason>>)
      requires Valid()
      ensures reasons == PathReport(graph.nodes, dominant)(ver)
    {
      if ver == dominant {
        return Some([]);
      }
      var compatible := IsBackwardCompatible(ver, dominant);
      if compatible.Err? {
        return None;
      }
      if !compatible.value {
        var possible := PathPossible(ver, dominant);
        if !possible {
          return Some([IncompatiblePath(ver, dominant)]);
        }
      }
      return Some([]);
    }

    /** An error while planning counts as no path. */
    method PathPossible(from: Version, to: Version) returns (possible: bool)
      requires Valid()
      ensures possible <==> Supported(graph.nodes, from, to)
    {
      var engine := new MigrationEngine(graph);
      var plan := engine.BuildPath(from, to);
      return plan.Ok? && plan.value.supported;
    }
  }

  lemma {:induction false} CollectedNone(scores: seq<Score>, report: Version -> Option<seq<Reason>>, i: nat)
    requires i <= |scores| && Collected(scores[..i], report) == None
    ensures Collected(scores, report) == None
  {
    if i == |scores| {
      assert scores[..i] == scores;
    } else {
      assert scores[..|scores| - 1][..i] == scores[..i];
      CollectedNone(scores[..|scores| - 1], report, i);
    }
  }

  lemma {:induction false} ScoresLength(keys: seq<Version>, score: Version -> Score)
    ensures |ScoresOf(keys, score)| == |keys|
    ensures forall i :: 0 <= i < |keys| ==> ScoresOf(keys, score)[i] == score(keys[i])
  {
    if keys != [] {
      ScoresLength(keys[..|keys| - 1], score);
    }
  }

  lemma {:induction false} SortedLength(g: Registry, current: Version, ps: seq<Proposal>)
    requires ParentsFirst(g)
    ensures |SortedScores(g, current, ps)| == |VersionsOf(ps)|
    ensures SortedScores(g, current, ps) == [] <==> ps == []
  {
    var scores := ScoresOf(VersionsOf(ps), ScoreIn(ps, WeightIn(g, current)));
    ScoresLength(VersionsOf(ps), ScoreIn(ps, WeightIn(g, current)));
    VersionsMembers(ps);
    var sorted := StableSort(scores, AtLeastAsHeavy);
    assert |sorted| == |multiset(sorted)| == |multiset(scores)| == |scores|;
  }

  lemma {:induction false} ConcludedFor(g: Registry, current: Version, ps: seq<Proposal>, sorted: seq<Score>)
    requires ParentsFirst(g) && sorted != []
    ensures Concluded(g, current, ps, sorted) == None <==>
      sorted[0].weight >= CONSENSUS_THRESHOLD && Incompatibles(g, sorted[0].version, sorted) == None
    ensures Concluded(g, current, ps, sorted).Some? ==>
      && Concluded(g, current, ps, sorted).value.strength == sorted[0].weight
      && Concluded(g, current, ps, sorted).value.agreed
        == if sorted[0].weight >= CONSENSUS_THRESHOLD then sorted[0].version else current
  {
  }
}
