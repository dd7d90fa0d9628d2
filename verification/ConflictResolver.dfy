/** Resolution of version conflicts between nodes, by newest version, stability or migration cost. */
module ConflictResolvers {
  import opened Common
  import opened OrderedDict
  import opened Versions
  import opened EvolutionGraphs
  import opened Migrations
  import opened MigrationEngines
  import opened Ballots
  import opened Sorting
  import Lexicographic

  datatype Strategy = VersionPriority | StabilityPriority | MigrationCostMinimization

  datatype Details =
    | NoProposals
    | Unanimous
    | Newest
    | NewestByTiebreak
    | MostStable(average: real)
    | Cheapest(cost: real)

  datatype ResolutionPlan = ResolutionPlan(chosen: Version, strategy: Strategy, participating: seq<NodeId>,
                                           rejected: seq<NodeId>, details: Details)

  type Groups = Dict<Version, seq<Proposal>>

  ghost predicate IsGrouping(groups: Groups, ps: seq<Proposal>) {
    && groups.keys == VersionsOf(ps)
    && forall v :: v in groups.keys ==> v in groups.values && groups.values[v] == GroupOf(ps, v)
  }

  // Who takes part

  function NodesIn(group: seq<Proposal>): seq<NodeId> {
    if group == [] then [] else NodesIn(group[..|group| - 1]) + [group[|group| - 1].node]
  }

  /** All proposals, group by group. */
  function Regrouped(ps: seq<Proposal>, keys: seq<Version>): seq<Proposal> {
    if keys == [] then [] else Regrouped(ps, keys[..|keys| - 1]) + GroupOf(ps, keys[|keys| - 1])
  }

  function PlanFor(ps: seq<Proposal>, chosen: Version, strategy: Strategy, details: Details): ResolutionPlan {
    var participating := NodesIn(GroupOf(ps, chosen));
    var all := NodesIn(Regrouped(ps, VersionsOf(ps)));
    ResolutionPlan(chosen, strategy, participating, Filter(all, n => n !in participating), details)
  }

  // Stability

  function StabilityOf(p: Proposal): real {
    p.stability
  }

  function StabilityStanding(ps: seq<Proposal>, v: Version): Standing {
    Standing(Average(GroupOf(ps, v), StabilityOf), LeastNode(GroupOf(ps, v)))
  }

  function StabilityStandings(ps: seq<Proposal>): Version -> Standing {
    v => StabilityStanding(ps, v)
  }

  /** The most stable version, if its average exceeds the initial -1. */
  function StabilityChoice(ps: seq<Proposal>): Option<Version>
    requires VersionsOf(ps) != []
  {
    var best := Best(VersionsOf(ps), StabilityStandings(ps));
    if StabilityStanding(ps, best).score > -1.0 then Some(best) else None
  }

  /** No choice, and the empty text, read as the current version. */
  function OrCurrent(choice: Option<Version>, current: Version): Version {
    if choice.Some? && choice.value.text != "" then choice.value else current
  }

  function StabilityPlan(ps: seq<Proposal>, current: Version): ResolutionPlan
    requires VersionsOf(ps) != []
  {
    var choice := StabilityChoice(ps);
    var average := if choice.Some? then StabilityStanding(ps, choice.value).score else -1.0;
    PlanFor(ps, OrCurrent(choice, current), StabilityPriority, MostStable(average))
  }

  // Migration cost

  /** What one other version adds to the cost of moving to v; nothing when a text on the way cannot be read. */
  ghost function PairCost(g: Registry, other: Version, v: Version): Option<real>
    requires ParentsFirst(g)
  {
    if other == v then Some(0.0)
    else
      match IsBackwardCompatible(other, v)
      case Err(_) => None
      case Ok(true) => Some(0.0)
      case Ok(false) =>
        match Planned(g, other, v)
        case Err(_) => None
        case Ok(plan) => Some(if plan.supported then |plan.steps| as real else 10.0)
  }

  ghost predicate ReadableTo(g: Registry, keys: seq<Version>, v: Version)
    requires ParentsFirst(g)
  {
    forall other :: other in keys ==> PairCost(g, other, v).Some?
  }

  ghost function Readability(g: Registry, keys: seq<Version>): Version -> bool
    requires ParentsFirst(g)
  {
    v => ReadableTo(g, keys, v)
  }

  ghost predicate HoldsUpTo(keys: seq<Version>, property: Version -> bool, n: nat) {
    n <= |keys| && forall j {:trigger keys[j]} :: 0 <= j < n ==> property(keys[j])
  }

  lemma {:induction false} HoldsOneMore(keys: seq<Version>, property: Version -> bool, n: nat)
    requires n < |keys| && HoldsUpTo(keys, property, n)
    ensures HoldsUpTo(keys, property, n + 1) <==> property(keys[n])
    ensures !property(keys[n]) ==> !HoldsUpTo(keys, property, |keys|)
  {
  }

  ghost predicate AllReadable(g: Registry, keys: seq<Version>)
    requires ParentsFirst(g)
  {
    HoldsUpTo(keys, Readability(g, keys), |keys|)
  }

  ghost function CostOf(g: Registry, v: Version): Version -> real
    requires ParentsFirst(g)
  {
    other => if PairCost(g, other, v).Some? then PairCost(g, other, v).value else 0.0
  }

  ghost function TotalCost(g: Registry, keys: seq<Version>, v: Version): real
    requires ParentsFirst(g)
  {
    SumOf(keys, CostOf(g, v))
  }

  ghost function CostStanding(g: Registry, ps: seq<Proposal>, v: Version): Standing
    requires ParentsFirst(g)
  {
    Standing(-TotalCost(g, VersionsOf(ps), v), LeastNode(GroupOf(ps, v)))
  }

  ghost function CostStandings(g: Registry, ps: seq<Proposal>): Version -> Standing
    requires ParentsFirst(g)
  {
    v => CostStanding(g, ps, v)
  }

  /** None stands for an error: some pair of versions cannot be compared. */
  ghost function CostPlan(g: Registry, ps: seq<Proposal>, current: Version): Option<ResolutionPlan>
    requires ParentsFirst(g) && VersionsOf(ps) != []
  {
    if !AllReadable(g, VersionsOf(ps)) then None
    else
      var best := Best(VersionsOf(ps), CostStandings(g, ps));
      Some(PlanFor(ps, OrCurrent(Some(best), current), MigrationCostMinimization,
                   Cheapest(TotalCost(g, VersionsOf(ps), best))))
  }

  // Newest version

  predicate NotOlder(a: Version, b: Version) {
    var x, y := ParseLeniently(a), ParseLeniently(b);
    x.major > y.major || (x.major == y.major && (x.minor > y.minor || (x.minor == y.minor && x.patch >= y.patch)))
  }

  function Alike(u: Version): Version -> bool {
    v => ParseLeniently(v) == ParseLeniently(u)
  }

  /** The newest versions, in the order of the sort. */
  function TopTied(keys: seq<Version>): seq<Version> {
    var sorted := StableSort(keys, NotOlder);
    if sorted == [] then [] else Filter(sorted, Alike(sorted[0]))
  }

  /** Only the first two of the newest versions take part in the tie-break. */
  function Pick(tied: seq<Version>, least: Version -> string): Version
    requires tied != []
  {
    if |tied| < 2 || Lexicographic.Less(least(tied[0]), least(tied[1])) then tied[0] else tied[1]
  }

  function LeastNodes(ps: seq<Proposal>): Version -> string {
    v => LeastNode(GroupOf(ps, v))
  }

  function NewestChoice(ps: seq<Proposal>): Version
    requires TopTied(VersionsOf(ps)) != []
  {
    Pick(TopTied(VersionsOf(ps)), LeastNodes(ps))
  }

  function NewestPlan(ps: seq<Proposal>): ResolutionPlan
    requires TopTied(VersionsOf(ps)) != []
  {
    PlanFor(ps, NewestChoice(ps), VersionPriority, if |TopTied(VersionsOf(ps))| > 1 then NewestByTiebreak else Newest)
  }

  lemma {:induction false} TopTiedExists(keys: seq<Version>)
    requires keys != []
    ensures TopTied(keys) != [] && StableSort(keys, NotOlder) != []
  {
    var sorted := StableSort(keys, NotOlder);
    assert |multiset(sorted)| == |sorted|;
    FilterMembers(sorted, Alike(sorted[0]));
    assert sorted[0] in TopTied(keys);
  }

  /** The whole resolution; None stands for an error. */
  ghost function Resolved(g: Registry, ps: seq<Proposal>, strategy: Strategy, current: Version): Option<ResolutionPlan>
    requires ParentsFirst(g)
  {
    var keys := VersionsOf(ps);
    if keys == [] then Some(ResolutionPlan(current, strategy, [], [], NoProposals))
    else if |keys| == 1 then Some(ResolutionPlan(keys[0], strategy, NodesIn(GroupOf(ps, keys[0])), [], Unanimous))
    else
      TopTiedExists(keys);
      match strategy
      case VersionPriority => Some(NewestPlan(ps))
      case StabilityPriority => Some(StabilityPlan(ps, current))
      case MigrationCostMinimization => CostPlan(g, ps, current)
  }

  class ConflictResolver {
    const graph: EvolutionGraph
    const current: Version
    const engine: MigrationEngine

    ghost predicate Valid()
      reads graph
    {
      graph.Valid() && engine.graph == graph
    }

    constructor (graph: EvolutionGraph, current: Version)
      requires graph.Valid()
      ensures Valid() && this.graph == graph && this.current == current
    {
      this.graph := graph;
      this.current := current;
      engine := new MigrationEngine(graph);
    }

    method Resolve(ps: seq<Proposal>, strategy: Strategy := VersionPriority) returns (r: Option<ResolutionPlan>)
      requires Valid()
      ensures r == Resolved(graph.nodes, ps, strategy, current)
    {
      VersionsMembers(ps);
      if ps == [] {
        return Some(ResolutionPlan(current, strategy, [], [], NoProposals));
      }
      var groups := Group(ps);
      if |groups.keys| == 1 {
        var ver := groups.keys[0];
        return Some(ResolutionPlan(ver, strategy, NodesIn(groups.values[ver]), [], Unanimous));
      }
      match strategy
      case VersionPriority =>
        var plan := ResolveByVersionPriority(groups, ps);
        return Some(plan);
      case StabilityPriority =>
        var plan := ResolveByStability(groups, ps);
        return Some(plan);
      case MigrationCostMinimization =>
        r := ResolveByMigrationCost(groups, ps);
    }

    method ResolveByVersionPriority(groups: Groups, ps: seq<Proposal>) returns (plan: ResolutionPlan)
      requires IsGrouping(groups, ps) && groups.keys != []
      ensures TopTied(VersionsOf(ps)) != [] && plan == NewestPlan(ps)
    {
      TopTiedExists(groups.keys);
      var chosen, details := NewestOf(groups, ps);
      return PlanFor(ps, chosen, VersionPriority, details);
    }

    method NewestOf(groups: Groups, ghost ps: seq<Proposal>) returns (chosen: Version, details: Details)
      requires IsGrouping(groups, ps) && TopTied(groups.keys) != []
      ensures chosen == NewestChoice(ps)
      ensures details == if |TopTied(groups.keys)| > 1 then NewestByTiebreak else Newest
    {
      var tied := TopTied(groups.keys);
      chosen, details := tied[0], Newest;
      TiedAreKeys(groups.keys);
      if |tied| > 1 {
        assert tied[0] in tied && tied[1] in tied;
        var wins := Lexicographic.Less(LeastNode(groups.values[tied[0]]), LeastNode(groups.values[tied[1]]));
        chosen := if wins then tied[0] else tied[1];
        details := NewestByTiebreak;
      }
    }

    method ResolveByStability(groups: Groups, ps: seq<Proposal>) returns (plan: ResolutionPlan)
      requires IsGrouping(groups, ps) && groups.keys != []
      ensures plan == StabilityPlan(ps, current)
    {
      var best, bestStability := MostStableOf(groups, ps);
      return PlanFor(ps, OrCurrent(best, current), StabilityPriority, MostStable(bestStability));
    }

    method MostStableOf(groups: Groups, ghost ps: seq<Proposal>) returns (best: Option<Version>, bestStability: real)
      requires IsGrouping(groups, ps) && groups.keys != []
      ensures best == StabilityChoice(ps)
      ensures bestStability == if best.Some? then StabilityStanding(ps, best.value).score else -1.0
    {
      best, bestStability := None, -1.0;
      ghost var standing := StabilityStandings(ps);
      ghost var ss: seq<Standing> := [];
      for i := 0 to |groups.keys|
        invariant |ss| == i && Tabulates(ss, groups.keys, standing)
        invariant best == if i > 0 && ss[Leader(ss)].score > -1.0 then Some(groups.keys[Leader(ss)]) else None
        invariant bestStability == if best.Some? then ss[Leader(ss)].score else -1.0
      {
        var ver := groups.keys[i];
        var average := Average(groups.values[ver], StabilityOf);
        assert standing(ver) == Standing(average, LeastNode(groups.values[ver]));
        LeaderOfLonger(ss, standing(ver));
        TableGrows(ss, groups.keys, standing);
        if average > bestStability {
          bestStability := average;
          best := Some(ver);
        } else if average == bestStability && best.Some? {
          assert ss[Leader(ss)] == standing(best.value);
          if Lexicographic.Less(LeastNode(groups.values[ver]), LeastNode(groups.values[best.value])) {
            best := Some(ver);
          }
        }
        ss := ss + [standing(ver)];
      }
      LeaderIsBest(groups.keys, standing, ss);
    }

    /** The cost of moving every other group to one version. */
    method CostTo(keys: seq<Version>, ver: Version) returns (total: Option<real>)
      requires Valid()
      ensures total.Some? <==> ReadableTo(graph.nodes, keys, ver)
      ensures total.Some? ==> total.value == TotalCost(graph.nodes, keys, ver)
    {
      var sum := 0.0;
      for i := 0 to |keys|
        invariant sum == TotalCost(graph.nodes, keys[..i], ver)
        invariant forall j :: 0 <= j < i ==> PairCost(graph.nodes, keys[j], ver).Some?
      {
        var other := keys[i];
        assert other in keys;
        assert keys[..i + 1][..i] == keys[..i];
        if other == ver {
          continue;
        }
        var compatible := IsBackwardCompatible(other, ver);
        if compatible.Err? {
          return None;
        }
        if compatible.value {
          continue;
        }
        var plan := engine.BuildPath(other, ver);
        if plan.Err? {
          return None;
        }
        sum := sum + if plan.value.supported then |plan.value.steps| as real else 10.0;
      }
      assert keys[..|keys|] == keys;
      return Some(sum);
    }

    method ResolveByMigrationCost(groups: Groups, ps: seq<Proposal>) returns (r: Option<ResolutionPlan>)
      requires Valid() && IsGrouping(groups, ps) && groups.keys != []
      ensures r == CostPlan(graph.nodes, ps, current)
    {
      var best, bestCost := CheapestOf(groups, ps);
      if best == None {
        return None;
      }
      return Some(PlanFor(ps, OrCurrent(best, current), MigrationCostMinimization, Cheapest(bestCost)));
    }

    method CheapestOf(groups: Groups, ghost ps: seq<Proposal>) returns (best: Option<Version>, bestCost: real)
      requires Valid() && IsGrouping(groups, ps) && groups.keys != []
      ensures best.Some? <==> AllReadable(graph.nodes, groups.keys)
      ensures best.Some? ==> best.value == Best(groups.keys, CostStandings(graph.nodes, ps))
      ensures best.Some? ==> bestCost == TotalCost(graph.nodes, groups.keys, best.value)
    {
      best, bestCost := None, 0.0;
      ghost var standing := CostStandings(graph.nodes, ps);
      ghost var readable := Readability(graph.nodes, groups.keys);
      ghost var ss: seq<Standing> := [];
      for i := 0 to |groups.keys|
        invariant |ss| == i && Tabulates(ss, groups.keys, standing)
        invariant best == None <==> i == 0
        invariant i > 0 ==> best == Some(groups.keys[Leader(ss)]) && bestCost == -ss[Leader(ss)].score
        invariant HoldsUpTo(groups.keys, readable, i)
      {
        var ver := groups.keys[i];
        var total, least := StandingAt(groups, ver, ps);
        HoldsOneMore(groups.keys, readable, i);
        if total == None {
          return None, 0.0;
        }
        LeaderOfLonger(ss, standing(ver));
        TableGrows(ss, groups.keys, standing);
        if best == None || total.value < bestCost {
          bestCost := total.value;
          best := Some(ver);
        } else if total.value == bestCost {
          assert ss[Leader(ss)] == standing(best.value);
          if Lexicographic.Less(least, LeastNode(groups.values[best.value])) {
            best := Some(ver);
          }
        }
        ss := ss + [standing(ver)];
      }
      LeaderIsBest(groups.keys, standing, ss);
    }

    method StandingAt(groups: Groups, ver: Version, ghost ps: seq<Proposal>)
      returns (total: Option<real>, least: string)
      requires Valid() && IsGrouping(groups, ps) && ver in groups.keys
      ensures total.Some? <==> Readability(graph.nodes, groups.keys)(ver)
      ensures total.Some? ==> CostStandings(graph.nodes, ps)(ver) == Standing(-total.value, least)
    {
      total := CostTo(groups.keys, ver);
      least := LeastNode(groups.values[ver]);
    }
  }

  lemma {:induction false} TiedAreKeys(keys: seq<Version>)
    ensures forall v :: v in TopTied(keys) ==> v in keys
  {
    var sorted := StableSort(keys, NotOlder);
    forall v | v in TopTied(keys)
      ensures v in keys
    {
      FilterMembers(sorted, Alike(sorted[0]));
      assert v in multiset(sorted);
    }
  }
}
