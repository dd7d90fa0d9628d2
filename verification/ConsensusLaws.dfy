/** What a consensus is, in literal numbers: the weights, the threshold, who takes part and who is rejected. */
module ConsensusLaws {
  import opened Common
  import opened Versions
  import opened EvolutionGraphs
  import opened Ballots
  import opened ConflictResolvers
  import opened ConflictOrder
  import opened Consensus
  import opened ConsensusOrder
  import opened Sorting

  // Weights

  lemma {:induction false} AncestorsOnce(g: Registry, v: Version, k: nat)
    requires ParentsFirst(g) && k < |Ancestors(g, v)|
    ensures v in g.values && Ancestors(g, v)[k] != v
    ensures IndexOf(Ancestors(g, v), Ancestors(g, v)[k]) == k
  {
    var line := Ancestors(g, v);
    assert v in g.values;
    AncestorsFormLineage(g, v);
    var all := [v] + line;
    assert all[0] == v && all[k + 1] == line[k];
    forall j | 0 <= j < k
      ensures line[j] != line[k]
    {
      assert all[j + 1] == line[j];
    }
    IndexIs(line, line[k], k);
  }

  /** Freshness in numbers: 1 for the current version, 0.5 ahead of it, 0.7 for its first parent, 0.4 for the parent
      of that, 0.1 for any earlier ancestor, and 0 outside the lineage. */
  lemma {:induction false} FreshnessIs(g: Registry, current: Version, v: Version)
    requires ParentsFirst(g)
    ensures Freshness(g, current, current) == 1.0
    ensures current in Ancestors(g, v) ==> Freshness(g, current, v) == 0.5
    ensures forall k :: 0 <= k < |Ancestors(g, current)| && Ancestors(g, current)[k] == v ==>
      Freshness(g, current, v) == if k == 0 then 0.7 else if k == 1 then 0.4 else 0.1
    ensures v != current && current !in Ancestors(g, v) && v !in Ancestors(g, current) ==>
      Freshness(g, current, v) == 0.0
  {
    if current in Ancestors(g, v) {
      var k :| 0 <= k < |Ancestors(g, v)| && Ancestors(g, v)[k] == current;
      AncestorsOnce(g, v, k);
    }
    forall k | 0 <= k < |Ancestors(g, current)| && Ancestors(g, current)[k] == v
      ensures Freshness(g, current, v) == if k == 0 then 0.7 else if k == 1 then 0.4 else 0.1
    {
      AncestorsOnce(g, current, k);
      assert Before(g, v, current);
      assert current in Ancestors(g, v) ==> Before(g, current, v);
    }
  }

  /** The weight of a proposal: four tenths of each score and a fifth of the freshness. */
  lemma {:induction false} WeightIs(g: Registry, current: Version, p: Proposal)
    requires ParentsFirst(g)
    ensures var w := WeightIn(g, current)(p); var scores := 0.4 * (p.stability + p.confidence);
      && (p.version == current ==> w == scores + 0.2)
      && (current in Ancestors(g, p.version) ==> w == scores + 0.1)
      && (forall k :: 0 <= k < |Ancestors(g, current)| && Ancestors(g, current)[k] == p.version ==>
            w == scores + if k == 0 then 0.14 else if k == 1 then 0.08 else 0.02)
      && (p.version != current && current !in Ancestors(g, p.version) && p.version !in Ancestors(g, current) ==>
            w == scores)
  {
    FreshnessIs(g, current, p.version);
  }

  // The agreement

  /** The version has the greatest average weight of all that were proposed. */
  ghost predicate IsHeaviest(g: Registry, current: Version, ps: seq<Proposal>, d: Version)
    requires ParentsFirst(g)
  {
    && d in VersionsOf(ps)
    && forall v :: v in VersionsOf(ps) ==>
         Average(GroupOf(ps, v), WeightIn(g, current)) <= Average(GroupOf(ps, d), WeightIn(g, current))
  }

  lemma {:induction false} DominantIsHeaviest(g: Registry, current: Version, ps: seq<Proposal>)
    requires ParentsFirst(g) && VersionsOf(ps) != []
    ensures IsHeaviest(g, current, ps, Best(VersionsOf(ps), WeightStandings(g, current, ps)))
  {
    var keys, standing := VersionsOf(ps), WeightStandings(g, current, ps);
    BestIsUnbeaten(keys, standing);
    forall v | v in keys
      ensures Average(GroupOf(ps, v), WeightIn(g, current))
        <= Average(GroupOf(ps, Best(keys, standing)), WeightIn(g, current))
    {
      assert !Beats(standing(v), standing(Best(keys, standing)));
    }
  }

  /** No proposals: the current version with no strength. Otherwise the strength is the greatest average weight, and
      from 0.7 on its version is agreed on; below, the current version stays and the only report says so. */
  lemma {:induction false} AgreementMeans(g: Registry, current: Version, ps: seq<Proposal>)
    requires ParentsFirst(g) && Agreed(g, current, ps).Some?
    ensures var r := Agreed(g, current, ps).value;
      if ps == [] then r == ConsensusResult(current, [], [], 0.0, [Reason.NoProposals])
      else exists d ::
        && IsHeaviest(g, current, ps, d) && r.strength == Average(GroupOf(ps, d), WeightIn(g, current))
        && r.agreed == (if r.strength >= 0.7 then d else current)
        && (r.strength < 0.7 ==> r.reasons == [BelowThreshold(r.strength)])
  {
    SortedLength(g, current, ps);
    if ps != [] {
      AgreedMeans(g, current, ps);
      var d := Best(VersionsOf(ps), WeightStandings(g, current, ps));
      DominantIsHeaviest(g, current, ps);
    }
  }

  lemma {:induction false} NodesOfMeans(scores: seq<Score>, n: NodeId)
    ensures n in NodesOf(scores) <==> exists x :: x in scores && n in x.nodes
  {
    if scores != [] {
      NodesOfMeans(scores[..|scores| - 1], n);
      assert scores == scores[..|scores| - 1] + [scores[|scores| - 1]];
    }
  }

  /** Below the threshold the nodes of the heaviest version still count as taking part, and those of the other
      versions as rejected. */
  lemma {:induction false} WeakOutcome(g: Registry, current: Version, ps: seq<Proposal>, n: NodeId)
    requires ParentsFirst(g) && ps != [] && Agreed(g, current, ps).Some?
    requires Agreed(g, current, ps).value.strength < 0.7
    ensures var r := Agreed(g, current, ps).value;
      exists d ::
        && IsHeaviest(g, current, ps, d)
        && (n in r.participating <==> exists p :: p in ps && p.node == n && p.version == d)
        && (n in r.rejected <==> exists p :: p in ps && p.node == n && p.version != d)
  {
    var d := WeakParts(g, current, ps);
    NodesOfGroup(ps, d, n);
    OthersRejected(g, current, ps, d, n);
    NodesOfMeans(SortedScores(g, current, ps)[1..], n);
  }

  lemma {:induction false} WeakParts(g: Registry, current: Version, ps: seq<Proposal>) returns (d: Version)
    requires ParentsFirst(g) && ps != [] && Agreed(g, current, ps).Some?
    requires Agreed(g, current, ps).value.strength < 0.7
    ensures IsHeaviest(g, current, ps, d)
    ensures SortedScores(g, current, ps) != [] && SortedScores(g, current, ps)[0].version == d
    ensures Agreed(g, current, ps).value.participating == NodesIn(GroupOf(ps, d))
    ensures Agreed(g, current, ps).value.rejected == NodesOf(SortedScores(g, current, ps)[1..])
  {
    VersionsMembers(ps);
    SortedHead(g, current, ps);
    DominantIsHeaviest(g, current, ps);
    d := Best(VersionsOf(ps), WeightStandings(g, current, ps));
  }

  lemma {:induction false} NodesOfGroup(ps: seq<Proposal>, v: Version, n: NodeId)
    ensures n in NodesIn(GroupOf(ps, v)) <==> exists p :: p in ps && p.node == n && p.version == v
  {
    GroupMembers(ps, v);
    NodesInMembers(GroupOf(ps, v));
  }

  lemma {:induction false} OthersRejected(g: Registry, current: Version, ps: seq<Proposal>, d: Version, n: NodeId)
    requires ParentsFirst(g) && SortedScores(g, current, ps) != [] && SortedScores(g, current, ps)[0].version == d
    ensures (exists x :: x in SortedScores(g, current, ps)[1..] && n in x.nodes) <==>
      exists p :: p in ps && p.node == n && p.version != d
  {
    var rest := SortedScores(g, current, ps)[1..];
    forall x | x in rest && n in x.nodes
      ensures exists p :: p in ps && p.node == n && p.version != d
    {
      OthersInRest(g, current, ps, x.version);
      NodesOfGroup(ps, x.version, n);
    }
    forall p | p in ps && p.node == n && p.version != d
      ensures exists x :: x in rest && n in x.nodes
    {
      VersionsMembers(ps);
      OthersInRest(g, current, ps, p.version);
      NodesOfGroup(ps, p.version, n);
      assert ScoreOf(ps, p.version, WeightIn(g, current)) in rest;
    }
  }

  /** Of two nodes with different versions that can be read, the heavier one decides from 0.7 on. */
  lemma {:induction false} HeavierNodeDecides(g: Registry, current: Version, ps: seq<Proposal>, p: Proposal,
                                              q: Proposal)
    requires ParentsFirst(g) && |ps| == 2 && p in ps && q in ps && p.version != q.version
    requires Parse(p.version).Some? && Parse(q.version).Some?
    requires WeightIn(g, current)(p) > WeightIn(g, current)(q)
    ensures Agreed(g, current, ps).Some?
    ensures var r := Agreed(g, current, ps).value;
      && r.strength == WeightIn(g, current)(p)
      && r.agreed == if WeightIn(g, current)(p) >= 0.7 then p.version else current
  {
    PairOfVersions(ps, p, q);
    AverageOfOne(p, WeightIn(g, current));
    AverageOfOne(q, WeightIn(g, current));
    PairIsReadable(ps, p, q);
    AgreedMeans(g, current, ps);
    AgreementMeans(g, current, ps);
    HeavierIsHeaviest(g, current, ps, p, q);
  }

  lemma {:induction false} PairIsReadable(ps: seq<Proposal>, p: Proposal, q: Proposal)
    requires Parse(p.version).Some? && Parse(q.version).Some?
    requires forall v :: v in VersionsOf(ps) <==> v == p.version || v == q.version
    ensures !Unreadable(ps)
  {
  }

  lemma {:induction false} HeavierIsHeaviest(g: Registry, current: Version, ps: seq<Proposal>, p: Proposal, q: Proposal)
    requires ParentsFirst(g) && p.version in VersionsOf(ps)
    requires forall v :: v in VersionsOf(ps) <==> v == p.version || v == q.version
    requires var w := WeightIn(g, current); Average(GroupOf(ps, p.version), w) > Average(GroupOf(ps, q.version), w)
    ensures forall d :: IsHeaviest(g, current, ps, d) ==> d == p.version
  {
  }

  lemma {:induction false} PairOfVersions(ps: seq<Proposal>, p: Proposal, q: Proposal)
    requires |ps| == 2 && p in ps && q in ps && p.version != q.version
    ensures GroupOf(ps, p.version) == [p] && GroupOf(ps, q.version) == [q]
    ensures forall v :: v in VersionsOf(ps) <==> v == p.version || v == q.version
  {
    if ps[0] == p {
      assert ps == [p, q];
      TwoVersions(p, q);
    } else {
      assert ps == [q, p];
      TwoVersions(q, p);
    }
  }
}
