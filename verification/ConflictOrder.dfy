/** Who takes part in a resolution, who wins it, and when its outcome depends on the order of the proposals. */
module ConflictOrder {
  import opened Common
  import opened Versions
  import opened EvolutionGraphs
  import opened Ballots
  import opened ConflictResolvers
  import Lexicographic

  // Participants and rejected nodes

  ghost predicate Proposes(ps: seq<Proposal>, n: NodeId) {
    exists p :: p in ps && p.node == n
  }

  lemma {:induction false} NodesInMembers(group: seq<Proposal>)
    ensures forall n :: n in NodesIn(group) <==> Proposes(group, n)
  {
    if group != [] {
      var k := |group| - 1;
      NodesInMembers(group[..k]);
      assert group == group[..k] + [group[k]];
      forall n
        ensures n in NodesIn(group) <==> Proposes(group, n)
      {
        assert Proposes(group, n) <==> Proposes(group[..k], n) || group[k].node == n by {
          assert group[k] in group;
        }
      }
    }
  }

  lemma {:induction false} RegroupedCounts(ps: seq<Proposal>, keys: seq<Version>)
    requires Distinct(keys)
    ensures forall p :: multiset(Regrouped(ps, keys))[p] == if p.version in keys then multiset(ps)[p] else 0
  {
    if keys != [] {
      var n := |keys| - 1;
      RegroupedCounts(ps, keys[..n]);
      GroupCounts(ps, keys[n]);
      assert keys == keys[..n] + [keys[n]];
      assert keys[n] !in keys[..n];
    }
  }

  /** Regrouping is a permutation of the proposals. */
  lemma {:induction false} RegroupedPermutes(ps: seq<Proposal>)
    ensures multiset(Regrouped(ps, VersionsOf(ps))) == multiset(ps)
  {
    VersionsMembers(ps);
    RegroupedCounts(ps, VersionsOf(ps));
    var all := Regrouped(ps, VersionsOf(ps));
    forall p
      ensures multiset(all)[p] == multiset(ps)[p]
    {
      if p !in ps {
        assert p !in multiset(ps);
      }
    }
  }

  lemma {:induction false} SameProposers(ps: seq<Proposal>, qs: seq<Proposal>)
    requires multiset(ps) == multiset(qs)
    ensures forall n :: Proposes(ps, n) <==> Proposes(qs, n)
  {
    SameMembers(ps, qs);
  }

  /** Every proposing node either takes part or is rejected, and the first exactly if it proposed the chosen version. */
  lemma {:induction false} PlanPartitions(ps: seq<Proposal>, chosen: Version, strategy: Strategy, details: Details,
                                          n: NodeId)
    ensures var plan := PlanFor(ps, chosen, strategy, details);
      && (n in plan.participating <==> Proposes(GroupOf(ps, chosen), n))
      && (n in plan.rejected <==> Proposes(ps, n) && n !in plan.participating)
      && (n in plan.participating ==> Proposes(ps, n))
  {
    var participating := NodesIn(GroupOf(ps, chosen));
    var all := Regrouped(ps, VersionsOf(ps));
    NodesInMembers(GroupOf(ps, chosen));
    NodesInMembers(all);
    RegroupedPermutes(ps);
    SameProposers(ps, all);
    FilterMembers(NodesIn(all), m => m !in participating);
    GroupMembers(ps, chosen);
  }

  /** The outcome of every resolution splits the proposing nodes in two. */
  lemma {:induction false} ResolutionPartitions(g: Registry, ps: seq<Proposal>, strategy: Strategy, current: Version,
                                                n: NodeId)
    requires ParentsFirst(g) && Resolved(g, ps, strategy, current).Some?
    ensures var plan := Resolved(g, ps, strategy, current).value;
      && plan.strategy == strategy
      && (Proposes(ps, n) <==> n in plan.participating || n in plan.rejected)
      && !(n in plan.participating && n in plan.rejected)
      && (n in plan.participating <==> exists p :: p in ps && p.node == n && p.version == plan.chosen)
  {
    var keys := VersionsOf(ps);
    var plan := Resolved(g, ps, strategy, current).value;
    VersionsMembers(ps);
    GroupMembers(ps, plan.chosen);
    if |keys| == 1 {
      NodesInMembers(GroupOf(ps, keys[0]));
      forall p | p in ps
        ensures p.version == keys[0]
      {
        assert p.version in keys;
      }
    } else if |keys| > 1 {
      PlanPartitions(ps, plan.chosen, strategy, plan.details, n);
    }
  }

  // Winners

  /** Among distinct nodes the most stable version wins, and the least node id among equals. */
  lemma {:induction false} StabilityWinner(ps: seq<Proposal>, w: Version)
    requires w in VersionsOf(ps) && DistinctNodes(ps)
    ensures StabilityChoice(ps).Some? && w != StabilityChoice(ps).value ==>
      Beats(StabilityStanding(ps, StabilityChoice(ps).value), StabilityStanding(ps, w))
    ensures StabilityChoice(ps) == None ==> StabilityStanding(ps, w).score <= -1.0
  {
    var standing := StabilityStandings(ps);
    var v := Best(VersionsOf(ps), standing);
    BestBeatsRest(ps, u => StabilityStanding(ps, u).score, standing, w);
    assert standing(v) == StabilityStanding(ps, v) && standing(w) == StabilityStanding(ps, w);
  }

  lemma {:induction false} CostWinner(g: Registry, ps: seq<Proposal>, w: Version)
    requires ParentsFirst(g) && w in VersionsOf(ps) && DistinctNodes(ps)
    requires w != Best(VersionsOf(ps), CostStandings(g, ps))
    ensures Beats(CostStanding(g, ps, Best(VersionsOf(ps), CostStandings(g, ps))), CostStanding(g, ps, w))
  {
    BestBeatsRest(ps, v => CostStanding(g, ps, v).score, CostStandings(g, ps), w);
  }

  lemma {:induction false} BestBeatsRest(ps: seq<Proposal>, score: Version -> real, standing: Version -> Standing,
                                         w: Version)
    requires DistinctNodes(ps) && w in VersionsOf(ps)
    requires forall u :: standing(u) == Standing(score(u), LeastNode(GroupOf(ps, u)))
    ensures w != Best(VersionsOf(ps), standing) ==> Beats(standing(Best(VersionsOf(ps), standing)), standing(w))
  {
    BestIsUnbeaten(VersionsOf(ps), standing);
    if w != Best(VersionsOf(ps), standing) {
      UnbeatenBeatsAll(ps, score, standing, Best(VersionsOf(ps), standing), w);
    }
  }

  lemma {:induction false} UnbeatenBeatsAll(ps: seq<Proposal>, score: Version -> real, standing: Version -> Standing,
                                            v: Version, w: Version)
    requires DistinctNodes(ps) && Unbeaten(VersionsOf(ps), standing, v) && w in VersionsOf(ps) && w != v
    requires forall u :: standing(u) == Standing(score(u), LeastNode(GroupOf(ps, u)))
    ensures Beats(standing(v), standing(w))
  {
    var keys := VersionsOf(ps);
    VersionsMembers(ps);
    var p := LeastProposal(ps, v);
    var q := LeastProposal(ps, w);
    if standing(v).least == standing(w).least {
      assert p.node == q.node;
      SameNodeSameProposal(ps, p, q);
    }
    Lexicographic.Trichotomy(standing(v).least, standing(w).least);
    assert !Beats(standing(w), standing(v));
  }

  lemma {:induction false} SameNodeSameProposal(ps: seq<Proposal>, p: Proposal, q: Proposal)
    requires DistinctNodes(ps) && p in ps && q in ps && p.node == q.node
    ensures p == q
  {
    var i :| 0 <= i < |ps| && ps[i] == p;
    var j :| 0 <= j < |ps| && ps[j] == q;
  }

  // The order of the proposals

  /** The winner as a function of the proposals alone. */
  function BestOf(ps: seq<Proposal>, standingOf: seq<Proposal> -> (Version -> Standing)): Option<Version> {
    if VersionsOf(ps) == [] then None else Some(Best(VersionsOf(ps), standingOf(ps)))
  }

  ghost predicate OrderFree<T>(ps: seq<Proposal>, choice: seq<Proposal> -> T) {
    forall qs {:trigger choice(qs)} :: multiset(qs) == multiset(ps) ==> choice(qs) == choice(ps)
  }

  /** Standings that do not depend on the order of the proposals. */
  ghost predicate Permutable(ps: seq<Proposal>, standingOf: seq<Proposal> -> (Version -> Standing)) {
    forall qs, v {:trigger standingOf(qs)(v)} :: multiset(qs) == multiset(ps) ==> standingOf(qs)(v) == standingOf(ps)(v)
  }

  lemma {:induction false} PromotedWins(ps: seq<Proposal>, standingOf: seq<Proposal> -> (Version -> Standing),
                                        v: Version)
    requires Permutable(ps, standingOf) && Unbeaten(VersionsOf(ps), standingOf(ps), v)
    ensures multiset(Promote(ps, v)) == multiset(ps) && BestOf(Promote(ps, v), standingOf) == Some(v)
  {
    var qs := Promote(ps, v);
    PromotePermutes(ps, v);
    PromotedFirst(ps, v);
    var keys := VersionsOf(qs);
    forall k | k in keys
      ensures !Beats(standingOf(qs)(k), standingOf(qs)(v))
    {
      GroupsPermute(ps, qs, k, StabilityOf);
      assert standingOf(qs)(k) == standingOf(ps)(k) && standingOf(qs)(v) == standingOf(ps)(v);
    }
    BestIsUnbeaten(keys, standingOf(qs));
  }

  /** One permutation more or less: a decided winner stays. */
  lemma {:induction false} DecidedStays(ps: seq<Proposal>, qs: seq<Proposal>,
                                        standingOf: seq<Proposal> -> (Version -> Standing))
    requires multiset(qs) == multiset(ps) && Permutable(ps, standingOf)
    requires Decided(VersionsOf(ps), standingOf(ps))
    ensures BestOf(qs, standingOf) == BestOf(ps, standingOf)
  {
    forall v
      ensures v in VersionsOf(ps) <==> v in VersionsOf(qs)
      ensures standingOf(qs)(v) == standingOf(ps)(v)
    {
      GroupsPermute(ps, qs, v, StabilityOf);
    }
    VersionsMembers(ps);
    VersionsMembers(qs);
    assert |ps| == |multiset(ps)| == |multiset(qs)| == |qs|;
    if ps != [] {
      DecidedBestPermutes(VersionsOf(ps), VersionsOf(qs), standingOf(ps), standingOf(qs));
    }
  }

  /** The winner is the same for every order of the proposals exactly when no two versions are both unbeaten. */
  lemma {:induction false} BestOrderFreeIff(ps: seq<Proposal>, standingOf: seq<Proposal> -> (Version -> Standing))
    requires Permutable(ps, standingOf)
    ensures OrderFree(ps, qs => BestOf(qs, standingOf)) <==> Decided(VersionsOf(ps), standingOf(ps))
  {
    var choice := (qs: seq<Proposal>) => BestOf(qs, standingOf);
    if Decided(VersionsOf(ps), standingOf(ps)) {
      forall qs | multiset(qs) == multiset(ps)
        ensures choice(qs) == choice(ps)
      {
        DecidedStays(ps, qs, standingOf);
      }
    }
    if OrderFree(ps, choice) {
      forall v, w | Unbeaten(VersionsOf(ps), standingOf(ps), v) && Unbeaten(VersionsOf(ps), standingOf(ps), w)
        ensures v == w
      {
        PromotedWins(ps, standingOf, v);
        PromotedWins(ps, standingOf, w);
        assert choice(Promote(ps, v)) == choice(Promote(ps, w));
      }
    }
  }

  // Stability

  function StabilityChoiceOf(ps: seq<Proposal>): Option<Version> {
    if VersionsOf(ps) == [] then None else StabilityChoice(ps)
  }

  lemma {:induction false} StabilityPermutes(ps: seq<Proposal>)
    ensures Permutable(ps, StabilityStandings)
  {
    forall qs, v | multiset(qs) == multiset(ps)
      ensures StabilityStandings(qs)(v) == StabilityStandings(ps)(v)
    {
      GroupsPermute(ps, qs, v, StabilityOf);
    }
  }

  /** All average stabilities at or below the initial -1. */
  ghost predicate NoneStable(ps: seq<Proposal>) {
    forall v :: v in VersionsOf(ps) ==> StabilityStanding(ps, v).score <= -1.0
  }

  lemma {:induction false} ChoiceIsBestUnlessNoneStable(ps: seq<Proposal>)
    ensures StabilityChoiceOf(ps) == if NoneStable(ps) then None else BestOf(ps, StabilityStandings)
  {
    if VersionsOf(ps) != [] {
      BestIsUnbeaten(VersionsOf(ps), StabilityStandings(ps));
      var best := Best(VersionsOf(ps), StabilityStandings(ps));
      forall v | v in VersionsOf(ps)
        ensures StabilityStanding(ps, v).score <= StabilityStanding(ps, best).score
      {
        assert !Beats(StabilityStandings(ps)(v), StabilityStandings(ps)(best));
      }
    }
  }

  lemma {:induction false} NoneStablePermutes(ps: seq<Proposal>, qs: seq<Proposal>)
    requires multiset(ps) == multiset(qs)
    ensures NoneStable(ps) <==> NoneStable(qs)
  {
    forall v
      ensures v in VersionsOf(ps) <==> v in VersionsOf(qs)
      ensures StabilityStanding(ps, v) == StabilityStanding(qs, v)
    {
      GroupsPermute(ps, qs, v, StabilityOf);
    }
  }

  /** The stability choice ignores the order of the proposals exactly when it is decided, or nothing is stable. */
  lemma {:induction false} StabilityOrderFreeIff(ps: seq<Proposal>)
    ensures OrderFree(ps, StabilityChoiceOf) <==>
      NoneStable(ps) || Decided(VersionsOf(ps), StabilityStandings(ps))
    ensures DistinctNodes(ps) ==> OrderFree(ps, StabilityChoiceOf)
  {
    StabilityPermutes(ps);
    BestOrderFreeIff(ps, StabilityStandings);
    var best := (qs: seq<Proposal>) => BestOf(qs, StabilityStandings);
    forall qs | multiset(qs) == multiset(ps)
      ensures StabilityChoiceOf(qs) == if NoneStable(ps) then None else best(qs)
    {
      ChoiceIsBestUnlessNoneStable(qs);
      NoneStablePermutes(ps, qs);
    }
    if DistinctNodes(ps) {
      StabilityDecided(ps);
    }
  }

  lemma {:induction false} StabilityDecided(ps: seq<Proposal>)
    requires DistinctNodes(ps)
    ensures Decided(VersionsOf(ps), StabilityStandings(ps))
  {
    UnbeatenIsUnique(ps, v => StabilityStanding(ps, v).score, StabilityStandings(ps));
  }

  lemma {:induction false} UnbeatenIsUnique(ps: seq<Proposal>, score: Version -> real, standing: Version -> Standing)
    requires DistinctNodes(ps)
    requires forall u :: standing(u) == Standing(score(u), LeastNode(GroupOf(ps, u)))
    ensures Decided(VersionsOf(ps), standing)
  {
    forall v, w | Unbeaten(VersionsOf(ps), standing, v) && Unbeaten(VersionsOf(ps), standing, w)
      ensures v == w
    {
      if v != w {
        UnbeatenBeatsAll(ps, score, standing, v, w);
      }
    }
  }

  // Migration cost

  ghost function CostChoiceOf(g: Registry): seq<Proposal> -> Option<Version>
    requires ParentsFirst(g)
  {
    ps => if AllReadable(g, VersionsOf(ps)) then BestOf(ps, qs => CostStandings(g, qs)) else None
  }

  lemma {:induction false} HoldsOnMembers(keys: seq<Version>, property: Version -> bool)
    ensures HoldsUpTo(keys, property, |keys|) <==> forall v :: v in keys ==> property(v)
  {
  }

  lemma {:induction false} ReadablePermutes(g: Registry, keys: seq<Version>, others: seq<Version>)
    requires ParentsFirst(g) && forall v :: v in keys <==> v in others
    ensures AllReadable(g, keys) <==> AllReadable(g, others)
  {
    HoldsOnMembers(keys, Readability(g, keys));
    HoldsOnMembers(others, Readability(g, others));
    forall v
      ensures Readability(g, keys)(v) == Readability(g, others)(v)
    {
      assert ReadableTo(g, keys, v) == ReadableTo(g, others, v);
    }
  }

  lemma {:induction false} CostPermutes(g: Registry, ps: seq<Proposal>, qs: seq<Proposal>, v: Version)
    requires ParentsFirst(g) && multiset(ps) == multiset(qs)
    ensures CostStanding(g, ps, v) == CostStanding(g, qs, v)
    ensures AllReadable(g, VersionsOf(ps)) <==> AllReadable(g, VersionsOf(qs))
  {
    GroupsPermute(ps, qs, v, StabilityOf);
    VersionsPermute(ps, qs);
    SumPermutes(VersionsOf(ps), VersionsOf(qs), CostOf(g, v));
    ReadablePermutes(g, VersionsOf(ps), VersionsOf(qs));
  }

  lemma {:induction false} VersionsPermute(ps: seq<Proposal>, qs: seq<Proposal>)
    requires multiset(ps) == multiset(qs)
    ensures multiset(VersionsOf(ps)) == multiset(VersionsOf(qs))
    ensures forall v :: v in VersionsOf(ps) <==> v in VersionsOf(qs)
  {
    SameVersions(ps, qs);
    VersionsMembers(ps);
    VersionsMembers(qs);
    SameElementsPermute(VersionsOf(ps), VersionsOf(qs));
  }

  lemma {:induction false} SameVersions(ps: seq<Proposal>, qs: seq<Proposal>)
    requires multiset(ps) == multiset(qs)
    ensures forall v :: v in VersionsOf(ps) <==> v in VersionsOf(qs)
  {
    forall v
      ensures v in VersionsOf(ps) <==> v in VersionsOf(qs)
    {
      GroupsPermute(ps, qs, v, StabilityOf);
    }
  }

  /** Likewise for the migration cost, unless some pair of versions cannot be compared at all. */
  lemma {:induction false} CostOrderFreeIff(g: Registry, ps: seq<Proposal>)
    requires ParentsFirst(g)
    ensures OrderFree(ps, CostChoiceOf(g)) <==>
      !AllReadable(g, VersionsOf(ps)) || Decided(VersionsOf(ps), CostStandings(g, ps))
    ensures DistinctNodes(ps) ==> OrderFree(ps, CostChoiceOf(g))
  {
    var standingOf := (qs: seq<Proposal>) => CostStandings(g, qs);
    var best := (qs: seq<Proposal>) => BestOf(qs, standingOf);
    forall qs, v | multiset(qs) == multiset(ps)
      ensures standingOf(qs)(v) == standingOf(ps)(v)
    {
      CostPermutes(g, ps, qs, v);
    }
    BestOrderFreeIff(ps, standingOf);
    forall qs | multiset(qs) == multiset(ps)
      ensures CostChoiceOf(g)(qs) == if AllReadable(g, VersionsOf(ps)) then best(qs) else None
    {
      CostPermutes(g, ps, qs, Version(""));
    }
    if DistinctNodes(ps) {
      UnbeatenIsUnique(ps, v => CostStanding(g, ps, v).score, CostStandings(g, ps));
    }
  }

  /** Among distinct nodes, both strategies resolve every order of the proposals to the same version and sides. */
  lemma {:induction false} ResolutionOrderFree(g: Registry, ps: seq<Proposal>, qs: seq<Proposal>, strategy: Strategy,
                                               current: Version, n: NodeId)
    requires ParentsFirst(g) && DistinctNodes(ps) && multiset(ps) == multiset(qs) && strategy != VersionPriority
    ensures var r, r' := Resolved(g, ps, strategy, current), Resolved(g, qs, strategy, current);
      && r.Some? == r'.Some?
      && (r.Some? ==>
            && r.value.chosen == r'.value.chosen
            && (n in r.value.participating <==> n in r'.value.participating)
            && (n in r.value.rejected <==> n in r'.value.rejected))
  {
    SameVersions(ps, qs);
    VersionsMembers(ps);
    VersionsMembers(qs);
    SameElementsSameLength(VersionsOf(ps), VersionsOf(qs));
    if |VersionsOf(ps)| == 1 {
      assert VersionsOf(ps)[0] in VersionsOf(qs);
    } else if |VersionsOf(ps)| > 1 {
      ChoicesAgree(g, ps, qs);
    }
    var r, r' := Resolved(g, ps, strategy, current), Resolved(g, qs, strategy, current);
    if r.Some? {
      SameMembers(ps, qs);
      SameProposers(ps, qs);
      ResolutionPartitions(g, ps, strategy, current, n);
      ResolutionPartitions(g, qs, strategy, current, n);
    }
  }

  lemma {:induction false} ChoicesAgree(g: Registry, ps: seq<Proposal>, qs: seq<Proposal>)
    requires ParentsFirst(g) && DistinctNodes(ps) && multiset(ps) == multiset(qs)
    requires VersionsOf(ps) != [] && VersionsOf(qs) != []
    ensures StabilityChoice(ps) == StabilityChoice(qs)
    ensures AllReadable(g, VersionsOf(ps)) <==> AllReadable(g, VersionsOf(qs))
    ensures AllReadable(g, VersionsOf(ps)) ==>
      Best(VersionsOf(ps), CostStandings(g, ps)) == Best(VersionsOf(qs), CostStandings(g, qs))
  {
    StabilityOrderFreeIff(ps);
    assert StabilityChoiceOf(qs) == StabilityChoiceOf(ps);
    CostOrderFreeIff(g, ps);
    CostPermutes(g, ps, qs, Version(""));
    assert CostChoiceOf(g)(qs) == CostChoiceOf(g)(ps);
  }
}
