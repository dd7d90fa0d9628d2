/** The lists of a vote: who takes part and who is rejected, in which order, and what is said about the choice. */
module VoteLists {
  import opened Common
  import opened Versions
  import opened EvolutionGraphs
  import opened Ballots
  import opened ConflictResolvers
  import opened ConflictOrder
  import opened NewestOrder
  import opened Consensus
  import opened ConsensusOrder

  /** The nodes that propose the version, in the order of their proposals. */
  ghost function NodesFor(ps: seq<Proposal>, v: Version): seq<NodeId> {
    if ps == [] then [] else (if ps[0].version == v then [ps[0].node] else []) + NodesFor(ps[1..], v)
  }

  /** Of the nodes that propose the version those that are not in the list. */
  ghost function OthersFor(ps: seq<Proposal>, v: Version, participating: seq<NodeId>): seq<NodeId> {
    if ps == [] then []
    else
      (if ps[0].version == v && ps[0].node !in participating then [ps[0].node] else [])
      + OthersFor(ps[1..], v, participating)
  }

  /** The other nodes, one version after the other. */
  ghost function OthersByVersion(ps: seq<Proposal>, vs: seq<Version>, participating: seq<NodeId>): seq<NodeId> {
    if vs == [] then [] else OthersFor(ps, vs[0], participating) + OthersByVersion(ps, vs[1..], participating)
  }

  lemma {:induction false} NodesForSplits(a: seq<Proposal>, b: seq<Proposal>, v: Version)
    ensures NodesFor(a + b, v) == NodesFor(a, v) + NodesFor(b, v)
    decreases |a|
  {
    if a == [] {
      assert a + b == b;
    } else {
      assert (a + b)[1..] == a[1..] + b;
      NodesForSplits(a[1..], b, v);
    }
  }

  lemma {:induction false} OneNode(p: Proposal, v: Version)
    ensures NodesFor([p], v) == if p.version == v then [p.node] else []
  {
    assert [p][1..] == [];
  }

  lemma {:induction false} NodesAreInOrder(ps: seq<Proposal>, v: Version)
    ensures NodesIn(GroupOf(ps, v)) == NodesFor(ps, v)
  {
    if ps != [] {
      var n := |ps| - 1;
      var before, group := GroupOf(ps[..n], v), GroupOf(ps, v);
      NodesAreInOrder(ps[..n], v);
      NodesForSplits(ps[..n], ps[n..], v);
      assert ps == ps[..n] + ps[n..] && ps[n..] == [ps[n]];
      OneNode(ps[n], v);
      if ps[n].version == v {
        assert group == before + [ps[n]] && group[..|before|] == before;
      }
    }
  }

  lemma {:induction false} OthersForIs(ps: seq<Proposal>, v: Version, participating: seq<NodeId>, keep: NodeId -> bool)
    requires forall n :: keep(n) <==> n !in participating
    ensures Filter(NodesFor(ps, v), keep) == OthersFor(ps, v, participating)
    decreases |ps|
  {
    if ps != [] {
      OthersForIs(ps[1..], v, participating, keep);
      var first := if ps[0].version == v then [ps[0].node] else [];
      FilterConcatenated(first, NodesFor(ps[1..], v), keep);
      if ps[0].version == v {
        FilterOfOne(ps[0].node, keep);
      }
    }
  }

  lemma {:induction false} FilterOfOne(n: NodeId, keep: NodeId -> bool)
    ensures Filter([n], keep) == if keep(n) then [n] else []
  {
    assert [n][..0] == [];
  }

  lemma {:induction false} RegroupedSplits(ps: seq<Proposal>, a: seq<Version>, b: seq<Version>)
    ensures Regrouped(ps, a + b) == Regrouped(ps, a) + Regrouped(ps, b)
  {
    if b == [] {
      assert a + b == a;
    } else {
      var n := |b| - 1;
      assert (a + b)[..|a| + n] == a + b[..n] && (a + b)[|a| + n] == b[n];
      RegroupedSplits(ps, a, b[..n]);
    }
  }

  lemma {:induction false} RegroupedFront(ps: seq<Proposal>, vs: seq<Version>)
    requires vs != []
    ensures Regrouped(ps, vs) == GroupOf(ps, vs[0]) + Regrouped(ps, vs[1..])
  {
    RegroupedSplits(ps, vs[..1], vs[1..]);
    assert vs == vs[..1] + vs[1..];
    RegroupedOne(ps, vs[..1]);
  }

  lemma {:induction false} RegroupedOne(ps: seq<Proposal>, vs: seq<Version>)
    requires |vs| == 1
    ensures Regrouped(ps, vs) == GroupOf(ps, vs[0])
  {
    assert |vs[..0]| == 0;
  }

  lemma {:induction false} NodesInSplits(a: seq<Proposal>, b: seq<Proposal>)
    ensures NodesIn(a + b) == NodesIn(a) + NodesIn(b)
  {
    if b == [] {
      assert a + b == a;
    } else {
      var n := |b| - 1;
      assert (a + b)[..|a| + n] == a + b[..n] && (a + b)[|a| + n] == b[n];
      NodesInSplits(a, b[..n]);
    }
  }

  lemma {:induction false} OthersAreRegrouped(ps: seq<Proposal>, vs: seq<Version>, participating: seq<NodeId>,
                                              keep: NodeId -> bool)
    requires forall n :: keep(n) <==> n !in participating
    ensures Filter(NodesIn(Regrouped(ps, vs)), keep) == OthersByVersion(ps, vs, participating)
    decreases |vs|
  {
    if vs != [] {
      RegroupedFront(ps, vs);
      NodesInSplits(GroupOf(ps, vs[0]), Regrouped(ps, vs[1..]));
      NodesAreInOrder(ps, vs[0]);
      FilterConcatenated(NodesFor(ps, vs[0]), NodesIn(Regrouped(ps, vs[1..])), keep);
      OthersForIs(ps, vs[0], participating, keep);
      OthersAreRegrouped(ps, vs[1..], participating, keep);
    }
  }

  /** Who takes part in a resolution stands in the order of the proposals, who is rejected version by version. */
  lemma {:induction false} ResolutionLists(g: Registry, ps: seq<Proposal>, strategy: Strategy, current: Version)
    requires ParentsFirst(g) && Resolved(g, ps, strategy, current).Some?
    ensures var r := Resolved(g, ps, strategy, current).value;
      && r.strategy == strategy && r.participating == NodesFor(ps, r.chosen)
      && (|VersionsOf(ps)| >= 2 ==> r.rejected == OthersByVersion(ps, VersionsOf(ps), r.participating))
      && (|VersionsOf(ps)| < 2 ==> r.rejected == [])
  {
    var r := Resolved(g, ps, strategy, current).value;
    NodesAreInOrder(ps, r.chosen);
    if |VersionsOf(ps)| == 0 {
      VersionsMembers(ps);
      assert NodesFor(ps, r.chosen) == [];
    } else if |VersionsOf(ps)| >= 2 {
      OthersAreRegrouped(ps, VersionsOf(ps), r.participating, n => n !in r.participating);
      PlanLists(g, ps, strategy, current);
    }
  }

  lemma {:induction false} PlanLists(g: Registry, ps: seq<Proposal>, strategy: Strategy, current: Version)
    requires ParentsFirst(g) && |VersionsOf(ps)| >= 2 && Resolved(g, ps, strategy, current).Some?
    ensures var r := Resolved(g, ps, strategy, current).value;
      r.rejected == Filter(NodesIn(Regrouped(ps, VersionsOf(ps))), n => n !in r.participating)
  {
  }

  /** What a resolution says: no proposals, a single version, or with the newest version whether another spelling of
      it was proposed as well. */
  lemma {:induction false} DetailsAre(g: Registry, ps: seq<Proposal>, strategy: Strategy, current: Version)
    requires ParentsFirst(g) && Resolved(g, ps, strategy, current).Some?
    ensures var r := Resolved(g, ps, strategy, current).value;
      && (ps == [] ==> r.details == Details.NoProposals && r.chosen == current)
      && (|VersionsOf(ps)| == 1 ==> r.details == Unanimous && r.chosen in VersionsOf(ps))
      && (|VersionsOf(ps)| >= 2 && strategy == VersionPriority ==>
            if exists v :: v in VersionsOf(ps) && v != r.chosen && ParseLeniently(v) == ParseLeniently(r.chosen)
            then r.details == NewestByTiebreak else r.details == Newest)
  {
    VersionsMembers(ps);
    if |VersionsOf(ps)| >= 2 && strategy == VersionPriority {
      var keys := VersionsOf(ps);
      TopTiedExists(keys);
      TopTiedMembers(keys);
      ManyTied(keys, TopTied(keys), NewestChoice(ps));
    }
  }

  lemma {:induction false} ManyTied(keys: seq<Version>, tied: seq<Version>, chosen: Version)
    requires Distinct(tied) && chosen in tied && forall v :: v in tied <==> IsNewest(keys, v)
    ensures |tied| > 1 <==> exists v :: v in keys && v != chosen && ParseLeniently(v) == ParseLeniently(chosen)
  {
    if |tied| > 1 {
      var v := if tied[0] == chosen then tied[1] else tied[0];
      assert v in tied && IsNewest(keys, v) && IsNewest(keys, chosen);
      assert NotOlder(v, chosen) && NotOlder(chosen, v);
    }
    forall v | v in keys && v != chosen && ParseLeniently(v) == ParseLeniently(chosen)
      ensures |tied| > 1
    {
      assert IsNewest(keys, chosen);
      assert forall k :: k in keys ==> NotOlder(v, k);
      assert v in tied;
    }
  }

  /** Beside a strong agreement its nodes stand in the order of their proposals, and so do all others. */
  lemma {:induction false} AgreementLists(g: Registry, current: Version, ps: seq<Proposal>)
    requires ParentsFirst(g) && ps != [] && Agreed(g, current, ps).Some?
    requires Agreed(g, current, ps).value.strength >= 0.7
    ensures var r := Agreed(g, current, ps).value;
      && r.participating == NodesFor(ps, r.agreed)
      && r.rejected == NodesBeside(ps, r.participating)
  {
    var sorted := SortedScores(g, current, ps);
    StrongIsConcluded(g, current, ps);
    SortedHead(g, current, ps);
    var r := Agreed(g, current, ps).value;
    NodesAreInOrder(ps, r.agreed);
    BesideIs(ps, r.participating, n => n !in r.participating);
  }

  /** The proposing nodes that are not in the list. */
  ghost function NodesBeside(ps: seq<Proposal>, participating: seq<NodeId>): seq<NodeId> {
    if ps == [] then []
    else (if ps[0].node !in participating then [ps[0].node] else []) + NodesBeside(ps[1..], participating)
  }

  lemma {:induction false} BesideIs(ps: seq<Proposal>, participating: seq<NodeId>, keep: NodeId -> bool)
    requires forall n :: keep(n) <==> n !in participating
    ensures Filter(NodesIn(ps), keep) == NodesBeside(ps, participating)
    decreases |ps|
  {
    if ps != [] {
      BesideIs(ps[1..], participating, keep);
      NodesInSplits(ps[..1], ps[1..]);
      assert ps == ps[..1] + ps[1..];
      NodesOfOne(ps[..1]);
      FilterConcatenated([ps[0].node], NodesIn(ps[1..]), keep);
      FilterOfOne(ps[0].node, keep);
    }
  }

  lemma {:induction false} NodesOfOne(ps: seq<Proposal>)
    requires |ps| == 1
    ensures NodesIn(ps) == [ps[0].node]
  {
    assert |ps[..0]| == 0;
  }
}
