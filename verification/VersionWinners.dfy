/** Which version wins a vote, said in numbers and node names: the newest, the most stable, the cheapest to reach. */
module VersionWinners {
  import opened Common
  import opened Versions
  import opened EvolutionGraphs
  import opened Migrations
  import opened Ballots
  import opened ConflictResolvers
  import opened ConflictOrder
  import opened NewestOrder
  import Lexicographic

  // The newest version

  /** The chosen version was proposed, and no proposed version has greater numbers: major, then minor, then patch. */
  lemma {:induction false} NewestIsChosen(ps: seq<Proposal>, p: Proposal)
    requires p in ps
    ensures TopTied(VersionsOf(ps)) != [] && NewestChoice(ps) in VersionsOf(ps)
    ensures var x, y := ParseLeniently(NewestChoice(ps)), ParseLeniently(p.version);
      || x.major > y.major
      || (x.major == y.major && x.minor > y.minor)
      || (x.major == y.major && x.minor == y.minor && x.patch >= y.patch)
  {
    VersionsMembers(ps);
    assert p.version in VersionsOf(ps);
    TopTiedExists(VersionsOf(ps));
    TopTiedMembers(VersionsOf(ps));
    var tied := TopTied(VersionsOf(ps));
    assert NewestChoice(ps) in tied;
    assert IsNewest(VersionsOf(ps), NewestChoice(ps));
  }

  /** The same of a whole resolution by version, also when only one version was proposed. */
  lemma {:induction false} NewestResolution(g: Registry, ps: seq<Proposal>, current: Version, p: Proposal)
    requires ParentsFirst(g) && p in ps
    ensures Resolved(g, ps, VersionPriority, current).Some?
    ensures var v := Resolved(g, ps, VersionPriority, current).value.chosen;
      var x, y := ParseLeniently(v), ParseLeniently(p.version);
      && v in VersionsOf(ps)
      && (|| x.major > y.major
          || (x.major == y.major && x.minor > y.minor)
          || (x.major == y.major && x.minor == y.minor && x.patch >= y.patch))
  {
    VersionsMembers(ps);
    assert p.version in VersionsOf(ps);
    NewestIsChosen(ps, p);
  }

  lemma {:induction false} LeastOfGroup(ps: seq<Proposal>, v: Version, p: Proposal)
    requires p in ps && p.version == v
    ensures !Lexicographic.Less(p.node.text, LeastNode(GroupOf(ps, v)))
    ensures exists q :: q in ps && q.version == v && q.node.text == LeastNode(GroupOf(ps, v))
  {
    GroupMembers(ps, v);
    LeastNodeIsLeast(GroupOf(ps, v));
  }

  /** A node before all nodes of another group puts the least node of its own group before theirs. */
  lemma {:induction false} FirstNodeLeads(ps: seq<Proposal>, p: Proposal, w: Version)
    requires p in ps && w in VersionsOf(ps)
    requires forall q :: q in ps && q.version == w ==> Lexicographic.Less(p.node.text, q.node.text)
    ensures Lexicographic.Less(LeastNode(GroupOf(ps, p.version)), LeastNode(GroupOf(ps, w)))
    ensures !Lexicographic.Less(LeastNode(GroupOf(ps, w)), LeastNode(GroupOf(ps, p.version)))
  {
    VersionsMembers(ps);
    var other :| other in ps && other.version == w;
    LeastOfGroup(ps, p.version, p);
    LeastOfGroup(ps, w, other);
    var q :| q in ps && q.version == w && q.node.text == LeastNode(GroupOf(ps, w));
    var a, b := LeastNode(GroupOf(ps, p.version)), q.node.text;
    Lexicographic.Trichotomy(a, p.node.text);
    if Lexicographic.Less(a, p.node.text) {
      Lexicographic.Transitive(a, p.node.text, b);
    }
    LessIsAsymmetric(a, b);
  }

  /** Every other proposed version has smaller numbers than v: major, then minor, then patch. */
  ghost predicate OthersAreOlder(ps: seq<Proposal>, v: Version, w: Version) {
    forall q :: q in ps && q.version != v && q.version != w ==>
      var x, y := ParseLeniently(v), ParseLeniently(q.version);
      || x.major > y.major
      || (x.major == y.major && (x.minor > y.minor || (x.minor == y.minor && x.patch > y.patch)))
  }

  lemma {:induction false} PairIsNewest(ps: seq<Proposal>, v: Version, w: Version, k: Version)
    requires v in VersionsOf(ps) && w in VersionsOf(ps) && ParseLeniently(w) == ParseLeniently(v)
    requires OthersAreOlder(ps, v, w)
    ensures IsNewest(VersionsOf(ps), k) <==> k == v || k == w
  {
    VersionsMembers(ps);
    forall u | u in VersionsOf(ps)
      ensures NotOlder(v, u) && NotOlder(w, u) && (u != v && u != w ==> !NotOlder(u, v))
    {
      var q :| q in ps && q.version == u;
    }
  }

  /** Of exactly two newest spellings the one proposed by the alphabetically first node wins, whatever the order. */
  lemma {:induction false} FirstNodeBreaksTie(ps: seq<Proposal>, p: Proposal, w: Version)
    requires p in ps && w in VersionsOf(ps) && w != p.version && ParseLeniently(w) == ParseLeniently(p.version)
    requires OthersAreOlder(ps, p.version, w)
    requires forall q :: q in ps && q.version == w ==> Lexicographic.Less(p.node.text, q.node.text)
    ensures TopTied(VersionsOf(ps)) != [] && NewestChoice(ps) == p.version
  {
    var keys := VersionsOf(ps);
    VersionsMembers(ps);
    assert p.version in keys;
    TopTiedExists(keys);
    TopTiedMembers(keys);
    FirstNodeLeads(ps, p, w);
    forall k
      ensures k in TopTied(keys) <==> k == p.version || k == w
    {
      PairIsNewest(ps, p.version, w, k);
    }
    OnlyTwoTied(TopTied(keys), p.version, w);
  }

  lemma {:induction false} OnlyTwoTied(tied: seq<Version>, v: Version, w: Version)
    requires Distinct(tied) && v != w && forall u :: u in tied <==> u == v || u == w
    ensures |tied| == 2 && ((tied[0] == v && tied[1] == w) || (tied[0] == w && tied[1] == v))
  {
    assert v in tied && w in tied;
    DistinctSize(tied);
    assert Elements(tied) == {v, w};
    assert tied[0] in tied && tied[1] in tied;
  }

  /** Two nodes, 1.0.0 against 2.0.0, in either order: 2.0.0 is chosen. */
  lemma {:induction false} TwoBeatsOne(g: Registry, ps: seq<Proposal>, p: Proposal, q: Proposal, current: Version)
    requires ParentsFirst(g) && p.version == Version("1.0.0") && q.version == Version("2.0.0")
    requires |ps| == 2 && p in ps && q in ps
    ensures Resolved(g, ps, VersionPriority, current).Some?
    ensures Resolved(g, ps, VersionPriority, current).value.chosen == q.version
  {
    OneAndTwoRead();
    NewestResolution(g, ps, current, q);
    VersionsMembers(ps);
    StrictIsLenient(p.version);
    StrictIsLenient(q.version);
    var v := Resolved(g, ps, VersionPriority, current).value.chosen;
    var r :| r in ps && r.version == v;
    TwoOnly(ps, p, q, r);
  }

  lemma {:induction false} TwoOnly<T>(s: seq<T>, a: T, b: T, x: T)
    requires |s| == 2 && a in s && b in s && a != b && x in s
    ensures x == a || x == b
  {
  }

  lemma {:induction false} OneAndTwoRead()
    ensures Parse(Version("1.0.0")) == Some(Triple(1, 0, 0)) && Parse(Version("2.0.0")) == Some(Triple(2, 0, 0))
  {
    SpellingsOfOne();
    TwoReads();
  }

  lemma {:induction false} TwoReads()
    ensures Parse(Version("2.0.0")) == Some(Triple(2, 0, 0))
  {
    RenderedReadsBack(Triple(2, 0, 0));
    assert Digits(0) == "0" && Digits(2) == "2";
    assert Render(Triple(2, 0, 0)).text == "2.0.0";
  }

  // The most stable version

  /** The version that a stability vote names: no average is higher, and at the same average no node comes before. */
  ghost predicate IsMostStable(ps: seq<Proposal>, best: Version, average: real) {
    && best in VersionsOf(ps) && average == Average(GroupOf(ps, best), StabilityOf)
    && forall v :: v in VersionsOf(ps) ==>
         && Average(GroupOf(ps, v), StabilityOf) <= average
         && (Average(GroupOf(ps, v), StabilityOf) == average ==>
               !Lexicographic.Less(LeastNode(GroupOf(ps, v)), LeastNode(GroupOf(ps, best))))
  }

  /** With an average above -1 the most stable version is chosen, its blank text aside; otherwise the current one. */
  lemma {:induction false} StabilityResolution(g: Registry, ps: seq<Proposal>, current: Version)
    requires ParentsFirst(g) && |VersionsOf(ps)| >= 2
    ensures Resolved(g, ps, StabilityPriority, current).Some?
    ensures var r := Resolved(g, ps, StabilityPriority, current).value;
      if exists v :: v in VersionsOf(ps) && Average(GroupOf(ps, v), StabilityOf) > -1.0
      then exists best ::
        && IsMostStable(ps, best, Average(GroupOf(ps, best), StabilityOf))
        && r.details == MostStable(Average(GroupOf(ps, best), StabilityOf))
        && r.chosen == if best.text == "" then current else best
      else r.chosen == current && r.details == MostStable(-1.0)
  {
    var keys, standing := VersionsOf(ps), StabilityStandings(ps);
    BestIsUnbeaten(keys, standing);
    var best := Best(keys, standing);
    forall v | v in keys
      ensures Average(GroupOf(ps, v), StabilityOf) <= Average(GroupOf(ps, best), StabilityOf)
      ensures Average(GroupOf(ps, v), StabilityOf) == Average(GroupOf(ps, best), StabilityOf) ==>
        !Lexicographic.Less(LeastNode(GroupOf(ps, v)), LeastNode(GroupOf(ps, best)))
    {
      assert !Beats(standing(v), standing(best));
    }
    assert IsMostStable(ps, best, Average(GroupOf(ps, best), StabilityOf));
  }

  lemma {:induction false} TwoProposals(ps: seq<Proposal>, p: Proposal, q: Proposal)
    requires |ps| == 2 && p in ps && q in ps && p.version != q.version
    ensures GroupOf(ps, p.version) == [p] && GroupOf(ps, q.version) == [q]
    ensures |VersionsOf(ps)| == 2 && forall v :: v in VersionsOf(ps) <==> v == p.version || v == q.version
  {
    if ps[0] == p {
      assert ps == [p, q];
      TwoVersions(p, q);
    } else {
      assert ps == [q, p];
      TwoVersions(q, p);
    }
  }

  /** Of two nodes that propose different versions, the one with the higher stability score gets its way. */
  lemma {:induction false} StablerNodeWins(g: Registry, ps: seq<Proposal>, p: Proposal, q: Proposal, current: Version)
    requires ParentsFirst(g) && |ps| == 2 && p in ps && q in ps && p.version != q.version && p.version.text != ""
    requires p.stability > q.stability && p.stability > -1.0
    ensures Resolved(g, ps, StabilityPriority, current).Some?
    ensures var r := Resolved(g, ps, StabilityPriority, current).value;
      r.chosen == p.version && r.details == MostStable(p.stability)
  {
    TwoProposals(ps, p, q);
    AverageOfOne(p, StabilityOf);
    AverageOfOne(q, StabilityOf);
    StabilityResolution(g, ps, current);
  }

  // The version that is cheapest to reach

  /** What one version adds to the cost of another, in the numbers of both. */
  lemma {:induction false} PairCosts(g: Registry, from: Version, to: Version)
    requires ParentsFirst(g) && from != to && Parse(from).Some? && Parse(to).Some?
    ensures var f, t, cost := Parse(from).value, Parse(to).value, PairCost(g, from, to);
      && (f.major == t.major && 0 <= t.minor - f.minor <= 1 ==> cost == Some(0.0))
      && (!(f.major == t.major && 0 <= t.minor - f.minor <= 1) && Planned(g, from, to).Err? ==> cost == None)
      && (!(f.major == t.major && 0 <= t.minor - f.minor <= 1) && Planned(g, from, to).Ok? ==>
            cost == Some(if Supported(g, from, to) then |Planned(g, from, to).value.steps| as real else 10.0))
  {
  }

  lemma {:induction false} ReadableIsComparable(g: Registry, keys: seq<Version>)
    requires ParentsFirst(g)
    ensures AllReadable(g, keys) <==> forall a, b :: a in keys && b in keys ==> PairCost(g, a, b).Some?
  {
    HoldsOnMembers(keys, Readability(g, keys));
    if forall a, b :: a in keys && b in keys ==> PairCost(g, a, b).Some? {
      forall b | b in keys
        ensures Readability(g, keys)(b)
      {
      }
    }
    if AllReadable(g, keys) {
      forall a, b | a in keys && b in keys
        ensures PairCost(g, a, b).Some?
      {
        assert Readability(g, keys)(b);
      }
    }
  }

  /** A vote by cost raises if and only if some pair of the proposed versions cannot be compared. */
  lemma {:induction false} CostRaisesIff(g: Registry, ps: seq<Proposal>, current: Version)
    requires ParentsFirst(g) && |VersionsOf(ps)| >= 2
    ensures Resolved(g, ps, MigrationCostMinimization, current).None? <==>
      exists a, b :: a in VersionsOf(ps) && b in VersionsOf(ps) && PairCost(g, a, b).None?
  {
    ReadableIsComparable(g, VersionsOf(ps));
  }

  lemma {:induction false} CheapestUnbeaten(g: Registry, ps: seq<Proposal>, v: Version)
    requires ParentsFirst(g) && v in VersionsOf(ps)
    ensures var best := Best(VersionsOf(ps), CostStandings(g, ps));
      && best in VersionsOf(ps)
      && TotalCost(g, VersionsOf(ps), best) <= TotalCost(g, VersionsOf(ps), v)
      && (TotalCost(g, VersionsOf(ps), best) == TotalCost(g, VersionsOf(ps), v) ==>
            !Lexicographic.Less(LeastNode(GroupOf(ps, v)), LeastNode(GroupOf(ps, best))))
  {
    var keys, standing := VersionsOf(ps), CostStandings(g, ps);
    BestIsUnbeaten(keys, standing);
    assert !Beats(standing(v), standing(Best(keys, standing)));
  }

  /** The chosen version: no other is cheaper to reach, and at the same cost no node comes before. */
  lemma {:induction false} CostResolution(g: Registry, ps: seq<Proposal>, current: Version, v: Version)
    requires ParentsFirst(g) && |VersionsOf(ps)| >= 2 && v in VersionsOf(ps)
    requires Resolved(g, ps, MigrationCostMinimization, current).Some?
    ensures var r := Resolved(g, ps, MigrationCostMinimization, current).value;
      exists best ::
        && best in VersionsOf(ps) && r.details == Cheapest(TotalCost(g, VersionsOf(ps), best))
        && TotalCost(g, VersionsOf(ps), best) <= TotalCost(g, VersionsOf(ps), v)
        && (TotalCost(g, VersionsOf(ps), best) == TotalCost(g, VersionsOf(ps), v) ==>
              !Lexicographic.Less(LeastNode(GroupOf(ps, v)), LeastNode(GroupOf(ps, best))))
        && r.chosen == if best.text == "" then current else best
  {
    CheapestUnbeaten(g, ps, v);
  }

  lemma {:induction false} TwoCosts(g: Registry, keys: seq<Version>, v: Version, w: Version)
    requires ParentsFirst(g) && v != w && PairCost(g, w, v).Some?
    requires |keys| == 2 && v in keys && w in keys
    ensures TotalCost(g, keys, v) == PairCost(g, w, v).value
  {
    var cost := CostOf(g, v);
    SumSplits(keys[..1], keys[1..], cost);
    assert keys == keys[..1] + keys[1..];
    SumOfOne(keys[0], cost);
    SumOfOne(keys[1], cost);
    assert keys[..1] == [keys[0]] && keys[1..] == [keys[1]];
    assert cost(v) == 0.0 && cost(w) == PairCost(g, w, v).value;
  }

  lemma {:induction false} SumOfOne<T>(x: T, f: T -> real)
    ensures SumOf([x], f) == f(x)
  {
    assert [x][..0] == [];
    assert SumOf([x][..0], f) == 0.0;
  }

  lemma {:induction false} PairsComparable(g: Registry, keys: seq<Version>, v: Version, w: Version)
    requires ParentsFirst(g) && forall u :: u in keys <==> u == v || u == w
    requires PairCost(g, v, w).Some? && PairCost(g, w, v).Some?
    ensures AllReadable(g, keys)
  {
    ReadableIsComparable(g, keys);
  }

  /** Of two proposed versions the one that the other reaches at the lower cost is chosen. */
  lemma {:induction false} CheaperMoveWins(g: Registry, ps: seq<Proposal>, p: Proposal, q: Proposal,
                                           current: Version)
    requires ParentsFirst(g) && |ps| == 2 && p in ps && q in ps && p.version != q.version && q.version.text != ""
    requires PairCost(g, p.version, q.version).Some? && PairCost(g, q.version, p.version).Some?
    requires PairCost(g, p.version, q.version).value < PairCost(g, q.version, p.version).value
    ensures Resolved(g, ps, MigrationCostMinimization, current).Some?
    ensures var r := Resolved(g, ps, MigrationCostMinimization, current).value;
      r.chosen == q.version && r.details == Cheapest(PairCost(g, p.version, q.version).value)
  {
    TwoProposals(ps, p, q);
    var keys := VersionsOf(ps);
    assert p.version in keys && q.version in keys;
    PairsComparable(g, keys, p.version, q.version);
    TwoCosts(g, keys, p.version, q.version);
    TwoCosts(g, keys, q.version, p.version);
    CostResolution(g, ps, current, q.version);
  }

  /** Of two versions with minors one apart that no plan joins, the later one is chosen at no cost. */
  lemma {:induction false} CompatibleWins(g: Registry, ps: seq<Proposal>, p: Proposal, q: Proposal,
                                          current: Version)
    requires ParentsFirst(g) && |ps| == 2 && p in ps && q in ps && q.version.text != ""
    requires Parse(p.version).Some? && Parse(q.version).Some?
    requires Parse(q.version).value.major == Parse(p.version).value.major
    requires Parse(q.version).value.minor == Parse(p.version).value.minor + 1
    requires Planned(g, q.version, p.version).Ok? && !Supported(g, q.version, p.version)
    ensures Resolved(g, ps, MigrationCostMinimization, current).Some?
    ensures var r := Resolved(g, ps, MigrationCostMinimization, current).value;
      r.chosen == q.version && r.details == Cheapest(0.0)
  {
    PairCosts(g, p.version, q.version);
    PairCosts(g, q.version, p.version);
    CheaperMoveWins(g, ps, p, q, current);
  }
}
