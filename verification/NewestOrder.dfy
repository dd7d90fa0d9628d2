/** The newest-version strategy: it depends on the order of the proposals exactly when three versions tie. */
module NewestOrder {
  import opened Common
  import opened Versions
  import opened Ballots
  import opened ConflictResolvers
  import opened ConflictOrder
  import opened Sorting
  import Lexicographic

  ghost predicate IsNewest(keys: seq<Version>, v: Version) {
    v in keys && forall k :: k in keys ==> NotOlder(v, k)
  }

  lemma {:induction false} NotOlderIsTotal()
    ensures TotalOrder(NotOlder)
  {
    assert forall x, y :: NotOlder(x, y) || NotOlder(y, x);
    assert forall x, y, z :: NotOlder(x, y) && NotOlder(y, z) ==> NotOlder(x, z);
  }

  /** The tie is between all newest versions, in the order in which they were proposed. */
  lemma {:induction false} TopTiedIsFilter(keys: seq<Version>)
    requires keys != []
    ensures var sorted := StableSort(keys, NotOlder);
      sorted != [] && IsNewest(keys, sorted[0]) && TopTied(keys) == Filter(keys, Alike(sorted[0]))
  {
    var sorted := StableSort(keys, NotOlder);
    TopTiedExists(keys);
    NotOlderIsTotal();
    StableSortSorted(keys, NotOlder);
    SameMembers(sorted, keys);
    forall k | k in keys
      ensures NotOlder(sorted[0], k)
    {
      var i :| 0 <= i < |sorted| && sorted[i] == k;
      assert i > 0 ==> NotOlder(sorted[0], sorted[i]);
    }
    SortIsStable(keys, NotOlder, Alike(sorted[0]));
  }

  lemma {:induction false} TopTiedMembers(keys: seq<Version>)
    requires keys != [] && Distinct(keys)
    ensures Distinct(TopTied(keys))
    ensures forall v :: v in TopTied(keys) <==> IsNewest(keys, v)
  {
    TopTiedIsFilter(keys);
    var top := StableSort(keys, NotOlder)[0];
    FilterMembers(keys, Alike(top));
    FilterDistinct(keys, Alike(top));
    forall v
      ensures v in TopTied(keys) <==> IsNewest(keys, v)
    {
      if IsNewest(keys, v) {
        assert NotOlder(v, top) && NotOlder(top, v);
      }
    }
  }

  function NewestChoiceOf(ps: seq<Proposal>): Option<Version> {
    if TopTied(VersionsOf(ps)) == [] then None else Some(NewestChoice(ps))
  }

  lemma {:induction false} SameTied(ps: seq<Proposal>, qs: seq<Proposal>)
    requires ps != [] && multiset(ps) == multiset(qs)
    ensures VersionsOf(ps) != [] && VersionsOf(qs) != []
    ensures forall v :: v in TopTied(VersionsOf(ps)) <==> v in TopTied(VersionsOf(qs))
    ensures |TopTied(VersionsOf(ps))| == |TopTied(VersionsOf(qs))|
  {
    assert |ps| == |multiset(ps)| == |multiset(qs)| == |qs|;
    VersionsMembers(ps);
    VersionsMembers(qs);
    SameVersions(ps, qs);
    TopTiedMembers(VersionsOf(ps));
    TopTiedMembers(VersionsOf(qs));
    SameElementsSameLength(TopTied(VersionsOf(ps)), TopTied(VersionsOf(qs)));
  }

  lemma {:induction false} PickPermutes(t: seq<Version>, u: seq<Version>, least: Version -> string,
                                        least': Version -> string)
    requires 1 <= |t| == |u| <= 2 && Distinct(t) && Distinct(u)
    requires forall v :: v in t <==> v in u
    requires forall v :: v in t ==> least(v) == least'(v)
    requires |t| == 2 ==> least(t[0]) != least(t[1])
    ensures Pick(t, least) == Pick(u, least')
  {
    assert t[0] in u && u[0] in t;
    if |t| == 2 {
      assert t[1] in u && u[1] in t;
      Lexicographic.Trichotomy(least(t[0]), least(t[1]));
      LessIsAsymmetric(least(t[0]), least(t[1]));
    }
  }

  /** With at most two newest versions every order of the proposals leads to the same choice. */
  lemma {:induction false} TwoTiedAreSettled(ps: seq<Proposal>, qs: seq<Proposal>)
    requires ps != [] && DistinctNodes(ps) && multiset(ps) == multiset(qs)
    requires |TopTied(VersionsOf(ps))| <= 2
    ensures NewestChoiceOf(ps) == NewestChoiceOf(qs)
  {
    SameTied(ps, qs);
    var t := TiedOf(ps);
    var u := TiedOf(qs);
    var least, least' := LeastNodes(ps), LeastNodes(qs);
    forall v
      ensures least(v) == least'(v)
    {
      GroupsPermute(ps, qs, v, StabilityOf);
    }
    if |t| == 2 {
      LeastIdsDiffer(ps, t[0], t[1]);
    }
    PickPermutes(t, u, least, least');
  }

  lemma {:induction false} TiedOf(ps: seq<Proposal>) returns (tied: seq<Version>)
    ensures tied == TopTied(VersionsOf(ps)) && Distinct(tied)
    ensures forall v :: v in tied ==> v in VersionsOf(ps)
    ensures ps != [] ==> tied != []
  {
    tied := TopTied(VersionsOf(ps));
    VersionsMembers(ps);
    if ps != [] {
      TopTiedExists(VersionsOf(ps));
      TopTiedMembers(VersionsOf(ps));
    }
  }

  lemma {:induction false} LessIsAsymmetric(a: string, b: string)
    ensures !(Lexicographic.Less(a, b) && Lexicographic.Less(b, a))
  {
    Lexicographic.Irreflexive(a);
    if Lexicographic.Less(a, b) && Lexicographic.Less(b, a) {
      Lexicographic.Transitive(a, b, a);
    }
  }

  lemma {:induction false} LeastIdsDiffer(ps: seq<Proposal>, v: Version, w: Version)
    requires DistinctNodes(ps) && v in VersionsOf(ps) && w in VersionsOf(ps) && v != w
    ensures LeastNode(GroupOf(ps, v)) != LeastNode(GroupOf(ps, w))
  {
    VersionsMembers(ps);
    var p := LeastProposal(ps, v);
    var q := LeastProposal(ps, w);
    if p.node.text == q.node.text {
      assert p.node == q.node;
      SameNodeSameProposal(ps, p, q);
    }
  }

  lemma {:induction false} VersionsOfOneGroup(group: seq<Proposal>, v: Version)
    requires group != [] && forall p :: p in group ==> p.version == v
    ensures VersionsOf(group) == [v]
  {
    var n := |group| - 1;
    assert group[n] in group;
    if n > 0 {
      VersionsOfOneGroup(group[..n], v);
    }
  }

  function Extend(vs: seq<Version>, v: Version): seq<Version> {
    if v in vs then vs else vs + [v]
  }

  lemma {:induction false} ExtendBehind(v: Version, vs: seq<Version>, w: Version)
    requires w != v
    ensures Extend([v] + vs, w) == [v] + Extend(vs, w)
  {
    assert [v] + vs + [w] == [v] + (vs + [w]);
  }

  lemma {:induction false} VersionsExtend(ps: seq<Proposal>, p: Proposal)
    ensures VersionsOf(ps + [p]) == Extend(VersionsOf(ps), p.version)
  {
    OneProposalMore(ps, p, p.version);
  }

  lemma {:induction false} FollowedByOneMore(group: seq<Proposal>, rest: seq<Proposal>, p: Proposal, v: Version)
    requires p.version != v && VersionsOf(group + rest) == [v] + VersionsOf(rest)
    ensures VersionsOf(group + (rest + [p])) == [v] + VersionsOf(rest + [p])
  {
    VersionsExtend(rest, p);
    VersionsExtend(group + rest, p);
    ExtendBehind(v, VersionsOf(rest), p.version);
    assert group + (rest + [p]) == group + rest + [p];
  }

  lemma {:induction false} VersionsOfFollowed(group: seq<Proposal>, rest: seq<Proposal>, v: Version)
    requires VersionsOf(group) == [v] && forall p :: p in rest ==> p.version != v
    ensures VersionsOf(group + rest) == [v] + VersionsOf(rest)
  {
    if rest == [] {
      assert group + rest == group;
    } else {
      var n := |rest| - 1;
      VersionsOfFollowed(group, rest[..n], v);
      FollowedByOneMore(group, rest[..n], rest[n], v);
      assert rest == rest[..n] + [rest[n]];
    }
  }

  lemma {:induction false} OthersMembers(ps: seq<Proposal>, v: Version)
    ensures forall p :: p in OthersOf(ps, v) ==> p.version != v
    ensures ps != [] && ps[0].version != v ==> OthersOf(ps, v) != [] && OthersOf(ps, v)[0] == ps[0]
  {
    if ps != [] {
      OthersMembers(ps[..|ps| - 1], v);
    }
  }

  lemma {:induction false} PromotedKeepsOthers(ps: seq<Proposal>, v: Version)
    requires v in VersionsOf(ps)
    ensures VersionsOf(Promote(ps, v)) == [v] + VersionsOf(OthersOf(ps, v))
  {
    GroupedVersions(ps, v);
    GroupMembers(ps, v);
    VersionsOfOneGroup(GroupOf(ps, v), v);
    OthersMembers(ps, v);
    VersionsOfFollowed(GroupOf(ps, v), OthersOf(ps, v), v);
  }

  /** Any two proposed versions can be brought to the front. */
  lemma {:induction false} BothPromoted(ps: seq<Proposal>, v: Version, w: Version) returns (qs: seq<Proposal>)
    requires v in VersionsOf(ps) && w in VersionsOf(ps) && v != w
    ensures multiset(qs) == multiset(ps)
    ensures |VersionsOf(qs)| >= 2 && VersionsOf(qs)[0] == v && VersionsOf(qs)[1] == w
  {
    var one := Promote(ps, w);
    PromotePermutes(ps, w);
    PromotedFirst(ps, w);
    SameVersions(ps, one);
    qs := Promote(one, v);
    PromotePermutes(one, v);
    PromotedKeepsOthers(one, v);
    VersionsMembers(one);
    OthersMembers(one, v);
    VersionsMembers(OthersOf(one, v));
  }

  lemma {:induction false} NewestAreAlike(keys: seq<Version>, v: Version, top: Version)
    requires IsNewest(keys, v) && IsNewest(keys, top)
    ensures Alike(top)(v)
  {
    assert NotOlder(v, top) && NotOlder(top, v);
  }

  /** Two newest versions at the front are the two that the tie-break looks at. */
  lemma {:induction false} FrontPairTies(keys: seq<Version>)
    requires |keys| >= 2 && IsNewest(keys, keys[0]) && IsNewest(keys, keys[1])
    ensures |TopTied(keys)| >= 2 && TopTied(keys)[0] == keys[0] && TopTied(keys)[1] == keys[1]
  {
    TopTiedIsFilter(keys);
    var top := StableSort(keys, NotOlder)[0];
    NewestAreAlike(keys, keys[0], top);
    NewestAreAlike(keys, keys[1], top);
    FilterFront(keys, Alike(top));
  }

  /** Any two newest versions can be made the only candidates, by bringing them to the front. */
  lemma {:induction false} PairCanDecide(ps: seq<Proposal>, v: Version, w: Version) returns (qs: seq<Proposal>)
    requires v in TopTied(VersionsOf(ps)) && w in TopTied(VersionsOf(ps)) && v != w
    ensures multiset(qs) == multiset(ps)
    ensures NewestChoiceOf(qs) == Some(v) || NewestChoiceOf(qs) == Some(w)
  {
    var tied := TiedOf(ps);
    qs := BothPromoted(ps, v, w);
    var tied' := TiedOf(qs);
    SameMembers(ps, qs);
    SameTied(ps, qs);
    VersionsMembers(qs);
    TopTiedMembers(VersionsOf(qs));
    FrontPairTies(VersionsOf(qs));
  }

  /** Three newest versions: some order of the proposals leaves out whichever was chosen. */
  lemma {:induction false} ThreeTiedAreNot(ps: seq<Proposal>)
    requires |TopTied(VersionsOf(ps))| >= 3
    ensures !OrderFree(ps, NewestChoiceOf)
  {
    var t := TiedOf(ps);
    assert t[0] in t && t[1] in t && t[2] in t;
    var chosen := NewestChoiceOf(ps).value;
    var v := if t[0] != chosen then t[0] else t[2];
    var w := if t[1] != chosen then t[1] else t[2];
    var qs := PairCanDecide(ps, v, w);
    assert NewestChoiceOf(qs) != NewestChoiceOf(ps);
  }

  /** Among distinct nodes, the order of the proposals is immaterial exactly when at most two newest versions tie. */
  lemma {:induction false} NewestOrderFreeIff(ps: seq<Proposal>)
    requires ps != [] && DistinctNodes(ps)
    ensures OrderFree(ps, NewestChoiceOf) <==> |TopTied(VersionsOf(ps))| <= 2
  {
    if |TopTied(VersionsOf(ps))| <= 2 {
      forall qs | multiset(qs) == multiset(ps)
        ensures NewestChoiceOf(qs) == NewestChoiceOf(ps)
      {
        TwoTiedAreSettled(ps, qs);
      }
    } else {
      ThreeTiedAreNot(ps);
    }
  }

  lemma {:induction false} VersionsOfThree(a: Proposal, b: Proposal, c: Proposal)
    requires a.version != b.version && a.version != c.version && b.version != c.version
    ensures VersionsOf([a, b, c]) == [a.version, b.version, c.version]
  {
    assert [a, b, c][..2] == [a, b] && [a, b][..1] == [a] && [a][..0] == [];
    assert VersionsOf([a]) == [a.version];
    assert VersionsOf([a, b]) == [a.version, b.version];
  }

  lemma {:induction false} AllAlikeTie(keys: seq<Version>)
    requires keys != [] && Distinct(keys) && forall v, w :: v in keys && w in keys ==> NotOlder(v, w)
    ensures |TopTied(keys)| == |keys|
  {
    TopTiedMembers(keys);
    SameElementsSameLength(keys, TopTied(keys));
  }

  lemma {:induction false} ReadAlike(v: Version, w: Version)
    requires Parse(v).Some? && Parse(v) == Parse(w)
    ensures NotOlder(v, w)
  {
    StrictIsLenient(v);
    StrictIsLenient(w);
  }

  lemma {:induction false} SpellingsTie(u: Version, v: Version, w: Version)
    requires Parse(u).Some? && Parse(u) == Parse(v) == Parse(w) && u != v && u != w && v != w
    ensures |TopTied([u, v, w])| == 3
  {
    forall x, y | x in [u, v, w] && y in [u, v, w]
      ensures NotOlder(x, y)
    {
      ReadAlike(x, y);
    }
    AllAlikeTie([u, v, w]);
  }

  /** Three nodes that spell one version in three ways: the order of their proposals decides which spelling is
      chosen. */
  lemma {:induction false} ThreeSpellingsTie(p: Proposal, q: Proposal, r: Proposal)
    requires p.version == Version("1.0.0") && q.version == Version("1.0.00") && r.version == Version("01.0.0")
    ensures |TopTied(VersionsOf([p, q, r]))| == 3 && !OrderFree([p, q, r], NewestChoiceOf)
  {
    assert |p.version.text| == 5 && |q.version.text| == 6 && |r.version.text| == 6;
    assert q.version.text[0] != r.version.text[0];
    VersionsOfThree(p, q, r);
    SpellingsOfOne();
    SpellingsTie(p.version, q.version, r.version);
    ThreeTiedAreNot([p, q, r]);
  }
}
