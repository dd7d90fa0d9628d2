/** Proposals of nodes, grouped by version: sums, least node ids and winners, and how they depend on the order. */
module Ballots {
  import opened Common
  import opened OrderedDict
  import opened Versions
  import Lexicographic

  datatype NodeId = NodeId(text: string)

  datatype Proposal = Proposal(node: NodeId, version: Version, stability: real, confidence: real)

  // Grouping

  /** The proposed versions in the order of their first proposals. */
  function VersionsOf(ps: seq<Proposal>): seq<Version> {
    if ps == [] then []
    else
      var n := |ps| - 1;
      var vs := VersionsOf(ps[..n]);
      if ps[n].version in vs then vs else vs + [ps[n].version]
  }

  function GroupOf(ps: seq<Proposal>, v: Version): seq<Proposal> {
    if ps == [] then []
    else
      var n := |ps| - 1;
      if ps[n].version == v then GroupOf(ps[..n], v) + [ps[n]] else GroupOf(ps[..n], v)
  }

  lemma {:induction false} OneProposalMore(ps: seq<Proposal>, p: Proposal, v: Version)
    ensures GroupOf(ps + [p], v) == if p.version == v then GroupOf(ps, v) + [p] else GroupOf(ps, v)
    ensures VersionsOf(ps + [p])
      == if p.version in VersionsOf(ps) then VersionsOf(ps) else VersionsOf(ps) + [p.version]
  {
    assert (ps + [p])[..|ps|] == ps;
  }

  lemma {:induction false} VersionsMembers(ps: seq<Proposal>)
    ensures Distinct(VersionsOf(ps))
    ensures forall v :: v in VersionsOf(ps) <==> exists p :: p in ps && p.version == v
    ensures ps != [] ==> VersionsOf(ps) != [] && VersionsOf(ps)[0] == ps[0].version
  {
    if ps != [] {
      var n := |ps| - 1;
      VersionsMembers(ps[..n]);
      assert ps == ps[..n] + [ps[n]];
      forall v
        ensures v in VersionsOf(ps) <==> exists p :: p in ps && p.version == v
      {
        assert (exists p :: p in ps && p.version == v)
          <==> (exists p :: p in ps[..n] && p.version == v) || ps[n].version == v;
      }
    }
  }

  lemma {:induction false} GroupCounts(ps: seq<Proposal>, v: Version)
    ensures forall p :: multiset(GroupOf(ps, v))[p] == if p.version == v then multiset(ps)[p] else 0
  {
    if ps != [] {
      var n := |ps| - 1;
      GroupCounts(ps[..n], v);
      assert ps == ps[..n] + [ps[n]];
    }
  }

  lemma {:induction false} GroupMembers(ps: seq<Proposal>, v: Version)
    ensures forall p :: p in GroupOf(ps, v) <==> p in ps && p.version == v
  {
    GroupCounts(ps, v);
    forall p
      ensures p in GroupOf(ps, v) <==> p in ps && p.version == v
    {
      assert p in GroupOf(ps, v) <==> multiset(GroupOf(ps, v))[p] > 0;
      assert p in ps <==> multiset(ps)[p] > 0;
    }
  }

  lemma {:induction false} GroupedVersions(ps: seq<Proposal>, v: Version)
    ensures v in VersionsOf(ps) <==> GroupOf(ps, v) != []
  {
    GroupMembers(ps, v);
    VersionsMembers(ps);
    if GroupOf(ps, v) != [] {
      assert GroupOf(ps, v)[0] in GroupOf(ps, v);
    }
    if v in VersionsOf(ps) {
      var p :| p in ps && p.version == v;
      assert p in GroupOf(ps, v);
    }
  }

  method Group(ps: seq<Proposal>) returns (groups: Dict<Version, seq<Proposal>>)
    ensures groups.keys == VersionsOf(ps)
    ensures groups.values == map v | v in VersionsOf(ps) :: GroupOf(ps, v)
  {
    groups := Dict([], map[]);
    for i := 0 to |ps|
      invariant groups.keys == VersionsOf(ps[..i])
      invariant forall v :: v in groups.values <==> v in VersionsOf(ps[..i])
      invariant forall v :: v in groups.values ==> groups.values[v] == GroupOf(ps[..i], v)
    {
      var p := ps[i];
      assert ps[..i + 1][..i] == ps[..i];
      GroupedVersions(ps[..i], p.version);
      if p.version in groups.values {
        groups := groups.Put(p.version, groups.values[p.version] + [p]);
      } else {
        groups := groups.Put(p.version, [p]);
      }
    }
    assert ps[..|ps|] == ps;
  }

  // Sums do not depend on the order

  function SumOf<T>(s: seq<T>, f: T -> real): real {
    if s == [] then 0.0 else SumOf(s[..|s| - 1], f) + f(s[|s| - 1])
  }

  lemma {:induction false} SumWithout<T>(s: seq<T>, f: T -> real, i: nat)
    requires i < |s|
    ensures SumOf(s, f) == SumOf(s[..i] + s[i + 1..], f) + f(s[i])
  {
    var n := |s| - 1;
    if i == n {
      assert s[..i] + s[i + 1..] == s[..n];
    } else {
      SumWithout(s[..n], f, i);
      var t := s[..i] + s[i + 1..];
      assert t[..n - 1] == s[..n][..i] + s[..n][i + 1..];
      assert t[n - 1] == s[n];
    }
  }

  lemma {:induction false} SumPermutes<T>(a: seq<T>, b: seq<T>, f: T -> real)
    requires multiset(a) == multiset(b)
    ensures SumOf(a, f) == SumOf(b, f)
  {
    if a == [] {
      assert |multiset(b)| == 0;
    } else {
      var i := TakeOut(a, b);
      SumPermutes(a[1..], b[..i] + b[i + 1..], f);
      SumWithout(b, f, i);
      SumWithout(a, f, 0);
      assert a[..0] + a[1..] == a[1..];
    }
  }

  function Average(group: seq<Proposal>, f: Proposal -> real): real {
    if group == [] then 0.0 else SumOf(group, f) / |group| as real
  }

  lemma {:induction false} SumSplits<T>(a: seq<T>, b: seq<T>, f: T -> real)
    ensures SumOf(a + b, f) == SumOf(a, f) + SumOf(b, f)
  {
    if b == [] {
      assert a + b == a;
    } else {
      var n := |b| - 1;
      assert (a + b)[..|a| + n] == a + b[..n] && (a + b)[|a| + n] == b[n];
      SumSplits(a, b[..n], f);
    }
  }

  /** The average lies between bounds of what is averaged. */
  lemma {:induction false} AverageIsBetween(group: seq<Proposal>, f: Proposal -> real, low: real, high: real)
    requires group != [] && forall p :: p in group ==> low <= f(p) <= high
    ensures low <= Average(group, f) <= high
    ensures Average(group, f) * |group| as real == SumOf(group, f)
  {
    SumIsBetween(group, f, low, high);
    var n := |group| as real;
    var a := SumOf(group, f) / n;
    assert a * n == SumOf(group, f);
    if a < low {
      assert (low - a) * n > 0.0;
    }
    if a > high {
      assert (a - high) * n > 0.0;
    }
  }

  lemma {:induction false} SumIsBetween(group: seq<Proposal>, f: Proposal -> real, low: real, high: real)
    requires forall p :: p in group ==> low <= f(p) <= high
    ensures low * |group| as real <= SumOf(group, f) <= high * |group| as real
  {
    if group != [] {
      var n := |group| - 1;
      SumIsBetween(group[..n], f, low, high);
      assert group[n] in group;
      assert low * |group| as real == low * n as real + low && high * |group| as real == high * n as real + high;
    }
  }

  lemma {:induction false} TwoVersions(p: Proposal, q: Proposal)
    requires p.version != q.version
    ensures VersionsOf([p, q]) == [p.version, q.version]
    ensures GroupOf([p, q], p.version) == [p] && GroupOf([p, q], q.version) == [q]
  {
    assert [] + [p] == [p] && [p] + [q] == [p, q] && [] + [q] == [q];
    OneProposalMore([], p, p.version);
    OneProposalMore([], p, q.version);
    OneProposalMore([p], q, p.version);
    OneProposalMore([p], q, q.version);
  }

  lemma {:induction false} AverageOfOne(p: Proposal, f: Proposal -> real)
    ensures Average([p], f) == f(p)
  {
    assert [p][..0] == [];
    assert SumOf([p], f) == 0.0 + f(p);
  }

  // The least node id

  /** The alphabetically first id; the empty text for no ids. */
  function LeastNode(group: seq<Proposal>): string {
    if group == [] then ""
    else
      var n := |group| - 1;
      if n == 0 || Lexicographic.Less(group[n].node.text, LeastNode(group[..n])) then group[n].node.text
      else LeastNode(group[..n])
  }

  ghost predicate IsLeastNode(group: seq<Proposal>, id: string) {
    && (exists p :: p in group && p.node.text == id)
    && forall p :: p in group ==> !Lexicographic.Less(p.node.text, id)
  }

  lemma {:induction false} LeastNodeIsLeast(group: seq<Proposal>)
    requires group != []
    ensures IsLeastNode(group, LeastNode(group))
  {
    var n := |group| - 1;
    Lexicographic.Irreflexive(group[n].node.text);
    assert group == group[..n] + [group[n]];
    if n > 0 {
      LeastNodeIsLeast(group[..n]);
      var least := LeastNode(group[..n]);
      if Lexicographic.Less(group[n].node.text, least) {
        forall p | p in group
          ensures !Lexicographic.Less(p.node.text, group[n].node.text)
        {
          if Lexicographic.Less(p.node.text, group[n].node.text) {
            Lexicographic.Transitive(p.node.text, group[n].node.text, least);
          }
        }
      }
    }
  }

  lemma {:induction false} LeastNodeIsUnique(group: seq<Proposal>, a: string, b: string)
    requires IsLeastNode(group, a) && IsLeastNode(group, b)
    ensures a == b
  {
    Lexicographic.Trichotomy(a, b);
  }

  /** Groups of a permutation have the same averages and the same least ids. */
  lemma {:induction false} GroupsPermute(ps: seq<Proposal>, qs: seq<Proposal>, v: Version, f: Proposal -> real)
    requires multiset(ps) == multiset(qs)
    ensures v in VersionsOf(ps) <==> v in VersionsOf(qs)
    ensures Average(GroupOf(ps, v), f) == Average(GroupOf(qs, v), f)
    ensures LeastNode(GroupOf(ps, v)) == LeastNode(GroupOf(qs, v))
  {
    var a, b := GroupOf(ps, v), GroupOf(qs, v);
    GroupCounts(ps, v);
    GroupCounts(qs, v);
    assert multiset(a) == multiset(b);
    assert |a| == |multiset(a)| == |multiset(b)| == |b|;
    SumPermutes(a, b, f);
    SameMembers(a, b);
    SameMembers(ps, qs);
    VersionsMembers(ps);
    VersionsMembers(qs);
    if a != [] {
      LeastNodeIsLeast(a);
      LeastNodeIsLeast(b);
      LeastNodeIsUnique(a, LeastNode(a), LeastNode(b));
    }
  }

  lemma {:induction false} SameMembers<T>(a: seq<T>, b: seq<T>)
    requires multiset(a) == multiset(b)
    ensures forall x :: x in a <==> x in b
  {
    forall x
      ensures x in a <==> x in b
    {
      assert x in a <==> x in multiset(a);
      assert x in b <==> x in multiset(b);
    }
  }

  // Winners

  /** Where a version stands: its score, and the least id among its nodes for ties. */
  datatype Standing = Standing(score: real, least: string)

  predicate Beats(a: Standing, b: Standing) {
    a.score > b.score || (a.score == b.score && Lexicographic.Less(a.least, b.least))
  }

  /** The running best: a later version replaces the best so far only by beating it. */
  function Best(keys: seq<Version>, standing: Version -> Standing): (v: Version)
    requires keys != []
    ensures v in keys
  {
    var n := |keys| - 1;
    if n == 0 then keys[0]
    else
      var best := Best(keys[..n], standing);
      if Beats(standing(keys[n]), standing(best)) then keys[n] else best
  }

  /** The same running best on a table of standings. */
  function Leader(ss: seq<Standing>): (k: nat)
    requires ss != []
    ensures k < |ss|
  {
    var n := |ss| - 1;
    if n == 0 then 0
    else
      var k := Leader(ss[..n]);
      if Beats(ss[n], ss[k]) then n else k
  }

  lemma {:induction false} LeaderOfLonger(ss: seq<Standing>, x: Standing)
    ensures Leader(ss + [x]) == if ss == [] || Beats(x, ss[Leader(ss)]) then |ss| else Leader(ss)
  {
    assert (ss + [x])[..|ss|] == ss;
  }

  /** The table lists the standings of the first keys. */
  ghost predicate Tabulates(ss: seq<Standing>, keys: seq<Version>, standing: Version -> Standing) {
    |ss| <= |keys| && forall j {:trigger ss[j]} :: 0 <= j < |ss| ==> ss[j] == standing(keys[j])
  }

  lemma {:induction false} TableGrows(ss: seq<Standing>, keys: seq<Version>, standing: Version -> Standing)
    requires Tabulates(ss, keys, standing) && |ss| < |keys|
    ensures Tabulates(ss + [standing(keys[|ss|])], keys, standing)
  {
  }

  lemma {:induction false} LeaderIsBest(keys: seq<Version>, standing: Version -> Standing, ss: seq<Standing>)
    requires keys != [] && |ss| == |keys| && Tabulates(ss, keys, standing)
    ensures Best(keys, standing) == keys[Leader(ss)]
  {
    var n := |keys| - 1;
    if n > 0 {
      assert Tabulates(ss[..n], keys[..n], standing);
      LeaderIsBest(keys[..n], standing, ss[..n]);
    }
  }

  ghost predicate Unbeaten(keys: seq<Version>, standing: Version -> Standing, v: Version) {
    v in keys && forall k :: k in keys ==> !Beats(standing(k), standing(v))
  }

  lemma {:induction false} NotBeatenTransitive(a: Standing, b: Standing, c: Standing)
    requires !Beats(a, b) && !Beats(b, c)
    ensures !Beats(a, c)
  {
    if a.score == b.score == c.score && Lexicographic.Less(a.least, c.least) {
      Lexicographic.Trichotomy(a.least, b.least);
      Lexicographic.Trichotomy(b.least, c.least);
      if Lexicographic.Less(b.least, a.least) {
        Lexicographic.Transitive(b.least, a.least, c.least);
      }
    }
  }

  lemma {:induction false} BeatsIrreflexive(a: Standing)
    ensures !Beats(a, a)
  {
    Lexicographic.Irreflexive(a.least);
  }

  lemma {:induction false} BeatsAsymmetric(a: Standing, b: Standing)
    requires Beats(a, b)
    ensures !Beats(b, a)
  {
    if a.score == b.score && Lexicographic.Less(b.least, a.least) {
      Lexicographic.Transitive(a.least, b.least, a.least);
      Lexicographic.Irreflexive(a.least);
    }
  }

  lemma {:induction false} BestIsUnbeaten(keys: seq<Version>, standing: Version -> Standing)
    requires keys != []
    ensures Unbeaten(keys, standing, Best(keys, standing))
    ensures Unbeaten(keys, standing, keys[0]) ==> Best(keys, standing) == keys[0]
  {
    var n := |keys| - 1;
    var best := Best(keys, standing);
    BeatsIrreflexive(standing(best));
    if n > 0 {
      BestIsUnbeaten(keys[..n], standing);
      var before := Best(keys[..n], standing);
      assert keys == keys[..n] + [keys[n]];
      if best != before {
        BeatsAsymmetric(standing(best), standing(before));
      }
      forall k | k in keys
        ensures !Beats(standing(k), standing(best))
      {
        if k in keys[..n] && best != before {
          NotBeatenTransitive(standing(k), standing(before), standing(best));
        }
      }
    }
  }

  /** The winner is decided when no two versions are both unbeaten. */
  ghost predicate Decided(keys: seq<Version>, standing: Version -> Standing) {
    forall v, w :: Unbeaten(keys, standing, v) && Unbeaten(keys, standing, w) ==> v == w
  }

  /** Same versions, same standings, one unbeaten version: the order of the versions is immaterial. */
  lemma {:induction false} DecidedBestPermutes(keys: seq<Version>, others: seq<Version>,
                                               standing: Version -> Standing, standing': Version -> Standing)
    requires keys != [] && others != [] && Decided(keys, standing)
    requires forall v :: v in keys <==> v in others
    requires forall v :: v in keys ==> standing(v) == standing'(v)
    ensures Best(keys, standing) == Best(others, standing')
  {
    BestIsUnbeaten(keys, standing);
    BestIsUnbeaten(others, standing');
    var w := Best(others, standing');
    forall k | k in keys
      ensures !Beats(standing(k), standing(w))
    {
      assert k in others;
    }
    assert Unbeaten(keys, standing, w);
  }

  /** The proposals of one version moved to the front. */
  function Promote(ps: seq<Proposal>, v: Version): seq<Proposal> {
    GroupOf(ps, v) + OthersOf(ps, v)
  }

  function OthersOf(ps: seq<Proposal>, v: Version): seq<Proposal> {
    if ps == [] then []
    else
      var n := |ps| - 1;
      if ps[n].version == v then OthersOf(ps[..n], v) else OthersOf(ps[..n], v) + [ps[n]]
  }

  lemma {:induction false} PromotePermutes(ps: seq<Proposal>, v: Version)
    ensures multiset(Promote(ps, v)) == multiset(ps)
  {
    if ps != [] {
      var n := |ps| - 1;
      PromotePermutes(ps[..n], v);
      assert ps == ps[..n] + [ps[n]];
    }
  }

  lemma {:induction false} PromotedFirst(ps: seq<Proposal>, v: Version)
    requires v in VersionsOf(ps)
    ensures VersionsOf(Promote(ps, v)) != [] && VersionsOf(Promote(ps, v))[0] == v
  {
    VersionsMembers(ps);
    GroupMembers(ps, v);
    var p :| p in ps && p.version == v;
    assert p in GroupOf(ps, v);
    var qs := Promote(ps, v);
    assert qs[0] == GroupOf(ps, v)[0] && qs[0] in GroupOf(ps, v);
    VersionsMembers(qs);
  }

  // Distinct nodes

  ghost predicate DistinctNodes(ps: seq<Proposal>) {
    forall i, j :: 0 <= i < j < |ps| ==> ps[i].node != ps[j].node
  }

  lemma {:induction false} LeastProposal(ps: seq<Proposal>, v: Version) returns (p: Proposal)
    requires exists q :: q in ps && q.version == v
    ensures p in ps && p.version == v && p.node.text == LeastNode(GroupOf(ps, v))
  {
    GroupMembers(ps, v);
    var q :| q in ps && q.version == v;
    assert q in GroupOf(ps, v);
    LeastNodeIsLeast(GroupOf(ps, v));
    p :| p in GroupOf(ps, v) && p.node.text == LeastNode(GroupOf(ps, v));
  }
}
