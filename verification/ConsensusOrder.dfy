/** What a consensus means, and when it depends on the order of the proposals. */
module ConsensusOrder {
  import opened Common
  import opened Versions
  import opened EvolutionGraphs
  import opened Migrations
  import opened MigrationEngines
  import opened OrderedDict
  import opened Ballots
  import opened ConflictResolvers
  import opened ConflictOrder
  import opened Consensus
  import opened Sorting
  import Lexicographic

  /** Standings by average weight alone: nothing breaks a tie. */
  ghost function WeightStandings(g: Registry, current: Version, ps: seq<Proposal>): Version -> Standing
    requires ParentsFirst(g)
  {
    v => Standing(Average(GroupOf(ps, v), WeightIn(g, current)), "")
  }

  ghost function ByWeight(g: Registry, current: Version): seq<Proposal> -> (Version -> Standing)
    requires ParentsFirst(g)
  {
    ps => WeightStandings(g, current, ps)
  }

  ghost function Strength(g: Registry, current: Version, ps: seq<Proposal>, v: Version): real
    requires ParentsFirst(g)
  {
    Average(GroupOf(ps, v), WeightIn(g, current))
  }

  lemma {:induction false} WeightsPermute(g: Registry, current: Version, ps: seq<Proposal>)
    requires ParentsFirst(g)
    ensures Permutable(ps, ByWeight(g, current))
  {
    forall qs, v | multiset(qs) == multiset(ps)
      ensures ByWeight(g, current)(qs)(v) == ByWeight(g, current)(ps)(v)
    {
      GroupsPermute(ps, qs, v, WeightIn(g, current));
    }
  }

  // The dominant version

  lemma {:induction false} InsertHead(s: seq<Score>, x: Score)
    requires Sorted(s, AtLeastAsHeavy)
    ensures Insert(s, x, AtLeastAsHeavy) != []
    ensures Insert(s, x, AtLeastAsHeavy)[0] == if s != [] && AtLeastAsHeavy(s[0], x) then s[0] else x
  {
    if s != [] {
      var n := |s| - 1;
      assert n > 0 ==> AtLeastAsHeavy(s[0], s[n]);
      InsertHead(s[..n], x);
    }
  }

  lemma {:induction false} AtLeastAsHeavyIsTotal()
    ensures TotalOrder(AtLeastAsHeavy)
  {
    assert forall x, y :: AtLeastAsHeavy(x, y) || AtLeastAsHeavy(y, x);
    assert forall x, y, z :: AtLeastAsHeavy(x, y) && AtLeastAsHeavy(y, z) ==> AtLeastAsHeavy(x, z);
  }

  /** The head of the sorted scores is the first of the heaviest versions. */
  lemma {:induction false} SortedHeadStep(before: seq<Score>, x: Score)
    ensures |StableSort(before, AtLeastAsHeavy)| == |before|
    ensures StableSort(before + [x], AtLeastAsHeavy) != []
    ensures StableSort(before + [x], AtLeastAsHeavy)[0] ==
      if before != [] && AtLeastAsHeavy(StableSort(before, AtLeastAsHeavy)[0], x)
      then StableSort(before, AtLeastAsHeavy)[0] else x
  {
    var s := StableSort(before, AtLeastAsHeavy);
    assert |s| == |multiset(s)| == |before|;
    assert (before + [x])[..|before|] == before;
    AtLeastAsHeavyIsTotal();
    StableSortSorted(before, AtLeastAsHeavy);
    InsertHead(s, x);
  }

  lemma {:induction false} BestStep(keys: seq<Version>, score: Version -> Score, standing: Version -> Standing)
    requires |keys| > 1 && forall v :: standing(v) == Standing(score(v).weight, "")
    ensures var n := |keys| - 1; var best := Best(keys[..n], standing);
      Best(keys, standing) == if AtLeastAsHeavy(score(best), score(keys[n])) then best else keys[n]
  {
    Lexicographic.Irreflexive("");
  }

  lemma {:induction false} HeadOfScores(keys: seq<Version>, score: Version -> Score, standing: Version -> Standing)
    requires keys != [] && forall v :: standing(v) == Standing(score(v).weight, "")
    ensures StableSort(ScoresOf(keys, score), AtLeastAsHeavy) != []
    ensures StableSort(ScoresOf(keys, score), AtLeastAsHeavy)[0] == score(Best(keys, standing))
  {
    var n := |keys| - 1;
    var before := ScoresOf(keys[..n], score);
    assert ScoresOf(keys, score) == before + [score(keys[n])];
    SortedHeadStep(before, score(keys[n]));
    ScoresLength(keys[..n], score);
    if n > 0 {
      HeadOfScores(keys[..n], score, standing);
      BestStep(keys, score, standing);
    }
  }

  lemma {:induction false} SortedHead(g: Registry, current: Version, ps: seq<Proposal>)
    requires ParentsFirst(g) && VersionsOf(ps) != []
    ensures SortedScores(g, current, ps) != []
    ensures SortedScores(g, current, ps)[0]
      == ScoreOf(ps, Best(VersionsOf(ps), WeightStandings(g, current, ps)), WeightIn(g, current))
  {
    HeadOfScores(VersionsOf(ps), ScoreIn(ps, WeightIn(g, current)), WeightStandings(g, current, ps));
  }

  lemma {:induction false} ScoresMembers(keys: seq<Version>, score: Version -> Score, x: Score)
    requires forall v :: score(v).version == v
    ensures x in ScoresOf(keys, score) <==> x.version in keys && x == score(x.version)
  {
    if keys != [] {
      var n := |keys| - 1;
      ScoresMembers(keys[..n], score, x);
      assert keys == keys[..n] + [keys[n]];
    }
  }

  /** The sorted scores are those of the proposed versions. */
  lemma {:induction false} SortedMembers(g: Registry, current: Version, ps: seq<Proposal>, x: Score)
    requires ParentsFirst(g)
    ensures x in SortedScores(g, current, ps) <==>
      x.version in VersionsOf(ps) && x == ScoreOf(ps, x.version, WeightIn(g, current))
  {
    var scores := ScoresOf(VersionsOf(ps), ScoreIn(ps, WeightIn(g, current)));
    ScoresMembers(VersionsOf(ps), ScoreIn(ps, WeightIn(g, current)), x);
    SameMembers(StableSort(scores, AtLeastAsHeavy), scores);
  }

  /** Some version among several cannot be read. */
  ghost predicate Unreadable(ps: seq<Proposal>) {
    |VersionsOf(ps)| >= 2 && exists v :: v in VersionsOf(ps) && Parse(v) == None
  }

  lemma {:induction false} CollectedIff(scores: seq<Score>, report: Version -> Option<seq<Reason>>, r: Reason)
    ensures Collected(scores, report) == None <==> exists x :: x in scores && report(x.version) == None
    ensures Collected(scores, report).Some? ==>
      (r in Collected(scores, report).value <==>
         exists x :: x in scores && report(x.version).Some? && r in report(x.version).value)
  {
    if scores != [] {
      var n := |scores| - 1;
      CollectedIff(scores[..n], report, r);
      assert scores == scores[..n] + [scores[n]];
      assert scores[n] in scores;
    }
  }

  lemma {:induction false} IncompatiblesRaiseIff(g: Registry, dominant: Version, scores: seq<Score>)
    requires ParentsFirst(g)
    ensures Incompatibles(g, dominant, scores) == None <==>
      exists x :: x in scores && x.version != dominant && IsBackwardCompatible(x.version, dominant).Err?
  {
    CollectedIff(scores, PathReport(g, dominant), Reason.NoProposals);
    forall x: Score
      ensures PathReport(g, dominant)(x.version) == None <==>
        x.version != dominant && IsBackwardCompatible(x.version, dominant).Err?
    {
    }
  }

  lemma {:induction false} RaisesIff(g: Registry, current: Version, ps: seq<Proposal>, dominant: Version)
    requires ParentsFirst(g) && dominant in VersionsOf(ps)
    ensures Incompatibles(g, dominant, SortedScores(g, current, ps)) == None <==> Unreadable(ps)
  {
    var keys, scores := VersionsOf(ps), SortedScores(g, current, ps);
    IncompatiblesRaiseIff(g, dominant, scores);
    VersionsMembers(ps);
    if Unreadable(ps) {
      var v :| v in keys && Parse(v) == None;
      var u := if v != dominant then v else if keys[0] != dominant then keys[0] else keys[1];
      var x := ScoreOf(ps, u, WeightIn(g, current));
      SortedMembers(g, current, ps, x);
      assert x in scores && IsBackwardCompatible(x.version, dominant).Err?;
    }
    if Incompatibles(g, dominant, scores) == None {
      var x :| x in scores && x.version != dominant && IsBackwardCompatible(x.version, dominant).Err?;
      SortedMembers(g, current, ps, x);
      TwoMembers(keys, x.version, dominant);
    }
  }

  lemma {:induction false} TwoMembers<T>(s: seq<T>, x: T, y: T)
    requires x in s && y in s && x != y
    ensures |s| >= 2
  {
  }

  /** The outcome in terms of the dominant version and its average weight. */
  lemma {:induction false} AgreedMeans(g: Registry, current: Version, ps: seq<Proposal>)
    requires ParentsFirst(g) && ps != []
    ensures VersionsOf(ps) != []
    ensures var d := Best(VersionsOf(ps), WeightStandings(g, current, ps));
      && (Agreed(g, current, ps) == None <==> Strength(g, current, ps, d) >= 0.7 && Unreadable(ps))
      && (Agreed(g, current, ps).Some? ==>
            && Agreed(g, current, ps).value.strength == Strength(g, current, ps, d)
            && Agreed(g, current, ps).value.agreed
              == if Strength(g, current, ps, d) >= 0.7 then d else current)
  {
    VersionsMembers(ps);
    SortedLength(g, current, ps);
    SortedHead(g, current, ps);
    RaisesIff(g, current, ps, Best(VersionsOf(ps), WeightStandings(g, current, ps)));
    ConcludedFor(g, current, ps, SortedScores(g, current, ps));
  }

  /** The current version is left only for a proposed one of strength 0.7 or more that no other outweighs. */
  lemma {:induction false} LeavesCurrentOnlyWhenStrong(g: Registry, current: Version, ps: seq<Proposal>, w: Version)
    requires ParentsFirst(g) && Agreed(g, current, ps).Some? && Agreed(g, current, ps).value.agreed != current
    ensures var r := Agreed(g, current, ps).value;
      && r.strength >= 0.7
      && r.agreed in VersionsOf(ps)
      && r.strength == Strength(g, current, ps, r.agreed)
      && (w in VersionsOf(ps) ==> Strength(g, current, ps, w) <= r.strength)
  {
    SortedLength(g, current, ps);
    AgreedMeans(g, current, ps);
    var standing := WeightStandings(g, current, ps);
    BestIsUnbeaten(VersionsOf(ps), standing);
    if w in VersionsOf(ps) {
      assert !Beats(standing(w), standing(Best(VersionsOf(ps), standing)));
    }
  }

  // The order of the proposals

  ghost function AgreedVersion(g: Registry, current: Version): seq<Proposal> -> Option<Version>
    requires ParentsFirst(g)
  {
    ps => if Agreed(g, current, ps) == None then None else Some(Agreed(g, current, ps).value.agreed)
  }

  /** Strong enough, readable, and two versions tie at the top. */
  ghost predicate Ambiguous(g: Registry, current: Version, ps: seq<Proposal>)
    requires ParentsFirst(g)
  {
    && VersionsOf(ps) != []
    && Strength(g, current, ps, Best(VersionsOf(ps), WeightStandings(g, current, ps))) >= 0.7
    && !Unreadable(ps)
    && !Decided(VersionsOf(ps), WeightStandings(g, current, ps))
  }

  lemma {:induction false} DominantPermutes(g: Registry, current: Version, ps: seq<Proposal>, qs: seq<Proposal>)
    requires ParentsFirst(g) && ps != [] && multiset(ps) == multiset(qs)
    ensures VersionsOf(ps) != [] && VersionsOf(qs) != [] && qs != []
    ensures Strength(g, current, ps, Best(VersionsOf(ps), WeightStandings(g, current, ps)))
      == Strength(g, current, qs, Best(VersionsOf(qs), WeightStandings(g, current, qs)))
    ensures Unreadable(ps) <==> Unreadable(qs)
  {
    assert |ps| == |multiset(ps)| == |multiset(qs)| == |qs|;
    VersionsMembers(ps);
    VersionsMembers(qs);
    SameVersions(ps, qs);
    SameElementsSameLength(VersionsOf(ps), VersionsOf(qs));
    var a, b := WeightStandings(g, current, ps), WeightStandings(g, current, qs);
    BestIsUnbeaten(VersionsOf(ps), a);
    BestIsUnbeaten(VersionsOf(qs), b);
    var d, e := Best(VersionsOf(ps), a), Best(VersionsOf(qs), b);
    GroupsPermute(ps, qs, d, WeightIn(g, current));
    GroupsPermute(ps, qs, e, WeightIn(g, current));
    assert !Beats(a(e), a(d)) && !Beats(b(d), b(e));
  }

  /** The agreed version ignores the order of the proposals exactly when the outcome is not ambiguous. */
  lemma {:induction false} AgreementOrderFreeIff(g: Registry, current: Version, ps: seq<Proposal>)
    requires ParentsFirst(g) && ps != []
    ensures OrderFree(ps, AgreedVersion(g, current)) <==> !Ambiguous(g, current, ps)
  {
    WeightsPermute(g, current, ps);
    if Ambiguous(g, current, ps) {
      TieChangesAgreement(g, current, ps);
    } else {
      forall qs | multiset(qs) == multiset(ps)
        ensures AgreedVersion(g, current)(qs) == AgreedVersion(g, current)(ps)
      {
        DominantPermutes(g, current, ps, qs);
        AgreedMeans(g, current, ps);
        AgreedMeans(g, current, qs);
        if Decided(VersionsOf(ps), ByWeight(g, current)(ps)) {
          DecidedStays(ps, qs, ByWeight(g, current));
        }
      }
    }
  }

  lemma {:induction false} TieChangesAgreement(g: Registry, current: Version, ps: seq<Proposal>)
    requires ParentsFirst(g) && ps != [] && Permutable(ps, ByWeight(g, current)) && Ambiguous(g, current, ps)
    ensures !OrderFree(ps, AgreedVersion(g, current))
  {
    var standing := ByWeight(g, current)(ps);
    var v, w :| Unbeaten(VersionsOf(ps), standing, v) && Unbeaten(VersionsOf(ps), standing, w) && v != w;
    PromotedAgrees(g, current, ps, v);
    PromotedAgrees(g, current, ps, w);
    assert AgreedVersion(g, current)(Promote(ps, v)) != AgreedVersion(g, current)(Promote(ps, w));
  }

  lemma {:induction false} PromotedAgrees(g: Registry, current: Version, ps: seq<Proposal>, v: Version)
    requires ParentsFirst(g) && ps != [] && Permutable(ps, ByWeight(g, current)) && Ambiguous(g, current, ps)
    requires Unbeaten(VersionsOf(ps), ByWeight(g, current)(ps), v)
    ensures multiset(Promote(ps, v)) == multiset(ps)
    ensures AgreedVersion(g, current)(Promote(ps, v)) == Some(v)
  {
    PromotedWins(ps, ByWeight(g, current), v);
    DominantPermutes(g, current, ps, Promote(ps, v));
    AgreedMeans(g, current, Promote(ps, v));
  }

  // The reports

  lemma {:induction false} CloseMarginsIff(dominant: Score, rest: seq<Score>, r: Reason)
    ensures r in CloseMargins(dominant, rest) <==>
      exists x :: x in rest && dominant.weight - x.weight < 0.05
                  && r == CloseMargin(dominant.version, x.version, dominant.weight - x.weight)
  {
    if rest != [] {
      var n := |rest| - 1;
      CloseMarginsIff(dominant, rest[..n], r);
      assert rest == rest[..n] + [rest[n]];
      assert rest[n] in rest;
    }
  }

  lemma {:induction false} UnknownsIff(g: Registry, dominant: Version, scores: seq<Score>, r: Reason)
    ensures r in Unknowns(g, dominant, scores) <==>
      exists x :: x in scores && x.version != dominant && x.version !in g.values && r == UnknownSchema(x.version)
  {
    if scores != [] {
      var n := |scores| - 1;
      UnknownsIff(g, dominant, scores[..n], r);
      assert scores == scores[..n] + [scores[n]];
      assert scores[n] in scores;
    }
  }

  /** An incompatible path is reported for exactly the versions from which the dominant one cannot be reached. */
  lemma {:induction false} IncompatiblesIff(g: Registry, dominant: Version, scores: seq<Score>, r: Reason)
    requires ParentsFirst(g) && Incompatibles(g, dominant, scores).Some?
    ensures r in Incompatibles(g, dominant, scores).value <==>
      exists x :: x in scores && x.version != dominant && IsBackwardCompatible(x.version, dominant) == Ok(false)
                  && !Supported(g, x.version, dominant) && r == IncompatiblePath(x.version, dominant)
  {
    CollectedIff(scores, PathReport(g, dominant), r);
    forall x: Score
      ensures PathReport(g, dominant)(x.version).Some? && r in PathReport(g, dominant)(x.version).value <==>
        && x.version != dominant && IsBackwardCompatible(x.version, dominant) == Ok(false)
        && !Supported(g, x.version, dominant) && r == IncompatiblePath(x.version, dominant)
    {
    }
  }

  lemma {:induction false} ReportIs(g: Registry, current: Version, ps: seq<Proposal>, sorted: seq<Score>,
                                    reason: Reason)
    requires ParentsFirst(g) && sorted != [] && sorted[0].weight >= 0.7
    requires Concluded(g, current, ps, sorted).Some?
    ensures Incompatibles(g, sorted[0].version, sorted).Some?
    ensures reason in Concluded(g, current, ps, sorted).value.reasons <==>
      || reason in CloseMargins(sorted[0], sorted[1..])
      || reason in Unknowns(g, sorted[0].version, sorted)
      || reason in Incompatibles(g, sorted[0].version, sorted).value
  {
  }

  /** A strong agreement concludes the sorted scores, headed by the agreed version. */
  lemma {:induction false} StrongIsConcluded(g: Registry, current: Version, ps: seq<Proposal>)
    requires ParentsFirst(g) && ps != [] && Agreed(g, current, ps).Some?
    requires Agreed(g, current, ps).value.strength >= 0.7
    ensures var sorted, r := SortedScores(g, current, ps), Agreed(g, current, ps).value;
      && sorted != [] && Agreed(g, current, ps) == Concluded(g, current, ps, sorted)
      && sorted[0].version == r.agreed && sorted[0].weight == r.strength
  {
    SortedLength(g, current, ps);
    ConcludedFor(g, current, ps, SortedScores(g, current, ps));
  }

  /** A close margin is reported for exactly the other versions whose average is less than 0.05 below. */
  lemma {:induction false} CloseMarginReports(g: Registry, current: Version, ps: seq<Proposal>, w: Version, diff: real)
    requires ParentsFirst(g) && ps != [] && Agreed(g, current, ps).Some?
    requires Agreed(g, current, ps).value.strength >= 0.7
    ensures var r := Agreed(g, current, ps).value;
      CloseMargin(r.agreed, w, diff) in r.reasons <==>
        w in VersionsOf(ps) && w != r.agreed && diff == r.strength - Strength(g, current, ps, w) < 0.05
  {
    StrongIsConcluded(g, current, ps);
    CloseMarginIs(g, current, ps, SortedScores(g, current, ps), w, diff);
    OthersInRest(g, current, ps, w);
  }

  lemma {:induction false} CloseMarginIs(g: Registry, current: Version, ps: seq<Proposal>, sorted: seq<Score>,
                                         w: Version, diff: real)
    requires ParentsFirst(g) && sorted != [] && sorted[0].weight >= 0.7
    requires Concluded(g, current, ps, sorted).Some?
    ensures CloseMargin(sorted[0].version, w, diff) in Concluded(g, current, ps, sorted).value.reasons <==>
      exists x :: x in sorted[1..] && x.version == w && diff == sorted[0].weight - x.weight < 0.05
  {
    OnlyMargins(g, current, ps, sorted, CloseMargin(sorted[0].version, w, diff));
    MarginListed(sorted[0], sorted[1..], w, diff);
  }

  lemma {:induction false} OnlyMargins(g: Registry, current: Version, ps: seq<Proposal>, sorted: seq<Score>, r: Reason)
    requires ParentsFirst(g) && sorted != [] && sorted[0].weight >= 0.7
    requires Concluded(g, current, ps, sorted).Some? && r.CloseMargin?
    ensures r in Concluded(g, current, ps, sorted).value.reasons <==> r in CloseMargins(sorted[0], sorted[1..])
  {
    ReportIs(g, current, ps, sorted, r);
    KindsOfReports(g, sorted[0].version, sorted, r);
  }

  lemma {:induction false} MarginListed(dominant: Score, rest: seq<Score>, w: Version, diff: real)
    ensures CloseMargin(dominant.version, w, diff) in CloseMargins(dominant, rest) <==>
      exists x :: x in rest && x.version == w && diff == dominant.weight - x.weight < 0.05
  {
    CloseMarginsIff(dominant, rest, CloseMargin(dominant.version, w, diff));
  }

  lemma {:induction false} KindsOfReports(g: Registry, dominant: Version, scores: seq<Score>, r: Reason)
    requires ParentsFirst(g) && Incompatibles(g, dominant, scores).Some?
    ensures r in Unknowns(g, dominant, scores) ==> r.UnknownSchema?
    ensures r in Incompatibles(g, dominant, scores).value ==> r.IncompatiblePath?
  {
    UnknownsIff(g, dominant, scores, r);
    IncompatiblesIff(g, dominant, scores, r);
  }

  lemma {:induction false} OthersInRest(g: Registry, current: Version, ps: seq<Proposal>, w: Version)
    requires ParentsFirst(g) && SortedScores(g, current, ps) != []
    ensures var x := ScoreOf(ps, w, WeightIn(g, current));
      && x.version == w && x.weight == Strength(g, current, ps, w)
      && forall y :: y in SortedScores(g, current, ps)[1..] && y.version == w <==>
           w in VersionsOf(ps) && w != SortedScores(g, current, ps)[0].version && y == x
  {
    forall y
      ensures y in SortedScores(g, current, ps)[1..] && y.version == w <==>
        w in VersionsOf(ps) && w != SortedScores(g, current, ps)[0].version && y == ScoreOf(ps, w, WeightIn(g, current))
    {
      SortedMembers(g, current, ps, y);
      RestOfSorted(g, current, ps, y);
    }
  }

  /** An unknown schema is reported for exactly the other versions that are not registered; an orphan never. */
  lemma {:induction false} SchemaReports(g: Registry, current: Version, ps: seq<Proposal>, w: Version)
    requires ParentsFirst(g) && ps != [] && Agreed(g, current, ps).Some?
    requires Agreed(g, current, ps).value.strength >= 0.7
    ensures var r := Agreed(g, current, ps).value;
      && (UnknownSchema(w) in r.reasons <==> w in VersionsOf(ps) && w != r.agreed && w !in g.values)
      && OrphanSchema(w) !in r.reasons
  {
    var sorted, r := SortedScores(g, current, ps), Agreed(g, current, ps).value;
    StrongIsConcluded(g, current, ps);
    forall reason | reason == UnknownSchema(w) || reason == OrphanSchema(w)
      ensures reason in r.reasons <==> reason in Unknowns(g, r.agreed, sorted)
    {
      ReportIs(g, current, ps, sorted, reason);
      CloseMarginsIff(sorted[0], sorted[1..], reason);
      IncompatiblesIff(g, r.agreed, sorted, reason);
    }
    UnknownsIff(g, r.agreed, sorted, UnknownSchema(w));
    UnknownsIff(g, r.agreed, sorted, OrphanSchema(w));
    SortedMembers(g, current, ps, ScoreOf(ps, w, WeightIn(g, current)));
    forall y | y in sorted
      ensures y.version in VersionsOf(ps)
    {
      SortedMembers(g, current, ps, y);
    }
  }

  /** An incompatible path is reported for exactly the other versions that are neither compatible nor migratable. */
  lemma {:induction false} PathReports(g: Registry, current: Version, ps: seq<Proposal>, w: Version)
    requires ParentsFirst(g) && ps != [] && Agreed(g, current, ps).Some?
    requires Agreed(g, current, ps).value.strength >= 0.7
    ensures var r := Agreed(g, current, ps).value;
      IncompatiblePath(w, r.agreed) in r.reasons <==>
        && w in VersionsOf(ps) && w != r.agreed
        && IsBackwardCompatible(w, r.agreed) == Ok(false) && !Supported(g, w, r.agreed)
  {
    var sorted, r := SortedScores(g, current, ps), Agreed(g, current, ps).value;
    var reason := IncompatiblePath(w, r.agreed);
    StrongIsConcluded(g, current, ps);
    ReportIs(g, current, ps, sorted, reason);
    CloseMarginsIff(sorted[0], sorted[1..], reason);
    UnknownsIff(g, r.agreed, sorted, reason);
    IncompatiblesIff(g, r.agreed, sorted, reason);
    SortedMembers(g, current, ps, ScoreOf(ps, w, WeightIn(g, current)));
    forall y | y in sorted
      ensures y.version in VersionsOf(ps)
    {
      SortedMembers(g, current, ps, y);
    }
  }

  /** Beside a strong agreement, the nodes that proposed it take part and all others are rejected. */
  lemma {:induction false} AgreementPartitions(g: Registry, current: Version, ps: seq<Proposal>, n: NodeId)
    requires ParentsFirst(g) && ps != [] && Agreed(g, current, ps).Some?
    requires Agreed(g, current, ps).value.strength >= 0.7
    ensures var r := Agreed(g, current, ps).value;
      && (n in r.participating <==> exists p :: p in ps && p.node == n && p.version == r.agreed)
      && (n in r.rejected <==> Proposes(ps, n) && n !in r.participating)
  {
    var sorted, r := SortedScores(g, current, ps), Agreed(g, current, ps).value;
    StrongIsConcluded(g, current, ps);
    SortedMembers(g, current, ps, sorted[0]);
    NodesInMembers(GroupOf(ps, r.agreed));
    GroupMembers(ps, r.agreed);
    NodesInMembers(ps);
    FilterMembers(NodesIn(ps), m => m !in sorted[0].nodes);
  }

  /** An ambiguous agreement always carries a report of the tie. */
  lemma {:induction false} AmbiguityIsReported(g: Registry, current: Version, ps: seq<Proposal>)
    requires ParentsFirst(g) && ps != [] && Ambiguous(g, current, ps)
    ensures Agreed(g, current, ps).Some?
    ensures var r := Agreed(g, current, ps).value;
      exists w :: w in VersionsOf(ps) && w != r.agreed && CloseMargin(r.agreed, w, 0.0) in r.reasons
  {
    AgreedMeans(g, current, ps);
    var standing := WeightStandings(g, current, ps);
    BestIsUnbeaten(VersionsOf(ps), standing);
    var d := Best(VersionsOf(ps), standing);
    var v, w :| Unbeaten(VersionsOf(ps), standing, v) && Unbeaten(VersionsOf(ps), standing, w) && v != w;
    var u := if v != d then v else w;
    assert !Beats(standing(u), standing(d)) && !Beats(standing(d), standing(u));
    CloseMarginReports(g, current, ps, u, 0.0);
    assert CloseMargin(d, u, 0.0) in Agreed(g, current, ps).value.reasons;
  }

  lemma {:induction false} TailMembers(scores: seq<Score>, x: Score)
    requires scores != []
    requires DistinctVersions(scores)
    ensures x in scores[1..] <==> x in scores && x.version != scores[0].version
  {
    assert scores == [scores[0]] + scores[1..];
  }

  /** Apart from the head, the sorted scores are those of the other versions. */
  lemma {:induction false} RestOfSorted(g: Registry, current: Version, ps: seq<Proposal>, x: Score)
    requires ParentsFirst(g) && SortedScores(g, current, ps) != []
    ensures x in SortedScores(g, current, ps)[1..] <==>
      x in SortedScores(g, current, ps) && x.version != SortedScores(g, current, ps)[0].version
  {
    SortedVersionsDistinct(g, current, ps);
    TailMembers(SortedScores(g, current, ps), x);
  }

  ghost predicate DistinctVersions(scores: seq<Score>) {
    forall i, j :: 0 <= i < j < |scores| ==> scores[i].version != scores[j].version
  }

  lemma {:induction false} DistinctVersionsPermute(a: seq<Score>, b: seq<Score>)
    requires multiset(a) == multiset(b) && DistinctVersions(a)
    ensures DistinctVersions(b)
  {
    assert Distinct(a);
    DistinctMultiset(a);
    CountedOnceIsDistinct(b);
    SameMembers(a, b);
    forall i, j | 0 <= i < j < |b|
      ensures b[i].version != b[j].version
    {
      assert b[i] in b && b[j] in b;
      var k :| 0 <= k < |a| && a[k] == b[i];
      var l :| 0 <= l < |a| && a[l] == b[j];
    }
  }

  lemma {:induction false} SortedVersionsDistinct(g: Registry, current: Version, ps: seq<Proposal>)
    requires ParentsFirst(g)
    ensures DistinctVersions(SortedScores(g, current, ps))
  {
    var keys, score := VersionsOf(ps), ScoreIn(ps, WeightIn(g, current));
    ScoresLength(keys, score);
    VersionsMembers(ps);
    DistinctVersionsPermute(ScoresOf(keys, score), SortedScores(g, current, ps));
  }

  // A tie, and what a weight means

  lemma {:induction false} TwoLeaders(v: Version, w: Version, standing: Version -> Standing)
    requires v != w && standing(v) == standing(w)
    ensures !Decided([v, w], standing) && standing(Best([v, w], standing)) == standing(v)
  {
    BeatsIrreflexive(standing(v));
    assert Unbeaten([v, w], standing, v) && Unbeaten([v, w], standing, w);
  }

  /** Two proposals of equal weight above the threshold are ambiguous: the first one proposed is agreed on. */
  lemma {:induction false} EqualWeightsTie(g: Registry, current: Version, p: Proposal, q: Proposal)
    requires ParentsFirst(g) && p.version != q.version && Parse(p.version).Some? && Parse(q.version).Some?
    requires WeightIn(g, current)(p) == WeightIn(g, current)(q) >= 0.7
    ensures Ambiguous(g, current, [p, q])
  {
    StandingsOfTwo(g, current, p, q);
    TwoLeaders(p.version, q.version, WeightStandings(g, current, [p, q]));
  }

  lemma {:induction false} StandingsOfTwo(g: Registry, current: Version, p: Proposal, q: Proposal)
    requires ParentsFirst(g) && p.version != q.version
    ensures VersionsOf([p, q]) == [p.version, q.version]
    ensures WeightStandings(g, current, [p, q])(p.version) == Standing(WeightIn(g, current)(p), "")
    ensures WeightStandings(g, current, [p, q])(q.version) == Standing(WeightIn(g, current)(q), "")
  {
    TwoVersions(p, q);
    AverageOfOne(p, WeightIn(g, current));
    AverageOfOne(q, WeightIn(g, current));
  }

  /** With no lineage registered, 1.0.0 and 1.1.0 can tie at 0.8. */
  lemma {:induction false} TieIsAmbiguous(p: Proposal, q: Proposal)
    requires p.version == V100 && p.stability == 0.9 && p.confidence == 0.6
    requires q.version == V110 && q.stability == 1.0 && q.confidence == 1.0
    ensures ParentsFirst(Dict([], map[]))
    ensures Ambiguous(Dict([], map[]), V100, [p, q]) && !OrderFree([p, q], AgreedVersion(Dict([], map[]), V100))
  {
    var g: Registry := Dict([], map[]);
    assert V100.text[2] != V110.text[2];
    assert Freshness(g, V100, V100) == 1.0 && Freshness(g, V100, V110) == 0.0;
    StandardVersionsRead();
    EqualWeightsTie(g, V100, p, q);
    AgreementOrderFreeIff(g, V100, [p, q]);
  }

  lemma {:induction false} FreshnessInUnit(g: Registry, current: Version, v: Version)
    requires ParentsFirst(g)
    ensures 0.0 <= Freshness(g, current, v) <= 1.0
    ensures Freshness(g, current, v) == 1.0 <==> v == current
  {
  }

  /**
   Scores between 0 and 1 give a weight between 0 and 1 that grows with each score; the lineage contributes at most
   a fifth, so a version outside the lineage needs scores of 1.75 together to reach the threshold.
   */
  lemma {:induction false} WeightMeans(g: Registry, current: Version, p: Proposal, q: Proposal)
    requires ParentsFirst(g)
    requires 0.0 <= p.stability <= 1.0 && 0.0 <= p.confidence <= 1.0
    ensures var w := WeightIn(g, current);
      && 0.0 <= w(p) <= 1.0
      && (w(p) == 1.0 <==> p.stability == 1.0 && p.confidence == 1.0 && p.version == current)
      && 0.4 * (p.stability + p.confidence) <= w(p) <= 0.4 * (p.stability + p.confidence) + 0.2
      && (p.version == q.version && p.stability <= q.stability && p.confidence <= q.confidence ==> w(p) <= w(q))
      && (Freshness(g, current, p.version) == 0.0 ==>
            (w(p) >= 0.7 <==> p.stability + p.confidence >= 1.75))
  {
    FreshnessInUnit(g, current, p.version);
  }
}
