/** The laws of rewinding and replaying: round trip, composition of rewinds, and independence of the order. */
module ReplayLaws {
  import opened Common
  import opened Sorting
  import opened TimeRewind

  function Identities(ts: seq<Trace>): seq<Identity> {
    seq(|ts|, k requires 0 <= k < |ts| => ts[k].identity)
  }

  /** A trace as replay sees it. */
  function Stripped(t: Trace): Trace {
    t.(layers := NO_LAYERS)
  }

  lemma {:induction false} InOrderIsSorted(ts: seq<Trace>)
    ensures Sorted(InOrder(ts), NotAfter) && multiset(InOrder(ts)) == multiset(ts) && |InOrder(ts)| == |ts|
  {
    NotAfterIsTotal();
    StableSortSorted(ts, NotAfter);
    assert |InOrder(ts)| == |multiset(InOrder(ts))| == |ts|;
  }

  lemma {:induction false} StrippedStaysSorted(r: seq<Trace>, sorted: seq<Trace>)
    requires |r| == |sorted| && forall k :: 0 <= k < |r| ==> r[k] == Stripped(sorted[k])
    requires Sorted(sorted, NotAfter)
    ensures Sorted(r, NotAfter)
  {
    forall i, j | 0 <= i < j < |r|
      ensures NotAfter(r[i], r[j])
    {
      assert NotAfter(sorted[i], sorted[j]);
    }
  }

  /** Rebuilding a timeline strips the sorted traces, which leaves them sorted. */
  lemma {:induction false} RebuiltTimeline(ts: seq<Trace>, fingerprint: Fingerprint)
    ensures var r := Rebuilt(Timeline(ts, fingerprint));
      && |r| == |InOrder(ts)| && (forall k :: 0 <= k < |r| ==> r[k] == Stripped(InOrder(ts)[k]))
      && InOrder(r) == r
  {
    var r := RebuiltEvents(InOrder(ts), fingerprint);
    InOrderIsSorted(ts);
    StrippedStaysSorted(r, InOrder(ts));
    SortedIsFixed(r, NotAfter);
  }

  lemma {:induction false} RebuiltEvents(sorted: seq<Trace>, fingerprint: Fingerprint) returns (r: seq<Trace>)
    ensures r == Rebuilt(EventsOf(sorted, fingerprint))
    ensures |r| == |sorted| && forall k :: 0 <= k < |r| ==> r[k] == Stripped(sorted[k])
  {
    r := Rebuilt(EventsOf(sorted, fingerprint));
  }

  lemma {:induction false} StrippedEvents(a: seq<Trace>, b: seq<Trace>, fingerprint: Fingerprint)
    requires |a| == |b| && forall k :: 0 <= k < |a| ==> a[k] == Stripped(b[k])
    ensures EventsOf(a, fingerprint) == EventsOf(b, fingerprint) && Identities(a) == Identities(b)
  {
  }

  /**
   Round trip: replaying the timeline of any traces, without migration, gives back their snapshot fields in
   order, and the timeline of the replayed traces is the timeline one started from.
   */
  lemma {:induction false} TimelineRoundTrip(ts: seq<Trace>, fingerprint: Fingerprint, signature: Signature,
                                             stateHash: StateHash)
    ensures var state := Replayed(Timeline(ts, fingerprint), t => t, signature, stateHash);
      && Identities(state.traces) == Identities(InOrder(ts))
      && Timeline(state.traces, fingerprint) == Timeline(ts, fingerprint)
  {
    var rebuilt := Rebuilt(Timeline(ts, fingerprint));
    RebuiltTimeline(ts, fingerprint);
    assert Migrate(rebuilt, t => t) == rebuilt;
    StrippedEvents(rebuilt, InOrder(ts), fingerprint);
  }

  /** A history and its replay always count as the same history. */
  lemma {:induction false} ReplayIsValid(ts: seq<Trace>, fingerprint: Fingerprint, combine: seq<Hash> -> Hash,
                                         signature: Signature, stateHash: StateHash)
    ensures ValidReplay(ts, Replayed(Timeline(ts, fingerprint), t => t, signature, stateHash).traces, fingerprint,
                        combine)
  {
    var replayed := Replayed(Timeline(ts, fingerprint), t => t, signature, stateHash).traces;
    TimelineRoundTrip(ts, fingerprint, signature, stateHash);
    var a, b := InOrder(ts), InOrder(replayed);
    var ea, eb := EventsOf(a, fingerprint), EventsOf(b, fingerprint);
    assert ea == eb && |a| == |ea| == |eb| == |b|;
    forall k | 0 <= k < |a|
      ensures FingerprintsOf(a, fingerprint)[k] == FingerprintsOf(b, fingerprint)[k]
    {
      assert ea[k].causalHash == eb[k].causalHash;
    }
    assert FingerprintsOf(a, fingerprint) == FingerprintsOf(b, fingerprint);
  }

  // Rewinding

  predicate Reached(j: nat, target: real) {
    j as real <= target
  }

  /** How many events lie at or before the target time. */
  function EventsBy(target: real, count: nat): (k: nat)
    ensures k <= count && forall j: nat :: j < count ==> (Reached(j, target) <==> j < k)
  {
    if target < 0.0 then 0 else if target.Floor + 1 < count then target.Floor + 1 else count
  }

  lemma {:induction false} FilterPrefix<T(!new)>(s: seq<T>, keep: T -> bool, k: nat)
    requires k <= |s| && forall j :: 0 <= j < |s| ==> (keep(s[j]) <==> j < k)
    ensures Filter(s, keep) == s[..k]
  {
    if s != [] {
      var n := |s| - 1;
      FilterPrefix(s[..n], keep, if k <= n then k else n);
      if k <= n {
        assert s[..n][..k] == s[..k];
      } else {
        assert s == s[..n] + [s[n]] && s[..k] == s;
      }
    }
  }

  lemma {:induction false} UpToIsPrefix(ts: seq<Trace>, target: real, fingerprint: Fingerprint)
    ensures |Timeline(ts, fingerprint)| == |ts|
    ensures UpTo(Timeline(ts, fingerprint), target) == Timeline(ts, fingerprint)[..EventsBy(target, |ts|)]
  {
    InOrderIsSorted(ts);
    forall j | 0 <= j < |ts|
      ensures Timeline(ts, fingerprint)[j].timestamp <= target <==> j < EventsBy(target, |ts|)
    {
      assert Reached(j, target) <==> j < EventsBy(target, |ts|);
    }
    FilterPrefix(Timeline(ts, fingerprint), (e: RewindEvent) => e.timestamp <= target, EventsBy(target, |ts|));
  }

  lemma {:induction false} OriginalsPrefix(events: seq<RewindEvent>, ts: seq<Trace>, k: nat)
    requires k <= |events|
    ensures Originals(events[..k], ts) <= Originals(events, ts)
  {
    if k < |events| {
      OriginalsPrefix(events[..|events| - 1], ts, k);
      assert events[..|events| - 1][..k] == events[..k];
    } else {
      assert events[..k] == events;
    }
  }

  /** Rewinding to an earlier time gives a prefix of rewinding to a later one, whatever the traces. */
  lemma {:induction false} EarlierIsPrefix(ts: seq<Trace>, earlier: real, later: real, fingerprint: Fingerprint)
    requires earlier <= later
    ensures Rewound(earlier, ts, fingerprint) <= Rewound(later, ts, fingerprint)
  {
    UpToIsPrefix(ts, earlier, fingerprint);
    UpToIsPrefix(ts, later, fingerprint);
    var timeline := Timeline(ts, fingerprint);
    var a, b := EventsBy(earlier, |ts|), EventsBy(later, |ts|);
    assert a > 0 ==> Reached(a - 1, earlier) && Reached(a - 1, later);
    assert timeline[..b][..a] == timeline[..a];
    OriginalsPrefix(timeline[..b], ts, a);
  }

  ghost predicate UniqueEvents(ts: seq<Trace>) {
    forall i, j :: 0 <= i < j < |ts| ==> ts[i].identity.event != ts[j].identity.event
  }

  lemma {:induction false} LastWithUnique(ts: seq<Trace>, i: nat)
    requires UniqueEvents(ts) && i < |ts|
    ensures LastWith(ts, ts[i].identity.event) == Some(ts[i])
  {
    if i < |ts| - 1 {
      LastWithUnique(ts[..|ts| - 1], i);
    }
  }

  lemma {:induction false} OriginalsOfPrefix(sorted: seq<Trace>, ts: seq<Trace>, k: nat, fingerprint: Fingerprint)
    requires k <= |sorted| && UniqueEvents(ts) && forall t :: t in sorted ==> t in ts
    ensures Originals(EventsOf(sorted, fingerprint)[..k], ts) == sorted[..k]
  {
    if k > 0 {
      var events := EventsOf(sorted, fingerprint);
      OriginalsOfPrefix(sorted, ts, k - 1, fingerprint);
      assert events[..k][..k - 1] == events[..k - 1];
      assert sorted[k - 1] in ts;
      var i :| 0 <= i < |ts| && ts[i] == sorted[k - 1];
      LastWithUnique(ts, i);
    }
  }

  /** With unique event ids, rewinding returns the first original traces in event order, untouched. */
  lemma {:induction false} RewoundIsPrefix(ts: seq<Trace>, target: real, fingerprint: Fingerprint)
    requires UniqueEvents(ts)
    ensures |InOrder(ts)| == |ts|
    ensures Rewound(target, ts, fingerprint) == InOrder(ts)[..EventsBy(target, |ts|)]
  {
    InOrderIsSorted(ts);
    UpToIsPrefix(ts, target, fingerprint);
    forall t | t in InOrder(ts)
      ensures t in ts
    {
      assert t in multiset(ts);
    }
    OriginalsOfPrefix(InOrder(ts), ts, EventsBy(target, |ts|), fingerprint);
  }

  lemma {:induction false} UniqueEventsPermute(a: seq<Trace>, b: seq<Trace>)
    requires UniqueEvents(a) && multiset(a) == multiset(b)
    ensures UniqueEvents(b)
  {
    assert Distinct(a);
    DistinctMultiset(a);
    CountedOnceIsDistinct(b);
    forall i, j | 0 <= i < j < |b|
      ensures b[i].identity.event != b[j].identity.event
    {
      assert b[i] in multiset(a) && b[j] in multiset(a);
      var k :| 0 <= k < |a| && a[k] == b[i];
      var l :| 0 <= l < |a| && a[l] == b[j];
    }
  }

  lemma {:induction false} EarlierOfTwo(first: real, second: real, count: nat)
    ensures EventsBy(second, EventsBy(first, count)) == EventsBy(if first <= second then first else second, count)
  {
    var least := if first <= second then first else second;
    var l, m := EventsBy(second, EventsBy(first, count)), EventsBy(least, count);
    assert l < m ==> Reached(l, least) && Reached(l, first) && Reached(l, second);
    assert m < l ==> Reached(m, second) && Reached(m, first) && Reached(m, least);
  }

  lemma {:induction false} PrefixInOrder(sorted: seq<Trace>, k: nat)
    requires k <= |sorted| && Sorted(sorted, NotAfter) && UniqueEvents(sorted)
    ensures InOrder(sorted[..k]) == sorted[..k] && UniqueEvents(sorted[..k])
  {
    SortedIsFixed(sorted[..k], NotAfter);
  }

  /** Rewinding twice is rewinding to the earlier of the two times. */
  lemma {:induction false} RewindsCompose(ts: seq<Trace>, first: real, second: real, fingerprint: Fingerprint)
    requires UniqueEvents(ts)
    ensures Rewound(second, Rewound(first, ts, fingerprint), fingerprint)
      == Rewound(if first <= second then first else second, ts, fingerprint)
  {
    var sorted, k := InOrder(ts), EventsBy(first, |ts|);
    InOrderIsSorted(ts);
    UniqueEventsPermute(ts, sorted);
    PrefixInOrder(sorted, k);
    RewoundIsPrefix(ts, first, fingerprint);
    RewoundIsPrefix(sorted[..k], second, fingerprint);
    RewoundIsPrefix(ts, if first <= second then first else second, fingerprint);
    EarlierOfTwo(first, second, |ts|);
    PrefixOfPrefix(sorted, k, EventsBy(second, k));
  }

  lemma {:induction false} PrefixOfPrefix<T>(s: seq<T>, k: nat, l: nat)
    requires l <= k <= |s|
    ensures s[..k][..l] == s[..l]
  {
  }

  // The order of the events

  lemma {:induction false} RebuiltConcatenated(a: seq<RewindEvent>, b: seq<RewindEvent>)
    ensures Rebuilt(a + b) == Rebuilt(a) + Rebuilt(b)
  {
  }

  lemma {:induction false} RebuiltWithout(s: seq<RewindEvent>, i: nat)
    requires i < |s|
    ensures multiset(s) == multiset(s[..i] + s[i + 1..]) + multiset{s[i]}
    ensures multiset(Rebuilt(s)) == multiset(Rebuilt(s[..i] + s[i + 1..])) + multiset{Rebuild(s[i])}
  {
    assert s == s[..i] + ([s[i]] + s[i + 1..]);
    RebuiltConcatenated(s[..i], [s[i]] + s[i + 1..]);
    RebuiltConcatenated([s[i]], s[i + 1..]);
    RebuiltConcatenated(s[..i], s[i + 1..]);
    assert Rebuilt([s[i]]) == [Rebuild(s[i])];
  }

  lemma {:induction false} RebuiltPermutes(a: seq<RewindEvent>, b: seq<RewindEvent>)
    requires multiset(a) == multiset(b)
    ensures multiset(Rebuilt(a)) == multiset(Rebuilt(b))
  {
    if a == [] {
      assert |multiset(b)| == 0;
    } else {
      var i := TakeOut(a, b);
      var rest := b[..i] + b[i + 1..];
      RebuiltPermutes(a[1..], rest);
      RebuiltWithout(b, i);
      assert a == [a[0]] + a[1..];
      RebuiltConcatenated([a[0]], a[1..]);
      assert Rebuilt([a[0]]) == [Rebuild(a[0])];
    }
  }

  /** Events with the same session and sequence number rebuild to the same trace. */
  ghost predicate KeysDetermine(ts: seq<Trace>) {
    forall i, j :: 0 <= i < |ts| && 0 <= j < |ts| && SameKey(ts[i], ts[j]) ==> ts[i] == ts[j]
  }

  lemma {:induction false} SortedPermutation(a: seq<Trace>, b: seq<Trace>)
    requires multiset(a) == multiset(b) && KeysDetermine(a)
    ensures InOrder(a) == InOrder(b)
  {
    InOrderIsSorted(a);
    InOrderIsSorted(b);
    var sorted := InOrder(a);
    forall i, j |
      && 0 <= i < |sorted| && 0 <= j < |sorted|
      && NotAfter(sorted[i], sorted[j]) && NotAfter(sorted[j], sorted[i])
      ensures sorted[i] == sorted[j]
    {
      NotAfterBothWays(sorted[i], sorted[j]);
      assert sorted[i] in multiset(a) && sorted[j] in multiset(a);
      var k :| 0 <= k < |a| && a[k] == sorted[i];
      var l :| 0 <= l < |a| && a[l] == sorted[j];
    }
    SortedIsUnique(sorted, InOrder(b), NotAfter);
  }

  /** Event i moved to the front. */
  function MovedFirst<T>(s: seq<T>, i: nat): seq<T>
    requires i < |s|
  {
    [s[i]] + s[..i] + s[i + 1..]
  }

  lemma {:induction false} MovedFirstPermutes<T>(s: seq<T>, i: nat)
    requires i < |s|
    ensures multiset(MovedFirst(s, i)) == multiset(s)
  {
    assert s == s[..i] + [s[i]] + s[i + 1..];
  }

  function KeyOf(t: Trace): Trace -> bool {
    u => SameKey(t, u)
  }

  lemma {:induction false} FilterKeepsFirst<T>(s: seq<T>, keep: T -> bool)
    requires s != [] && keep(s[0])
    ensures Filter(s, keep) != [] && Filter(s, keep)[0] == s[0]
  {
    if |s| > 1 {
      FilterKeepsFirst(s[..|s| - 1], keep);
    }
  }

  /** The first event with a key stays first among its equals after sorting. */
  lemma {:induction false} FirstOfKeySurvives(timeline: seq<RewindEvent>)
    requires timeline != []
    ensures var t := Rebuild(timeline[0]);
      Filter(InOrder(Rebuilt(timeline)), KeyOf(t)) != [] && Filter(InOrder(Rebuilt(timeline)), KeyOf(t))[0] == t
  {
    var ts := Rebuilt(timeline);
    forall a, b | KeyOf(ts[0])(a) && KeyOf(ts[0])(b)
      ensures NotAfter(a, b)
    {
      NotAfterBothWays(a, b);
    }
    SortIsStable(ts, NotAfter, KeyOf(ts[0]));
    FilterKeepsFirst(ts, KeyOf(ts[0]));
  }

  ghost predicate OrderFree(timeline: seq<RewindEvent>) {
    forall other {:trigger Rebuilt(other)} :: multiset(other) == multiset(timeline) ==>
      InOrder(Rebuilt(other)) == InOrder(Rebuilt(timeline))
  }

  /** Replay ignores the order of the events exactly when events with equal keys rebuild to equal traces. */
  lemma {:induction false} ReplayOrderFreeIff(timeline: seq<RewindEvent>)
    ensures OrderFree(timeline) <==> KeysDetermine(Rebuilt(timeline))
  {
    if KeysDetermine(Rebuilt(timeline)) {
      forall other | multiset(other) == multiset(timeline)
        ensures InOrder(Rebuilt(other)) == InOrder(Rebuilt(timeline))
      {
        RebuiltPermutes(timeline, other);
        SortedPermutation(Rebuilt(timeline), Rebuilt(other));
      }
    }
    if OrderFree(timeline) {
      var ts := Rebuilt(timeline);
      forall i, j | 0 <= i < |ts| && 0 <= j < |ts| && SameKey(ts[i], ts[j])
        ensures ts[i] == ts[j]
      {
        MovedFirstPermutes(timeline, i);
        MovedFirstPermutes(timeline, j);
        FirstOfKeySurvives(MovedFirst(timeline, i));
        FirstOfKeySurvives(MovedFirst(timeline, j));
        SameFilter(InOrder(ts), ts[i], ts[j]);
      }
    }
  }

  lemma {:induction false} SameFilter(s: seq<Trace>, a: Trace, b: Trace)
    requires SameKey(a, b)
    ensures Filter(s, KeyOf(a)) == Filter(s, KeyOf(b))
  {
    if s != [] {
      SameFilter(s[..|s| - 1], a, b);
    }
  }

  /** Then the whole replayed state, its hash included, is the same for every order, whatever the migration. */
  lemma {:induction false} ReplayIsDeterministic(a: seq<RewindEvent>, b: seq<RewindEvent>, migrate: Trace -> Trace,
                                                 signature: Signature, stateHash: StateHash)
    requires multiset(a) == multiset(b) && KeysDetermine(Rebuilt(a))
    ensures Replayed(a, migrate, signature, stateHash) == Replayed(b, migrate, signature, stateHash)
  {
    ReplayOrderFreeIff(a);
    assert InOrder(Rebuilt(b)) == InOrder(Rebuilt(a));
  }

  /** Traces with unique keys have one timeline, in whatever order they are given. */
  lemma {:induction false} TimelineOrderFree(ts: seq<Trace>, us: seq<Trace>, fingerprint: Fingerprint)
    requires multiset(ts) == multiset(us) && KeysDetermine(ts)
    ensures Timeline(ts, fingerprint) == Timeline(us, fingerprint)
  {
    SortedPermutation(ts, us);
  }
}
