/** In which order the events of a timeline stand, which traces a rewind returns, and what a replay rebuilds. */
module EventOrder {
  import opened Common
  import opened Sorting
  import opened TimeRewind
  import opened ReplayLaws
  import Lexicographic

  /** The events are in the order of their session texts, and within a session in the order of their numbers. */
  lemma {:induction false} TimelineClimbs(ts: seq<Trace>, fingerprint: Fingerprint, i: nat, j: nat)
    requires i < j < |Timeline(ts, fingerprint)|
    ensures var a, b := Timeline(ts, fingerprint)[i].snapshot, Timeline(ts, fingerprint)[j].snapshot;
      && a.session.Some? && b.session.Some? && a.sequence.Some? && b.sequence.Some?
      && (Lexicographic.Less(a.session.value.text, b.session.value.text)
          || (a.session == b.session && a.sequence.value <= b.sequence.value))
    ensures Timeline(ts, fingerprint)[i].timestamp == i as real
  {
    InOrderIsSorted(ts);
    assert NotAfter(InOrder(ts)[i], InOrder(ts)[j]);
  }

  /** An event tells its place, what it is about, eight fields of its trace, and the fingerprint of six of them. */
  lemma {:induction false} EventsTell(ts: seq<Trace>, fingerprint: Fingerprint, k: nat)
    requires k < |ts|
    ensures |Timeline(ts, fingerprint)| == |InOrder(ts)| == |ts|
    ensures var e, t := Timeline(ts, fingerprint)[k], InOrder(ts)[k].identity;
      && e.timestamp == k as real && e.trace == t.event && e.node == t.session
      && e.snapshot == Snapshot(Some(t.event), Some(t.session), Some(t.sequence), Some(t.correlation), Some(t.risk),
                                Some(t.verdict), Some(t.execution), Some(t.final))
      && e.causalHash == fingerprint(t.event, t.session, t.sequence, t.correlation, t.final, t.risk)
  {
    InOrderIsSorted(ts);
  }

  lemma {:induction false} OutsidePrefix<T>(s: seq<T>, k: nat, x: T, y: T) returns (i: nat, j: nat)
    requires k <= |s| && x in s[..k] && y in s && y !in s[..k]
    ensures i < k <= j < |s| && s[i] == x && s[j] == y
  {
    i :| 0 <= i < k && s[i] == x;
    j :| 0 <= j < |s| && s[j] == y;
  }

  /** No trace that a rewind leaves out comes before one that it returns. */
  lemma {:induction false} RewindKeepsEarliest(ts: seq<Trace>, target: real, fingerprint: Fingerprint,
                                               kept: Trace, left: Trace)
    requires UniqueEvents(ts)
    requires kept in Rewound(target, ts, fingerprint) && left in ts && left !in Rewound(target, ts, fingerprint)
    ensures var a, b := kept.identity, left.identity;
      Lexicographic.Less(a.session.text, b.session.text) || (a.session == b.session && a.sequence <= b.sequence)
  {
    RewoundIsPrefix(ts, target, fingerprint);
    InOrderIsSorted(ts);
    var sorted := InOrder(ts);
    assert left in multiset(sorted);
    var i, j := OutsidePrefix(sorted, EventsBy(target, |ts|), kept, left);
    assert NotAfter(sorted[i], sorted[j]);
  }

  /** As many events are returned as have a place at or before the target, and each of them was given. */
  lemma {:induction false} RewindReturns(ts: seq<Trace>, target: real, fingerprint: Fingerprint, j: nat)
    requires UniqueEvents(ts) && j < |ts|
    ensures j < |Rewound(target, ts, fingerprint)| <==> j as real <= target
    ensures j < |Rewound(target, ts, fingerprint)| ==> Rewound(target, ts, fingerprint)[j] in ts
  {
    RewoundIsPrefix(ts, target, fingerprint);
    InOrderIsSorted(ts);
    assert Reached(j, target) <==> j < EventsBy(target, |ts|);
    assert InOrder(ts)[j] in multiset(InOrder(ts));
  }

  ghost predicate IsPair(s: seq<Trace>, a: Trace, b: Trace) {
    |s| == 2 && ((s[0] == a && s[1] == b) || (s[0] == b && s[1] == a))
  }

  lemma {:induction false} TwoInOrder(s: seq<Trace>, a: Trace, b: Trace)
    requires IsPair(s, a, b) && a.identity.session == b.identity.session && a.identity.sequence < b.identity.sequence
    ensures |InOrder(s)| == 2 && InOrder(s)[0] == a && InOrder(s)[1] == b
  {
    Lexicographic.Irreflexive(a.identity.session.text);
    InOrderIsSorted(s);
    var sorted := InOrder(s);
    PairPermutes(s, sorted, a, b);
    assert NotAfter(sorted[0], sorted[1]);
  }

  lemma {:induction false} PairPermutes<T>(s: seq<T>, t: seq<T>, a: T, b: T)
    requires |s| == |t| == 2 && multiset(s) == multiset(t)
    requires (s[0] == a && s[1] == b) || (s[0] == b && s[1] == a)
    ensures (t[0] == a && t[1] == b) || (t[0] == b && t[1] == a)
  {
    assert s == [s[0], s[1]] && t == [t[0], t[1]];
    assert multiset(s) == multiset{s[0], s[1]} && multiset(t) == multiset{t[0], t[1]};
    assert multiset{t[0], t[1]}[a] > 0 && multiset{t[0], t[1]}[b] > 0;
  }

  lemma {:induction false} PairPrefix<T>(s: seq<T>, a: T, b: T, k: nat)
    requires |s| == 2 && s[0] == a && s[1] == b && k <= 2
    ensures s[..k] == if k == 0 then [] else if k == 1 then [a] else [a, b]
  {
  }

  /** Two traces of one session, in whatever order they are given, rewound to any time. */
  lemma {:induction false} RewindTwo(s: seq<Trace>, a: Trace, b: Trace, target: real, fingerprint: Fingerprint)
    requires IsPair(s, a, b)
    requires a.identity.session == b.identity.session && a.identity.event != b.identity.event
    requires a.identity.sequence == 0 && b.identity.sequence == 1
    ensures Rewound(target, s, fingerprint) == if target < 0.0 then [] else if target < 1.0 then [a] else [a, b]
  {
    TwoInOrder(s, a, b);
    RewoundIsPrefix(s, target, fingerprint);
    var k := EventsBy(target, 2);
    assert Reached(0, target) <==> 0 < k;
    assert Reached(1, target) <==> 1 < k;
    PairPrefix(InOrder(s), a, b, k);
  }

  ghost predicate LastHas(ts: seq<Trace>, event: Id, t: Trace) {
    exists i :: 0 <= i < |ts| && ts[i] == t && t.identity.event == event
                && forall j :: i < j < |ts| ==> ts[j].identity.event != event
  }

  lemma {:induction false} LastWithIs(ts: seq<Trace>, event: Id)
    ensures LastWith(ts, event) == None <==> forall t :: t in ts ==> t.identity.event != event
    ensures LastWith(ts, event).Some? ==> LastHas(ts, event, LastWith(ts, event).value)
  {
    if ts != [] {
      var n := |ts| - 1;
      LastWithIs(ts[..n], event);
      assert forall i :: 0 <= i < n ==> ts[..n][i] == ts[i];
      if ts[n].identity.event != event && LastWith(ts, event).Some? {
        var t := LastWith(ts, event).value;
        var i :| 0 <= i < n && ts[..n][i] == t && forall j :: i < j < n ==> ts[..n][j].identity.event != event;
        assert ts[i] == t;
      }
    }
  }

  /** Also with repeated event ids: place by place, a rewind returns the last trace that carries the event. */
  lemma {:induction false} RewoundAt(ts: seq<Trace>, target: real, fingerprint: Fingerprint, k: nat)
    requires k < EventsBy(target, |ts|)
    ensures |InOrder(ts)| == |ts|
    ensures |Rewound(target, ts, fingerprint)| == EventsBy(target, |ts|)
    ensures LastHas(ts, InOrder(ts)[k].identity.event, Rewound(target, ts, fingerprint)[k])
  {
    var n := EventsBy(target, |ts|);
    InOrderIsSorted(ts);
    UpToIsPrefix(ts, target, fingerprint);
    OriginalsAt(InOrder(ts), ts, n, fingerprint, k);
  }

  lemma {:induction false} OriginalsAt(sorted: seq<Trace>, ts: seq<Trace>, n: nat, fingerprint: Fingerprint, k: nat)
    requires k < n <= |sorted| && multiset(sorted) == multiset(ts)
    ensures |Originals(EventsOf(sorted, fingerprint)[..n], ts)| == n
    ensures LastHas(ts, sorted[k].identity.event, Originals(EventsOf(sorted, fingerprint)[..n], ts)[k])
  {
    var events := EventsOf(sorted, fingerprint);
    assert events[..n][..n - 1] == events[..n - 1];
    assert sorted[n - 1] in multiset(sorted);
    LastWithIs(ts, sorted[n - 1].identity.event);
    if n > 1 {
      OriginalsAt(sorted, ts, n - 1, fingerprint, if k < n - 1 then k else 0);
    }
  }

  /** What a snapshot lacks is taken from the event, or gets a default; what it has is kept. */
  lemma {:induction false} RebuiltFields(e: RewindEvent)
    ensures var i, s := Rebuild(e).identity, e.snapshot;
      && (s.event.Some? ==> i.event == s.event.value) && (s.event == None ==> i.event == e.trace)
      && (s.session.Some? ==> i.session == s.session.value) && (s.session == None ==> i.session == e.node)
      && (s.sequence.Some? ==> i.sequence == s.sequence.value) && (s.sequence == None ==> i.sequence == 0)
      && (s.correlation.Some? ==> i.correlation == s.correlation.value)
      && (s.correlation == None ==> i.correlation == "")
      && (s.risk.Some? ==> i.risk == s.risk.value) && (s.risk == None ==> i.risk == 0.0)
      && (s.verdict.Some? ==> i.verdict == s.verdict.value) && (s.verdict == None ==> i.verdict == "UNKNOWN")
      && (s.execution.Some? ==> i.execution == s.execution.value) && (s.execution == None ==> i.execution == "UNKNOWN")
      && (s.final.Some? ==> i.final == s.final.value) && (s.final == None ==> i.final == "UNKNOWN")
  {
  }

  // Validation

  /** The fields that a fingerprint reads. */
  ghost predicate SamePrint(a: Identity, b: Identity) {
    && a.event == b.event && a.session == b.session && a.sequence == b.sequence
    && a.correlation == b.correlation && a.final == b.final && a.risk == b.risk
  }

  ghost function Print(i: Identity, fingerprint: Fingerprint): Hash {
    fingerprint(i.event, i.session, i.sequence, i.correlation, i.final, i.risk)
  }

  ghost predicate SamePrints(a: seq<Trace>, b: seq<Trace>) {
    |a| == |b| && forall k :: 0 <= k < |a| ==> SamePrint(a[k].identity, b[k].identity)
  }

  /** Two different traces have one fingerprint, or two different lists of fingerprints one hash. */
  ghost predicate HashesCollide(a: seq<Trace>, b: seq<Trace>, fingerprint: Fingerprint, combine: seq<Hash> -> Hash) {
    || (exists s, t :: s in a && t in b && !SamePrint(s.identity, t.identity)
                       && Print(s.identity, fingerprint) == Print(t.identity, fingerprint))
    || (FingerprintsOf(a, fingerprint) != FingerprintsOf(b, fingerprint)
        && combine(FingerprintsOf(a, fingerprint)) == combine(FingerprintsOf(b, fingerprint)))
  }

  /** Histories that agree in order on the six fields validate, and others do so only by a collision of hashes. */
  lemma {:induction false} ValidReplayMeans(original: seq<Trace>, replayed: seq<Trace>, fingerprint: Fingerprint,
                                            combine: seq<Hash> -> Hash)
    ensures SamePrints(InOrder(original), InOrder(replayed)) ==> ValidReplay(original, replayed, fingerprint, combine)
    ensures ValidReplay(original, replayed, fingerprint, combine) ==>
      || SamePrints(InOrder(original), InOrder(replayed))
      || HashesCollide(InOrder(original), InOrder(replayed), fingerprint, combine)
  {
    var a, b := InOrder(original), InOrder(replayed);
    var f, g := FingerprintsOf(a, fingerprint), FingerprintsOf(b, fingerprint);
    if SamePrints(a, b) {
      assert f == g;
    } else if f == g {
      assert |a| == |f| == |g| == |b|;
      var k :| 0 <= k < |a| && !SamePrint(a[k].identity, b[k].identity);
      assert f[k] == g[k] && a[k] in a && b[k] in b;
    }
  }

  // Replay

  /** The traces are migrated in event order; the graph is that of the unmigrated ones, and the hash reads four
      fields of the migrated ones. */
  lemma {:induction false} ReplayedMeans(timeline: seq<RewindEvent>, migrate: Trace -> Trace, signature: Signature,
                                         stateHash: StateHash, k: nat)
    requires k < |timeline|
    ensures |InOrder(Rebuilt(timeline))| == |timeline|
    ensures var s := Replayed(timeline, migrate, signature, stateHash);
      && |s.traces| == |timeline| && s.traces[k] == migrate(InOrder(Rebuilt(timeline))[k])
      && s.graphSignature == signature(InOrder(Rebuilt(timeline)))
  {
    InOrderIsSorted(Rebuilt(timeline));
  }

  lemma {:induction false} ReplayOne(e: RewindEvent, migrate: Trace -> Trace, signature: Signature,
                                     stateHash: StateHash)
    ensures var t, m := Rebuild(e), migrate(Rebuild(e)).identity;
      Replayed([e], migrate, signature, stateHash)
        == SystemState([migrate(t)], signature([t]),
                       stateHash([(m.event, m.session, m.sequence, m.final)], signature([t])))
  {
    var t := Rebuild(e);
    assert Rebuilt([e]) == [t];
    SortedIsFixed([t], NotAfter);
    SortedIsFixed([migrate(t)], NotAfter);
    assert Migrate([t], migrate) == [migrate(t)];
    var m := migrate(t).identity;
    assert HashedParts([migrate(t)]) == [(m.event, m.session, m.sequence, m.final)];
  }
}
