/** Timelines in event order, rewinding to a point of them, and replaying them into traces. */
module TimeRewind {
  import opened Common
  import opened Sorting
  import Lexicographic

  datatype Id = Id(text: string)

  /** The fields that a snapshot keeps. */
  datatype Identity = Identity(event: Id, session: Id, sequence: int, correlation: string, risk: real,
                               verdict: string, execution: string, final: string)

  /** The fields that a snapshot does not keep. */
  datatype Layers = Layers(preflightValid: bool, preflightReason: Option<string>, preflightRules: seq<string>,
                           p4Reason: Option<string>, p4RiskLevel: Option<string>, p4Rule: Option<string>,
                           executionError: Option<string>, capabilities: seq<string>, resources: map<string, string>,
                           preflightTime: real, p4Time: real, executionTime: real, totalTime: real)

  const NO_LAYERS := Layers(false, None, [], None, None, None, None, [], map[], 0.0, 0.0, 0.0, 0.0)

  datatype Trace = Trace(identity: Identity, layers: Layers)

  /** A snapshot may lack any of its fields. */
  datatype Snapshot = Snapshot(event: Option<Id>, session: Option<Id>, sequence: Option<int>,
                               correlation: Option<string>, risk: Option<real>, verdict: Option<string>,
                               execution: Option<string>, final: Option<string>)

  datatype Hash = Hash(digest: int)

  datatype RewindEvent = RewindEvent(timestamp: real, trace: Id, node: Id, snapshot: Snapshot, causalHash: Hash)

  /** By session id, then by sequence number. */
  predicate KeyNotAfter(a: Identity, b: Identity) {
    Lexicographic.Less(a.session.text, b.session.text) || (a.session == b.session && a.sequence <= b.sequence)
  }

  predicate NotAfter(a: Trace, b: Trace) {
    KeyNotAfter(a.identity, b.identity)
  }

  predicate SameKey(a: Trace, b: Trace) {
    a.identity.session == b.identity.session && a.identity.sequence == b.identity.sequence
  }

  lemma {:induction false} NotAfterIsTotal()
    ensures TotalOrder(NotAfter)
  {
    forall x, y
      ensures NotAfter(x, y) || NotAfter(y, x)
    {
      Lexicographic.Trichotomy(x.identity.session.text, y.identity.session.text);
    }
    forall x, y, z | NotAfter(x, y) && NotAfter(y, z)
      ensures NotAfter(x, z)
    {
      if Lexicographic.Less(x.identity.session.text, y.identity.session.text)
        && Lexicographic.Less(y.identity.session.text, z.identity.session.text) {
        Lexicographic.Transitive(x.identity.session.text, y.identity.session.text, z.identity.session.text);
      }
    }
  }

  lemma {:induction false} NotAfterBothWays(a: Trace, b: Trace)
    ensures NotAfter(a, b) && NotAfter(b, a) <==> SameKey(a, b)
  {
    Lexicographic.Irreflexive(a.identity.session.text);
    if Lexicographic.Less(a.identity.session.text, b.identity.session.text)
      && Lexicographic.Less(b.identity.session.text, a.identity.session.text) {
      Lexicographic.Transitive(a.identity.session.text, b.identity.session.text, a.identity.session.text);
    }
  }

  function InOrder(ts: seq<Trace>): seq<Trace> {
    StableSort(ts, NotAfter)
  }

  function TakeSnapshot(i: Identity): Snapshot {
    Snapshot(Some(i.event), Some(i.session), Some(i.sequence), Some(i.correlation), Some(i.risk), Some(i.verdict),
             Some(i.execution), Some(i.final))
  }

  function GetOr<T>(o: Option<T>, default: T): T {
    if o.Some? then o.value else default
  }

  /** A trace again, with defaults for whatever the snapshot lacks. */
  function Rebuild(e: RewindEvent): Trace {
    var s := e.snapshot;
    Trace(Identity(GetOr(s.event, e.trace), GetOr(s.session, e.node), GetOr(s.sequence, 0), GetOr(s.correlation, ""),
                   GetOr(s.risk, 0.0), GetOr(s.verdict, "UNKNOWN"), GetOr(s.execution, "UNKNOWN"),
                   GetOr(s.final, "UNKNOWN")),
          NO_LAYERS)
  }

  type Fingerprint = (Id, Id, int, string, string, real) -> Hash

  function FingerprintOf(i: Identity, fingerprint: Fingerprint): Hash {
    fingerprint(i.event, i.session, i.sequence, i.correlation, i.final, i.risk)
  }

  /** The event at a place of the sorted traces: its time is its place. */
  function EventAt(sorted: seq<Trace>, k: nat, fingerprint: Fingerprint): RewindEvent
    requires k < |sorted|
  {
    var i := sorted[k].identity;
    RewindEvent(k as real, i.event, i.session, TakeSnapshot(i), FingerprintOf(i, fingerprint))
  }

  function EventsOf(sorted: seq<Trace>, fingerprint: Fingerprint): seq<RewindEvent> {
    seq(|sorted|, k requires 0 <= k < |sorted| => EventAt(sorted, k, fingerprint))
  }

  function Timeline(ts: seq<Trace>, fingerprint: Fingerprint): seq<RewindEvent> {
    EventsOf(InOrder(ts), fingerprint)
  }

  /** The last trace with an event id. */
  function LastWith(ts: seq<Trace>, event: Id): Option<Trace> {
    if ts == [] then None
    else if ts[|ts| - 1].identity.event == event then Some(ts[|ts| - 1])
    else LastWith(ts[..|ts| - 1], event)
  }

  function Originals(events: seq<RewindEvent>, ts: seq<Trace>): seq<Trace> {
    if events == [] then []
    else
      var n := |events| - 1;
      Originals(events[..n], ts) + match LastWith(ts, events[n].trace) case Some(t) => [t] case None => []
  }

  function UpTo(events: seq<RewindEvent>, target: real): seq<RewindEvent> {
    Filter(events, (e: RewindEvent) => e.timestamp <= target)
  }

  function Rewound(target: real, ts: seq<Trace>, fingerprint: Fingerprint): seq<Trace> {
    Originals(UpTo(Timeline(ts, fingerprint), target), ts)
  }

  function Rebuilt(timeline: seq<RewindEvent>): seq<Trace> {
    seq(|timeline|, k requires 0 <= k < |timeline| => Rebuild(timeline[k]))
  }

  method BuildTimeline(ts: seq<Trace>, fingerprint: Fingerprint) returns (timeline: seq<RewindEvent>)
    ensures timeline == Timeline(ts, fingerprint)
  {
    var sorted := InOrder(ts);
    timeline := [];
    for k := 0 to |sorted|
      invariant |timeline| == k
      invariant forall j :: 0 <= j < k ==> timeline[j] == EventAt(sorted, j, fingerprint)
    {
      var i := sorted[k].identity;
      timeline := timeline
        + [RewindEvent(k as real, i.event, i.session, TakeSnapshot(i), FingerprintOf(i, fingerprint))];
    }
  }

  method TraceMap(ts: seq<Trace>) returns (byEvent: map<Id, Trace>)
    ensures forall event :: LastWith(ts, event) == if event in byEvent then Some(byEvent[event]) else None
  {
    byEvent := map[];
    for i := 0 to |ts|
      invariant forall event :: LastWith(ts[..i], event) == if event in byEvent then Some(byEvent[event]) else None
    {
      assert ts[..i + 1][..i] == ts[..i];
      byEvent := byEvent[ts[i].identity.event := ts[i]];
    }
    assert ts[..|ts|] == ts;
  }

  method Rewind(target: real, ts: seq<Trace>, fingerprint: Fingerprint) returns (result: seq<Trace>)
    ensures result == Rewound(target, ts, fingerprint)
  {
    var timeline := BuildTimeline(ts, fingerprint);
    var filtered := UpTo(timeline, target);
    var byEvent := TraceMap(ts);
    result := [];
    for i := 0 to |filtered|
      invariant result == Originals(filtered[..i], ts)
    {
      assert filtered[..i + 1][..i] == filtered[..i];
      var original := if filtered[i].trace in byEvent then Some(byEvent[filtered[i].trace]) else None;
      assert original == LastWith(ts, filtered[i].trace);
      if original.Some? {
        result := result + [original.value];
      }
    }
    assert filtered[..|filtered|] == filtered;
  }

  datatype SystemState = SystemState(traces: seq<Trace>, graphSignature: Hash, stateHash: Hash)

  /** What of each trace goes into the state hash. */
  function HashedPart(t: Trace): (Id, Id, int, string) {
    (t.identity.event, t.identity.session, t.identity.sequence, t.identity.final)
  }

  function HashedParts(ts: seq<Trace>): seq<(Id, Id, int, string)> {
    seq(|ts|, k requires 0 <= k < |ts| => HashedPart(ts[k]))
  }

  function Migrate(ts: seq<Trace>, migrate: Trace -> Trace): seq<Trace> {
    seq(|ts|, k requires 0 <= k < |ts| => migrate(ts[k]))
  }

  type Signature = seq<Trace> -> Hash

  type StateHash = (seq<(Id, Id, int, string)>, Hash) -> Hash

  function Replayed(timeline: seq<RewindEvent>, migrate: Trace -> Trace, signature: Signature, stateHash: StateHash)
    : SystemState
  {
    var traces := InOrder(Rebuilt(timeline));
    var migrated := Migrate(traces, migrate);
    SystemState(migrated, signature(traces), stateHash(HashedParts(InOrder(migrated)), signature(traces)))
  }

  method Replay(timeline: seq<RewindEvent>, migrate: Trace -> Trace, signature: Signature, stateHash: StateHash)
    returns (state: SystemState)
    ensures state == Replayed(timeline, migrate, signature, stateHash)
  {
    var traces: seq<Trace> := [];
    for i := 0 to |timeline|
      invariant traces == Rebuilt(timeline)[..i]
    {
      traces := traces + [Rebuild(timeline[i])];
    }
    assert traces == Rebuilt(timeline);
    traces := InOrder(traces);
    var graphSignature := signature(traces);
    var migrated: seq<Trace> := [];
    for i := 0 to |traces|
      invariant migrated == Migrate(traces, migrate)[..i]
    {
      migrated := migrated + [migrate(traces[i])];
    }
    assert migrated == Migrate(traces, migrate);
    return SystemState(migrated, graphSignature, stateHash(HashedParts(InOrder(migrated)), graphSignature));
  }

  function FingerprintsOf(ts: seq<Trace>, fingerprint: Fingerprint): seq<Hash> {
    seq(|ts|, k requires 0 <= k < |ts| => FingerprintOf(ts[k].identity, fingerprint))
  }

  /** Two lists of traces count as the same history when their sorted fingerprints hash alike. */
  predicate ValidReplay(original: seq<Trace>, replayed: seq<Trace>, fingerprint: Fingerprint,
                        combine: seq<Hash> -> Hash) {
    combine(FingerprintsOf(InOrder(original), fingerprint)) == combine(FingerprintsOf(InOrder(replayed), fingerprint))
  }
}
