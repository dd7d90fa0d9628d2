/**
 What loading gives after any run of saves: which fields of the last save come back, and exactly when the
 others do.
 */
module CheckpointRuns {
  import opened Common
  import opened DeltaCheckpoint

  datatype SaveOp = SaveOp(snap: Snapshot, w: Write)

  /** A written snapshot starts a new chain when a base is due, and continues the old one otherwise. */
  ghost function Advanced(snaps: seq<Snapshot>, op: SaveOp, interval: int): seq<Snapshot> {
    if op.w != Written then snaps
    else if snaps == [] || op.snap.cycle - snaps[0].cycle >= interval then [op.snap]
    else snaps + [op.snap]
  }

  /** The snapshots written since the last base, itself first. */
  ghost function SinceBase(ops: seq<SaveOp>, interval: int): seq<Snapshot> {
    if ops == [] then [] else Advanced(SinceBase(ops[..|ops| - 1], interval), ops[|ops| - 1], interval)
  }

  /** No save of a chain is as far as the interval from its base. */
  lemma {:induction false} ChainStaysWithin(ops: seq<SaveOp>, interval: int, i: nat)
    requires 0 < i < |SinceBase(ops, interval)|
    ensures SinceBase(ops, interval)[i].cycle - SinceBase(ops, interval)[0].cycle < interval
  {
    var n := |ops| - 1;
    var before := SinceBase(ops[..n], interval);
    if i < |before| {
      ChainStaysWithin(ops[..n], interval, i);
    }
  }

  /** A save exactly one interval after a base is a base again; one cycle earlier it is a delta. */
  lemma {:induction false} BaseAtInterval(ops: seq<SaveOp>, a: SaveOp, b: SaveOp, interval: int)
    requires |ops| == 2 && ops[0] == a && ops[1] == b && a.w == Written && b.w == Written
    ensures b.snap.cycle == a.snap.cycle + interval ==> SinceBase(ops, interval) == [b.snap]
    ensures b.snap.cycle == a.snap.cycle + interval - 1 ==> SinceBase(ops, interval) == [a.snap, b.snap]
  {
    var first := ops[..1];
    assert first[..0] == [] && |first| == 1;
    NoOpsNoChain(first[..0], interval);
    assert SinceBase(first, interval) == [a.snap];
  }

  lemma {:induction false} NoOpsNoChain(ops: seq<SaveOp>, interval: int)
    requires |ops| == 0
    ensures SinceBase(ops, interval) == []
  {
  }

  /** What a base and the deltas after it stand for: each delta is cut at the save before it. */
  ghost function Assembled(snaps: seq<Snapshot>): Snapshot
    requires snaps != []
  {
    var n := |snaps| - 1;
    if n == 0 then snaps[0]
    else Continued(Assembled(snaps[..n]), snaps[n], snaps[n - 1].traceCount, MetaOf(snaps[0]))
  }

  ghost predicate FreshIds(ops: seq<SaveOp>) {
    forall i, j :: 0 <= i < j < |ops| ==> ops[i].snap.id != ops[j].snap.id
  }

  ghost predicate FreshFor(m: DeltaCheckpointManager, id: SnapshotId)
    reads m
  {
    forall b :: b in m.bases ==> b.id != id
  }

  /** The manager stands where the run of saves has brought it. */
  ghost predicate StandsAt(m: DeltaCheckpointManager, snaps: seq<Snapshot>)
    reads m
    requires m.Valid()
  {
    && (m.bases == [] <==> snaps == [])
    && (snaps != [] ==>
          && m.Current() == Assembled(snaps) && m.bases[|m.bases| - 1] == MetaOf(snaps[0])
          && m.lastSavedTraceCount == snaps[|snaps| - 1].traceCount)
  }

  lemma {:induction false} AdvancedStep(snaps: seq<Snapshot>, op: SaveOp, interval: int)
    requires op.w == Written
    ensures var next := Advanced(snaps, op, interval);
      && next != [] && next[|next| - 1] == op.snap
      && if snaps == [] || op.snap.cycle - snaps[0].cycle >= interval
         then next[0] == op.snap && Assembled(next) == op.snap
         else && next[0] == snaps[0]
              && Assembled(next)
                 == Continued(Assembled(snaps), op.snap, snaps[|snaps| - 1].traceCount, MetaOf(snaps[0]))
  {
    assert (snaps + [op.snap])[..|snaps|] == snaps;
  }

  method SaveOne(m: DeltaCheckpointManager, op: SaveOp, ghost snaps: seq<Snapshot>)
    requires m.Valid() && m.enabled && FreshFor(m, op.snap.id) && StandsAt(m, snaps)
    modifies m
    ensures m.Valid() && m.enabled && StandsAt(m, Advanced(snaps, op, m.baseInterval))
    ensures forall id :: id != op.snap.id && old(FreshFor(m, id)) ==> FreshFor(m, id)
  {
    ghost var due := snaps == [] || op.snap.cycle - snaps[0].cycle >= m.baseInterval;
    assert m.ShouldWriteBase(op.snap.cycle) == due;
    if op.w == Written {
      AdvancedStep(snaps, op, m.baseInterval);
    }
    ghost var next := Advanced(snaps, op, m.baseInterval);
    var r := m.Save(op.snap, op.w);
    if op.w != Written {
      assert next == snaps && StandsAt(m, next);
    } else if due {
      assert r.SavedBase? && m.Current() == Assembled(next);
    } else {
      assert r.SavedDelta? && m.Current() == Assembled(next);
    }
  }

  /** After any run of saves and write failures, loading gives what was written since the last base, put together. */
  method SaveAllAndLoad(m: DeltaCheckpointManager, ops: seq<SaveOp>) returns (r: Loaded)
    requires m.Valid() && m.enabled && m.bases == [] && FreshIds(ops)
    modifies m
    ensures m.Valid()
    ensures var snaps := SinceBase(ops, m.baseInterval);
      r == if snaps == [] then Nothing else Restored(Assembled(snaps))
  {
    for i := 0 to |ops|
      invariant m.Valid() && m.enabled && StandsAt(m, SinceBase(ops[..i], m.baseInterval))
      invariant forall k :: i <= k < |ops| ==> FreshFor(m, ops[k].snap.id)
    {
      assert ops[..i + 1][..i] == ops[..i];
      SaveOne(m, ops[i], SinceBase(ops[..i], m.baseInterval));
    }
    assert ops[..|ops|] == ops;
    r := m.LoadLatest();
  }

  ghost function LastWritten(ops: seq<SaveOp>): Option<Snapshot> {
    if ops == [] then None
    else if ops[|ops| - 1].w == Written then Some(ops[|ops| - 1].snap)
    else LastWritten(ops[..|ops| - 1])
  }

  /** The chain ends with the last save that went through. */
  lemma {:induction false} ChainEndsWithLastSave(ops: seq<SaveOp>, interval: int)
    ensures var snaps := SinceBase(ops, interval);
      LastWritten(ops) == if snaps == [] then None else Some(snaps[|snaps| - 1])
  {
    if ops != [] {
      ChainEndsWithLastSave(ops[..|ops| - 1], interval);
    }
  }

  // Field by field

  /** The counters are always those of the last save; id, schema and confidence gradient always those of the base. */
  lemma {:induction false} PlainFields(snaps: seq<Snapshot>)
    requires snaps != []
    ensures var a, base, last := Assembled(snaps), snaps[0], snaps[|snaps| - 1];
      && a.createdAt == last.createdAt && a.cycle == last.cycle
      && a.queueDepth == last.queueDepth && a.processed == last.processed
      && a.id == base.id && a.schema == base.schema && a.gradient == base.gradient
  {
    if |snaps| > 1 {
      PlainFields(snaps[..|snaps| - 1]);
    }
  }

  ghost predicate CountsFit(snaps: seq<Snapshot>) {
    forall i :: 0 <= i < |snaps| ==> snaps[i].traceCount == |snaps[i].traces|
  }

  ghost predicate Appending(snaps: seq<Snapshot>) {
    forall i :: 0 < i < |snaps| ==> snaps[i - 1].traces <= snaps[i].traces
  }

  ghost predicate TracesRight(snaps: seq<Snapshot>, k: nat)
    requires k < |snaps|
  {
    Assembled(snaps[..k + 1]).traces == snaps[k].traces
  }

  lemma {:induction false} OneTraceDelta(snaps: seq<Snapshot>, k: nat)
    requires k + 1 < |snaps| && CountsFit(snaps) && TracesRight(snaps, k)
    ensures TracesRight(snaps, k + 1) <==> snaps[k].traces <= snaps[k + 1].traces
  {
    var chain := snaps[..k + 2];
    assert chain[..k + 1] == snaps[..k + 1];
    var earlier, later := snaps[k].traces, snaps[k + 1].traces;
    assert Assembled(chain).traces == earlier + From(later, |earlier|);
  }

  /** The traces come out right after every save of the chain if and only if traces are only ever appended. */
  lemma {:induction false} TracesExactIff(snaps: seq<Snapshot>)
    requires CountsFit(snaps)
    ensures (forall k :: 0 <= k < |snaps| ==> TracesRight(snaps, k)) <==> Appending(snaps)
  {
    if forall k :: 0 <= k < |snaps| ==> TracesRight(snaps, k) {
      forall i | 0 < i < |snaps|
        ensures snaps[i - 1].traces <= snaps[i].traces
      {
        assert TracesRight(snaps, i - 1) && TracesRight(snaps, i);
        OneTraceDelta(snaps, i - 1);
      }
    }
    if Appending(snaps) {
      forall k | 0 <= k < |snaps|
        ensures TracesRight(snaps, k)
      {
        AppendedTraces(snaps, k);
      }
    }
  }

  lemma {:induction false} AppendedTraces(snaps: seq<Snapshot>, k: nat)
    requires k < |snaps| && CountsFit(snaps) && Appending(snaps)
    ensures TracesRight(snaps, k)
  {
    if k > 0 {
      AppendedTraces(snaps, k - 1);
      OneTraceDelta(snaps, k - 1);
    }
  }

  /** The saves of one process: right counts, and traces that are only appended. */
  ghost predicate AppendOnly(ops: seq<SaveOp>) {
    && (forall i :: 0 <= i < |ops| ==> ops[i].snap.traceCount == |ops[i].snap.traces|)
    && (forall i, j :: 0 <= i < j < |ops| ==> ops[i].snap.traces <= ops[j].snap.traces)
  }

  lemma {:induction false} ChainAppends(ops: seq<SaveOp>, interval: int)
    requires AppendOnly(ops)
    ensures var snaps := SinceBase(ops, interval);
      && CountsFit(snaps) && Appending(snaps)
      && (snaps != [] ==> exists i :: 0 <= i < |ops| && ops[i].snap == snaps[|snaps| - 1])
  {
    if ops != [] {
      var n := |ops| - 1;
      ChainAppends(ops[..n], interval);
      var snaps := SinceBase(ops[..n], interval);
      if snaps != [] {
        var i :| 0 <= i < n && ops[..n][i].snap == snaps[|snaps| - 1];
        assert ops[i].snap.traces <= ops[n].snap.traces;
      }
    }
  }

  /** Over every run of one process a load has the traces and the counters of the last save that went through. */
  lemma {:induction false} RunKeepsTraces(ops: seq<SaveOp>, interval: int)
    requires AppendOnly(ops) && LastWritten(ops).Some?
    ensures var last := LastWritten(ops).value;
      SinceBase(ops, interval) != [] && Mirrors(Assembled(SinceBase(ops, interval)), last, |last.traces|)
  {
    var snaps := SinceBase(ops, interval);
    ChainAppends(ops, interval);
    ChainEndsWithLastSave(ops, interval);
    PlainFields(snaps);
    AppendedTraces(snaps, |snaps| - 1);
    assert snaps[..|snaps|] == snaps;
    TraceCountFits(snaps);
  }

  lemma {:induction false} TraceCountFits(snaps: seq<Snapshot>)
    requires snaps != [] && CountsFit(snaps)
    ensures Assembled(snaps).traceCount == |Assembled(snaps).traces|
  {
  }

  lemma {:induction false} StateKeys(snaps: seq<Snapshot>)
    requires snaps != []
    ensures forall f :: f in Assembled(snaps).state.Keys <==> exists i :: 0 <= i < |snaps| && f in snaps[i].state.Keys
    ensures forall f :: f in snaps[|snaps| - 1].state ==> Assembled(snaps).state[f] == snaps[|snaps| - 1].state[f]
  {
    var n := |snaps| - 1;
    if n > 0 {
      StateKeys(snaps[..n]);
      forall f
        ensures f in Assembled(snaps).state.Keys <==> exists i :: 0 <= i < |snaps| && f in snaps[i].state.Keys
      {
        if f in Assembled(snaps[..n]).state.Keys {
          var i :| 0 <= i < n && f in snaps[..n][i].state.Keys;
          assert f in snaps[i].state.Keys;
        }
        if i :| 0 <= i < |snaps| && f in snaps[i].state.Keys {
          assert i < n ==> f in snaps[..n][i].state.Keys;
        }
      }
    }
  }

  /** The runtime state is the one last saved if and only if no field saved since the base is missing from it. */
  lemma {:induction false} StateExactIff(snaps: seq<Snapshot>)
    requires snaps != []
    ensures Assembled(snaps).state == snaps[|snaps| - 1].state <==>
      forall i :: 0 <= i < |snaps| ==> snaps[i].state.Keys <= snaps[|snaps| - 1].state.Keys
  {
    StateKeys(snaps);
    var a, last := Assembled(snaps).state, snaps[|snaps| - 1].state;
    if forall i :: 0 <= i < |snaps| ==> snaps[i].state.Keys <= last.Keys {
      assert a.Keys == last.Keys;
    }
    if a == last {
      forall i | 0 <= i < |snaps|
        ensures snaps[i].state.Keys <= last.Keys
      {
        assert forall f :: f in snaps[i].state.Keys ==> f in a.Keys;
      }
    }
  }

  // Score histories

  /** Every delta is cut at the length of the base's history. */
  ghost function JoinedScores(hs: seq<seq<real>>): seq<real>
    requires hs != []
  {
    var n := |hs| - 1;
    if n == 0 then hs[0] else JoinedScores(hs[..n]) + From(hs[n], |hs[0]|)
  }

  ghost function Histories(snaps: seq<Snapshot>, scores: Snapshot -> seq<real>): seq<seq<real>> {
    seq(|snaps|, i requires 0 <= i < |snaps| => scores(snaps[i]))
  }

  function GovernanceOf(s: Snapshot): seq<real> {
    s.governance
  }

  function ConfidenceOf(s: Snapshot): seq<real> {
    s.confidence
  }

  function StabilityOf(s: Snapshot): seq<real> {
    s.stability
  }

  lemma {:induction false} ScoresAreJoined(snaps: seq<Snapshot>)
    requires snaps != []
    ensures Assembled(snaps).governance == JoinedScores(Histories(snaps, GovernanceOf))
    ensures Assembled(snaps).confidence == JoinedScores(Histories(snaps, ConfidenceOf))
    ensures Assembled(snaps).stability == JoinedScores(Histories(snaps, StabilityOf))
  {
    var n := |snaps| - 1;
    if n > 0 {
      ScoresAreJoined(snaps[..n]);
      HistoriesSplit(snaps, GovernanceOf);
      HistoriesSplit(snaps, ConfidenceOf);
      HistoriesSplit(snaps, StabilityOf);
    } else {
      assert Histories(snaps, GovernanceOf)[0] == snaps[0].governance;
      assert Histories(snaps, ConfidenceOf)[0] == snaps[0].confidence;
      assert Histories(snaps, StabilityOf)[0] == snaps[0].stability;
    }
  }

  lemma {:induction false} HistoriesSplit(snaps: seq<Snapshot>, scores: Snapshot -> seq<real>)
    requires |snaps| > 1
    ensures var n, hs := |snaps| - 1, Histories(snaps, scores);
      JoinedScores(hs) == JoinedScores(Histories(snaps[..n], scores)) + From(scores(snaps[n]), |scores(snaps[0])|)
  {
    var n, hs := |snaps| - 1, Histories(snaps, scores);
    assert hs[..n] == Histories(snaps[..n], scores);
  }

  /** No history between the base and save n is longer than the base's. */
  ghost predicate NoLonger(hs: seq<seq<real>>, n: nat) {
    forall i :: 1 <= i < n && i < |hs| ==> |hs[i]| <= |hs[0]|
  }

  lemma {:induction false} JoinedLength(hs: seq<seq<real>>)
    requires hs != []
    ensures hs[0] <= JoinedScores(hs)
    ensures JoinedScores(hs) == hs[0] <==> NoLonger(hs, |hs|)
  {
    var n := |hs| - 1;
    if n > 0 {
      JoinedLength(hs[..n]);
      assert NoLonger(hs, |hs|) <==> NoLonger(hs[..n], n) && |hs[n]| <= |hs[0]|;
    }
  }

  /**
   Whatever the histories: loading gives the last one if and only if nothing was saved after the base, or the
   last one extends the base's and none in between was longer than the base's.
   */
  lemma {:induction false} JoinedExactIff(hs: seq<seq<real>>)
    requires hs != []
    ensures JoinedScores(hs) == hs[|hs| - 1] <==> |hs| == 1 || (hs[0] <= hs[|hs| - 1] && NoLonger(hs, |hs| - 1))
  {
    var n := |hs| - 1;
    if n > 0 {
      JoinedLength(hs);
      JoinedLength(hs[..n]);
      assert NoLonger(hs, n) <==> NoLonger(hs[..n], n);
      var before := JoinedScores(hs[..n]);
      if |hs[n]| >= |hs[0]| {
        assert |JoinedScores(hs)| == |before| + |hs[n]| - |hs[0]|;
        assert |before| == |hs[0]| ==> before == hs[0];
      }
    }
  }

  /** The three score histories of a load, each with its exact condition. */
  lemma {:induction false} ScoresExactIff(snaps: seq<Snapshot>)
    requires snaps != []
    ensures var a, last, n := Assembled(snaps), snaps[|snaps| - 1], |snaps| - 1;
      && (a.governance == last.governance <==>
            n == 0 || (snaps[0].governance <= last.governance && NoLonger(Histories(snaps, GovernanceOf), n)))
      && (a.confidence == last.confidence <==>
            n == 0 || (snaps[0].confidence <= last.confidence && NoLonger(Histories(snaps, ConfidenceOf), n)))
      && (a.stability == last.stability <==>
            n == 0 || (snaps[0].stability <= last.stability && NoLonger(Histories(snaps, StabilityOf), n)))
  {
    ScoresAreJoined(snaps);
    HistoryExactIff(snaps, GovernanceOf);
    HistoryExactIff(snaps, ConfidenceOf);
    HistoryExactIff(snaps, StabilityOf);
  }

  lemma {:induction false} HistoryExactIff(snaps: seq<Snapshot>, scores: Snapshot -> seq<real>)
    requires snaps != []
    ensures var hs, last, n := Histories(snaps, scores), scores(snaps[|snaps| - 1]), |snaps| - 1;
      JoinedScores(hs) == last <==> n == 0 || (scores(snaps[0]) <= last && NoLonger(hs, n))
  {
    JoinedExactIff(Histories(snaps, scores));
  }

  /** Histories that only grow come out right exactly while the save before still had the base's history. */
  lemma {:induction false} GrowingScores(hs: seq<seq<real>>)
    requires |hs| >= 2 && forall i, j :: 0 <= i < j < |hs| ==> hs[i] <= hs[j]
    ensures JoinedScores(hs) == hs[|hs| - 1] <==> hs[|hs| - 2] == hs[0]
  {
    JoinedExactIff(hs);
    var p := |hs| - 2;
    assert p > 0 ==> hs[0] <= hs[p];
    if hs[p] == hs[0] {
      forall i | 1 <= i < p
        ensures |hs[i]| <= |hs[0]|
      {
        assert hs[i] <= hs[p];
      }
    }
  }

  /** A full window of fixed length never moves again after the base: the load keeps the base's scores. */
  lemma {:induction false} FullWindowGoesStale(hs: seq<seq<real>>)
    requires hs != [] && forall i :: 0 <= i < |hs| ==> |hs[i]| == |hs[0]|
    ensures JoinedScores(hs) == hs[0]
    ensures JoinedScores(hs) == hs[|hs| - 1] <==> hs[|hs| - 1] == hs[0]
  {
    JoinedLength(hs);
  }

  /** A window of two scores that has moved on by one is already wrong at the first delta. */
  lemma {:induction false} FirstDeltaCanBeStale()
    ensures JoinedScores([[0.5, 0.6], [0.6, 0.7]]) == [0.5, 0.6]
  {
    FullWindowGoesStale([[0.5, 0.6], [0.6, 0.7]]);
  }

  /** A growing history repeats a score at the second delta. */
  lemma {:induction false} SecondDeltaCanRepeat()
    ensures JoinedScores([[0.5], [0.5, 0.6], [0.5, 0.6, 0.7]]) == [0.5, 0.6, 0.6, 0.7]
  {
    var hs := [[0.5], [0.5, 0.6], [0.5, 0.6, 0.7]];
    assert hs[..2][..1] == [hs[0]];
    assert JoinedScores(hs[..2]) == [0.5] + From(hs[1], 1);
    assert From(hs[1], 1) == [0.6] && From(hs[2], 1) == [0.6, 0.7];
  }

  // Restart and clearing

  /** After a restart a delta stores all traces again, which is right if and only if none was there to repeat. */
  method SaveAfterRestart(m: DeltaCheckpointManager, snap: Snapshot) returns (r: SaveResult)
    requires m.Valid() && m.enabled && FreshFor(m, snap.id)
    modifies m
    ensures m.Valid() && m.bases != []
    ensures r == if old(m.ShouldWriteBase(snap.cycle)) then SavedBase(snap.id) else SavedDelta(snap.id)
    ensures r.SavedBase? ==> m.Current() == snap
    ensures r.SavedDelta? ==> old(m.bases) != []
    ensures r.SavedDelta? ==>
      && m.Current().traces == old(if m.bases != [] then m.Current() else snap).traces + snap.traces
      && (m.Current().traces == snap.traces <==> old(if m.bases != [] then m.Current() else snap).traces == [])
  {
    m.Reopen();
    ghost var before := if m.bases != [] then m.Current().traces else [];
    r := m.Save(snap, Written);
    assert r.SavedDelta? ==> |m.Current().traces| == |before| + |snap.traces|;
  }

  /** One trace saved, a restart, the same trace and a new one saved: loading gives three. */
  method RestartRepeats() returns (r: Loaded)
    ensures r.Restored? && |r.snapshot.traces| == 3
    ensures r.snapshot.traces[0] == r.snapshot.traces[1] == TraceRecord("a") && r.snapshot.traces[2] == TraceRecord("b")
  {
    var m := new DeltaCheckpointManager(500, 3);
    var a, b := TraceRecord("a"), TraceRecord("b");
    var first := Snapshot(SnapshotId("s"), 0.0, map[], 1, [a], [], [], [], "", 0, 1, 0, "1");
    var second := Snapshot(SnapshotId(""), 1.0, map[], 2, [a, b], [], [], [], "", 0, 2, 1, "1");
    var _ := m.Save(first, Written);
    var _ := SaveAfterRestart(m, second);
    r := m.LoadLatest();
  }

  /** A cleared manager starts over: its next save is a base, and loading gives it back whole. */
  method SaveAfterClear(m: DeltaCheckpointManager, snap: Snapshot) returns (r: Loaded)
    requires m.Valid() && m.enabled
    modifies m
    ensures m.Valid() && r == Restored(snap)
  {
    m.Clear();
    var _ := m.Save(snap, Written);
    r := m.LoadLatest();
  }
}
