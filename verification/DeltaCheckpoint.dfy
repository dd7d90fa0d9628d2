/**
 Base snapshots and delta segments: a checkpoint stores only what is new since the last save, and
 loading puts base and deltas together again.
 */
module DeltaCheckpoint {
  import opened Common
  import opened Sorting

  datatype SnapshotId = SnapshotId(text: string)

  datatype TraceRecord = TraceRecord(json: string)

  datatype Field = Field(name: string)

  datatype Value = Value(json: string)

  datatype Snapshot = Snapshot(
    id: SnapshotId, createdAt: real, state: map<Field, Value>, traceCount: nat, traces: seq<TraceRecord>,
    governance: seq<real>, confidence: seq<real>, stability: seq<real>, gradient: string,
    queueDepth: int, processed: int, cycle: int, schema: string)

  datatype Delta = Delta(
    id: SnapshotId, base: SnapshotId, number: int, createdAt: real, cycle: int, baseCycle: int, traceOffset: nat,
    newTraces: seq<TraceRecord>, newGovernance: seq<real>, newConfidence: seq<real>, newStability: seq<real>,
    state: map<Field, Value>, queueDepth: int, processed: int)

  datatype BaseMeta = BaseMeta(
    id: SnapshotId, createdAt: real, cycle: int, traceCount: nat,
    governanceCount: nat, confidenceCount: nat, stabilityCount: nat)

  /** How writing a file ends: done, not even opened, or cut off after the old contents were gone. */
  datatype Write = Written | NotOpened | CutOff

  datatype SaveResult = Disabled | Failed | SavedBase(id: SnapshotId) | SavedDelta(id: SnapshotId)

  datatype Loaded = Nothing | Restored(snapshot: Snapshot) | ChainGap

  function From<T>(s: seq<T>, start: nat): seq<T> {
    if start <= |s| then s[start..] else []
  }

  function MetaOf(s: Snapshot): BaseMeta {
    BaseMeta(s.id, s.createdAt, s.cycle, s.traceCount, |s.governance|, |s.confidence|, |s.stability|)
  }

  /** The delta chain is numbered 1, 2, 3, ... (REC-DELTA-001). */
  ghost predicate Sequential(ds: seq<Delta>) {
    forall i :: 0 <= i < |ds| ==> ds[i].number == i + 1
  }

  ghost function AllTraces(base: Snapshot, ds: seq<Delta>): seq<TraceRecord> {
    if ds == [] then base.traces else AllTraces(base, ds[..|ds| - 1]) + ds[|ds| - 1].newTraces
  }

  ghost function AllState(base: Snapshot, ds: seq<Delta>): map<Field, Value> {
    if ds == [] then base.state else AllState(base, ds[..|ds| - 1]) + ds[|ds| - 1].state
  }

  ghost function AllGovernance(base: Snapshot, ds: seq<Delta>): seq<real> {
    if ds == [] then base.governance else AllGovernance(base, ds[..|ds| - 1]) + ds[|ds| - 1].newGovernance
  }

  ghost function AllConfidence(base: Snapshot, ds: seq<Delta>): seq<real> {
    if ds == [] then base.confidence else AllConfidence(base, ds[..|ds| - 1]) + ds[|ds| - 1].newConfidence
  }

  ghost function AllStability(base: Snapshot, ds: seq<Delta>): seq<real> {
    if ds == [] then base.stability else AllStability(base, ds[..|ds| - 1]) + ds[|ds| - 1].newStability
  }

  /** The snapshot that base and deltas stand for. */
  ghost function Content(base: Snapshot, ds: seq<Delta>): Snapshot {
    if ds == [] then base
    else
      var d := ds[|ds| - 1];
      Snapshot(base.id, d.createdAt, AllState(base, ds), |AllTraces(base, ds)|, AllTraces(base, ds),
               AllGovernance(base, ds), AllConfidence(base, ds), AllStability(base, ds), base.gradient,
               d.queueDepth, d.processed, d.cycle, base.schema)
  }

  /** What loading gives after one more delta: the content before, continued by what the delta stores. */
  ghost function Continued(before: Snapshot, snap: Snapshot, saved: nat, base: BaseMeta): Snapshot {
    var traces := before.traces + From(snap.traces, saved);
    before.(createdAt := snap.createdAt, state := before.state + snap.state, traceCount := |traces|, traces := traces,
            governance := before.governance + From(snap.governance, base.governanceCount),
            confidence := before.confidence + From(snap.confidence, base.confidenceCount),
            stability := before.stability + From(snap.stability, base.stabilityCount),
            queueDepth := snap.queueDepth, processed := snap.processed, cycle := snap.cycle)
  }

  lemma {:induction false} ContentFields(base: Snapshot, ds: seq<Delta>)
    ensures Content(base, ds).traces == AllTraces(base, ds) && Content(base, ds).state == AllState(base, ds)
    ensures Content(base, ds).governance == AllGovernance(base, ds)
    ensures Content(base, ds).confidence == AllConfidence(base, ds)
    ensures Content(base, ds).stability == AllStability(base, ds)
    ensures Content(base, ds).id == base.id && Content(base, ds).gradient == base.gradient
    ensures Content(base, ds).schema == base.schema
  {
  }

  /** The delta that a snapshot becomes: traces since the last save, scores since the base. */
  function DeltaOf(snap: Snapshot, base: BaseMeta, saved: nat, number: int): Delta {
    Delta(snap.id, base.id, number, snap.createdAt, snap.cycle, base.cycle, saved,
          From(snap.traces, saved),
          From(snap.governance, base.governanceCount),
          From(snap.confidence, base.confidenceCount),
          From(snap.stability, base.stabilityCount),
          snap.state, snap.queueDepth, snap.processed)
  }

  /** A delta says which snapshot it is, which base it belongs to, and where in the history its traces go on. */
  lemma {:induction false} DeltaResumes(snap: Snapshot, base: BaseMeta, saved: nat, number: int)
    ensures var d := DeltaOf(snap, base, saved, number);
      && d.id == snap.id && d.base == base.id && d.number == number
      && d.cycle == snap.cycle && d.baseCycle == base.cycle && d.traceOffset == saved
      && (saved <= |snap.traces| ==> snap.traces[..d.traceOffset] + d.newTraces == snap.traces)
      && (saved > |snap.traces| ==> d.newTraces == [])
  {
  }

  lemma {:induction false} ContentGrows(base: Snapshot, ds: seq<Delta>, snap: Snapshot, meta: BaseMeta,
                                        saved: nat, number: int)
    ensures Content(base, ds + [DeltaOf(snap, meta, saved, number)]) == Continued(Content(base, ds), snap, saved, meta)
  {
    ContentFields(base, ds);
    assert (ds + [DeltaOf(snap, meta, saved, number)])[..|ds|] == ds;
  }

  /** Bases have different ids, and each was due when it was written. */
  ghost predicate Spaced(bases: seq<BaseMeta>, interval: int) {
    && (forall i, j :: 0 <= i < j < |bases| ==> bases[i].id != bases[j].id)
    && (forall i, j :: 0 <= i < |bases| && j == i + 1 < |bases| ==> bases[j].cycle - bases[i].cycle >= interval)
  }

  lemma {:induction false} SpacedSuffix(bases: seq<BaseMeta>, interval: int, n: nat)
    requires Spaced(bases, interval) && n <= |bases|
    ensures Spaced(bases[n..], interval)
  {
  }

  lemma {:induction false} SpacedGrows(bases: seq<BaseMeta>, interval: int, b: BaseMeta)
    requires Spaced(bases, interval) && forall x :: x in bases ==> x.id != b.id
    requires bases != [] ==> b.cycle - bases[|bases| - 1].cycle >= interval
    ensures Spaced(bases + [b], interval)
  {
  }

  /** The last base is on disk as it was written, and its deltas are numbered without a gap. */
  ghost predicate Loadable(b: BaseMeta, files: map<SnapshotId, Option<Snapshot>>, deltas: map<SnapshotId, seq<Delta>>) {
    && b.id in files && files[b.id].Some? && MetaOf(files[b.id].value) == b
    && deltas.Keys <= {b.id}
    && (b.id in deltas ==> Sequential(deltas[b.id]))
  }

  lemma {:induction false} OthersStayLoadable(b: BaseMeta, files: map<SnapshotId, Option<Snapshot>>,
                                              deltas: map<SnapshotId, seq<Delta>>, id: SnapshotId, s: Option<Snapshot>)
    requires Loadable(b, files, deltas) && b.id != id
    ensures Loadable(b, files[id := s], deltas)
  {
  }

  lemma {:induction false} LongerStaysLoadable(b: BaseMeta, files: map<SnapshotId, Option<Snapshot>>,
                                               deltas: map<SnapshotId, seq<Delta>>, chain: seq<Delta>, d: Delta)
    requires Loadable(b, files, deltas) && chain == (if b.id in deltas then deltas[b.id] else [])
    requires d.number == |chain| + 1
    ensures Loadable(b, files, deltas[b.id := chain + [d]])
  {
  }

  /** The new snapshot only appends traces to the last one saved, and counts them right. */
  ghost predicate Appends(last: Option<Snapshot>, snap: Snapshot) {
    snap.traceCount == |snap.traces| && (last.Some? ==> last.value.traces <= snap.traces)
  }

  /** The content has the traces and the counters of the snapshot, and the count of saved traces fits. */
  ghost predicate Mirrors(content: Snapshot, s: Snapshot, saved: nat) {
    && content.traces == s.traces && content.traceCount == |s.traces| == saved
    && content.cycle == s.cycle && content.queueDepth == s.queueDepth
    && content.processed == s.processed && content.createdAt == s.createdAt
  }

  lemma {:induction false} MirrorsContinues(before: Snapshot, s: Snapshot, saved: nat, snap: Snapshot, base: BaseMeta)
    requires Mirrors(before, s, saved) && Appends(Some(s), snap)
    ensures Mirrors(Continued(before, snap, saved, base), snap, snap.traceCount)
  {
    assert snap.traces == s.traces + From(snap.traces, saved);
  }

  predicate ByNumber(a: Delta, b: Delta) {
    a.number <= b.number
  }

  /** The last entries are kept, as many as there may be. */
  ghost predicate KeepsNewest(all: seq<BaseMeta>, kept: seq<BaseMeta>, limit: nat) {
    |kept| == (if |all| <= limit then |all| else limit) && kept == all[|all| - |kept|..]
  }

  /** The files of the bases are still there, as they were. */
  ghost predicate KeepsFiles(bases: seq<BaseMeta>, before: map<SnapshotId, Option<Snapshot>>,
                             after: map<SnapshotId, Option<Snapshot>>)
  {
    forall b :: b in bases && b.id in before ==> b.id in after && after[b.id] == before[b.id]
  }

  /** The oldest bases were taken away while there were too many, and no file of the others was. */
  ghost predicate Pruning(all: seq<BaseMeta>, before: map<SnapshotId, Option<Snapshot>>, kept: seq<BaseMeta>,
                          files: map<SnapshotId, Option<Snapshot>>, interval: int, limit: nat)
  {
    && kept != [] && Spaced(kept, interval) && KeepsFiles(kept, before, files) && files.Keys <= before.Keys
    && KeepsNewest(all, kept, if |kept| > limit then |kept| else limit)
  }

  lemma {:induction false} PruneOne(all: seq<BaseMeta>, before: map<SnapshotId, Option<Snapshot>>,
                                    kept: seq<BaseMeta>, files: map<SnapshotId, Option<Snapshot>>, interval: int,
                                    limit: nat)
    requires 1 <= limit < |kept| && Pruning(all, before, kept, files, interval, limit)
    ensures Pruning(all, before, kept[1..], files, interval, limit)
    ensures Pruning(all, before, kept[1..], files - {kept[0].id}, interval, limit)
  {
    SpacedSuffix(kept, interval, 1);
    assert forall b :: b in kept[1..] ==> b in kept && b.id != kept[0].id;
  }

  lemma {:induction false} NewBaseLoads(all: seq<BaseMeta>, before: map<SnapshotId, Option<Snapshot>>,
                                        kept: seq<BaseMeta>, files: map<SnapshotId, Option<Snapshot>>, snap: Snapshot)
    requires all != [] && all[|all| - 1] == MetaOf(snap) && kept != [] && kept[|kept| - 1] == all[|all| - 1]
    requires snap.id in before && before[snap.id] == Some(snap) && KeepsFiles(kept, before, files)
    ensures Loadable(MetaOf(snap), files, map[]) && files[snap.id] == Some(snap)
  {
    assert kept[|kept| - 1] in kept;
  }

  class DeltaCheckpointManager {
    var enabled: bool
    const baseInterval: int
    const maxBases: nat
    var bases: seq<BaseMeta>
    var deltas: map<SnapshotId, seq<Delta>>
    var lastSavedTraceCount: nat
    var files: map<SnapshotId, Option<Snapshot>>
    ghost var last: Option<Snapshot>

    ghost predicate Valid()
      reads this
    {
      && 1 <= maxBases && |bases| <= maxBases && Spaced(bases, baseInterval)
      && (bases == [] <==> last == None)
      && (bases == [] ==> deltas == map[])
      && (bases != [] ==> Loadable(bases[|bases| - 1], files, deltas))
    }

    function Chain(): seq<Delta>
      reads this
      requires bases != []
    {
      var b := bases[|bases| - 1];
      if b.id in deltas then deltas[b.id] else []
    }

    ghost function Base(): Snapshot
      reads this
      requires Valid() && bases != []
    {
      files[bases[|bases| - 1].id].value
    }

    /** What loading would give now. */
    ghost function Current(): Snapshot
      reads this
      requires Valid() && bases != []
    {
      Content(Base(), Chain())
    }

    /** Loading gives the traces and the counters of the last successful save. */
    ghost predicate UpToDate()
      reads this
      requires Valid()
    {
      last.Some? ==> Mirrors(Current(), last.value, lastSavedTraceCount)
    }

    constructor (baseInterval: int, maxBases: nat, enabled: bool := true)
      requires 1 <= maxBases
      ensures Valid() && UpToDate() && last == None
      ensures bases == [] && deltas == map[] && lastSavedTraceCount == 0 && files == map[]
      ensures this.baseInterval == baseInterval && this.maxBases == maxBases && this.enabled == enabled
    {
      this.baseInterval, this.maxBases, this.enabled := baseInterval, maxBases, enabled;
      bases, deltas, lastSavedTraceCount, files, last := [], map[], 0, map[], None;
    }

    predicate ShouldWriteBase(cycle: int)
      reads this
    {
      bases == [] || cycle - bases[|bases| - 1].cycle >= baseInterval
    }

    /** The oldest bases go first; removing a file may fail silently. No deltas are left at this point. */
    method PruneOldBases()
      requires 1 <= maxBases && bases != []
      requires Spaced(bases, baseInterval)
      modifies `bases, `files
      ensures bases != [] && bases[|bases| - 1] == old(bases)[|old(bases)| - 1]
      ensures KeepsNewest(old(bases), bases, maxBases)
      ensures KeepsFiles(bases, old(files), files) && files.Keys <= old(files).Keys
      ensures Spaced(bases, baseInterval)
    {
      ghost var all, before := bases, files;
      while |bases| > maxBases
        invariant Pruning(all, before, bases, files, baseInterval, maxBases)
        decreases |bases|
      {
        var oldest := bases[0];
        PruneOne(all, before, bases, files, baseInterval, maxBases);
        bases := bases[1..];
        if * {
          files := files - {oldest.id};
        }
      }
    }

    method SaveBase(snap: Snapshot, w: Write) returns (r: SaveResult)
      requires Valid() && ShouldWriteBase(snap.cycle)
      requires forall b :: b in bases ==> b.id != snap.id
      modifies this`bases, this`deltas, this`files, this`lastSavedTraceCount, this`last
      ensures Valid()
      ensures w != Written ==>
        && r == Failed && bases == old(bases) && deltas == old(deltas) && last == old(last)
        && lastSavedTraceCount == old(lastSavedTraceCount) && (bases != [] ==> Current() == old(Current()))
      ensures w == Written ==>
        && r == SavedBase(snap.id) && bases != [] && Current() == snap && Chain() == []
        && last == Some(snap) && lastSavedTraceCount == snap.traceCount && bases[|bases| - 1] == MetaOf(snap)
      ensures w == Written ==>
        && KeepsNewest(old(bases) + [MetaOf(snap)], bases, maxBases)
        && KeepsFiles(bases, old(files)[snap.id := Some(snap)], files)
      ensures old(UpToDate()) && Appends(old(last), snap) ==> UpToDate()
      ensures forall b :: b in bases ==> b in old(bases) || b.id == snap.id
    {
      if w == Written {
        RecordBase(snap);
        return SavedBase(snap.id);
      }
      LeaveFile(snap, w);
      return Failed;
    }

    /** A file that could not be opened stays as it is, one that was cut off cannot be read any more. */
    method LeaveFile(snap: Snapshot, w: Write)
      requires Valid() && w != Written && forall b :: b in bases ==> b.id != snap.id
      modifies this`files
      ensures Valid() && files == (if w == CutOff then old(files)[snap.id := None] else old(files))
      ensures bases != [] ==> Current() == old(Current())
    {
      if w == CutOff {
        if bases != [] {
          OthersStayLoadable(bases[|bases| - 1], files, deltas, snap.id, None);
        }
        files := files[snap.id := None];
      }
    }

    /** The new base starts an empty chain. */
    method RecordBase(snap: Snapshot)
      requires Valid() && ShouldWriteBase(snap.cycle)
      requires forall b :: b in bases ==> b.id != snap.id
      modifies this`bases, this`deltas, this`files, this`lastSavedTraceCount, this`last
      ensures Valid() && bases != [] && bases[|bases| - 1] == MetaOf(snap)
      ensures Chain() == [] && Current() == snap && last == Some(snap) && lastSavedTraceCount == snap.traceCount
      ensures KeepsNewest(old(bases) + [MetaOf(snap)], bases, maxBases)
      ensures KeepsFiles(bases, old(files)[snap.id := Some(snap)], files)
    {
      SpacedGrows(bases, baseInterval, MetaOf(snap));
      files := files[snap.id := Some(snap)];
      deltas := map[];
      bases := bases + [MetaOf(snap)];
      lastSavedTraceCount, last := snap.traceCount, Some(snap);
      PruneBehind(snap);
    }

    /** Once a base is recorded the old ones may go. */
    method PruneBehind(snap: Snapshot)
      requires 1 <= maxBases && Spaced(bases, baseInterval) && deltas == map[] && last != None
      requires bases != [] && bases[|bases| - 1] == MetaOf(snap) && snap.id in files && files[snap.id] == Some(snap)
      modifies `bases, `files
      ensures Valid() && bases != [] && bases[|bases| - 1] == MetaOf(snap) && Chain() == [] && Current() == snap
      ensures KeepsNewest(old(bases), bases, maxBases) && KeepsFiles(bases, old(files), files)
    {
      ghost var all, present := bases, files;
      PruneOldBases();
      NewBaseLoads(all, present, bases, files, snap);
    }

    /** A delta holds what is new since the last save; score histories are cut at the base instead. */
    method SaveDelta(snap: Snapshot, w: Write) returns (r: SaveResult)
      requires Valid() && bases != []
      modifies this`deltas, this`lastSavedTraceCount, this`last
      ensures Valid() && bases != []
      ensures w != Written ==>
        && r == Failed && deltas == old(deltas) && last == old(last)
        && lastSavedTraceCount == old(lastSavedTraceCount)
      ensures w == Written ==>
        && r == SavedDelta(snap.id) && last == Some(snap) && lastSavedTraceCount == snap.traceCount
        && Current() == Continued(old(Current()), snap, old(lastSavedTraceCount), bases[|bases| - 1])
    {
      var base := bases[|bases| - 1];
      var chain := Chain();
      var delta := DeltaOf(snap, base, lastSavedTraceCount, |chain| + 1);
      if w != Written {
        return Failed;
      }
      ghost var baseWas := Base();
      ContentGrows(baseWas, chain, snap, base, lastSavedTraceCount, |chain| + 1);
      LongerStaysLoadable(base, files, deltas, chain, delta);
      deltas := deltas[base.id := chain + [delta]];
      lastSavedTraceCount, last := snap.traceCount, Some(snap);
      assert Base() == baseWas && Chain() == chain + [delta];
      return SavedDelta(snap.id);
    }

    /**
     A save with appended traces keeps the manager up to date, whether it writes a base, a delta or fails;
     a failed save changes nothing that loading can see.
     */
    method Save(snap: Snapshot, w: Write) returns (r: SaveResult)
      requires Valid() && forall b :: b in bases ==> b.id != snap.id
      modifies this`bases, this`deltas, this`files, this`lastSavedTraceCount, this`last
      ensures Valid() && enabled == old(enabled)
      ensures enabled && w == Written ==> last == Some(snap) && (r == SavedBase(snap.id) || r == SavedDelta(snap.id))
      ensures !(enabled && w == Written) ==>
        && bases == old(bases) && last == old(last) && (r == Disabled || r == Failed)
        && (bases != [] ==> Current() == old(Current()))
      ensures r.SavedBase? <==> enabled && w == Written && old(ShouldWriteBase(snap.cycle))
      ensures r.SavedBase? ==> bases != [] && Current() == snap && bases[|bases| - 1] == MetaOf(snap)
      ensures lastSavedTraceCount == if enabled && w == Written then snap.traceCount else old(lastSavedTraceCount)
      ensures r.SavedDelta? ==> old(bases) != [] && bases == old(bases)
      ensures r.SavedDelta? ==>
        Current() == Continued(old(if bases != [] then Current() else snap), snap, old(lastSavedTraceCount),
                               bases[|bases| - 1])
      ensures old(UpToDate()) && Appends(old(last), snap) ==> UpToDate()
      ensures forall b :: b in bases ==> b in old(bases) || b.id == snap.id
    {
      if !enabled {
        return Disabled;
      }
      if ShouldWriteBase(snap.cycle) {
        r := SaveBase(snap, w);
      } else {
        r := ContinueChain(snap, w);
      }
    }

    method ContinueChain(snap: Snapshot, w: Write) returns (r: SaveResult)
      requires Valid() && bases != []
      modifies this`deltas, this`lastSavedTraceCount, this`last
      ensures Valid() && bases != []
      ensures w != Written ==>
        && r == Failed && deltas == old(deltas) && last == old(last)
        && lastSavedTraceCount == old(lastSavedTraceCount)
      ensures w == Written ==>
        && r == SavedDelta(snap.id) && last == Some(snap) && lastSavedTraceCount == snap.traceCount
        && Current() == Continued(old(Current()), snap, old(lastSavedTraceCount), bases[|bases| - 1])
      ensures old(UpToDate()) && Appends(old(last), snap) ==> UpToDate()
    {
      ghost var before, saved, previous := Current(), lastSavedTraceCount, last.value;
      r := SaveDelta(snap, w);
      if w == Written && Mirrors(before, previous, saved) && Appends(Some(previous), snap) {
        MirrorsContinues(before, previous, saved, snap, bases[|bases| - 1]);
      }
    }

    method IsGapless(ds: seq<Delta>) returns (ok: bool)
      ensures ok <==> Sequential(ds)
    {
      for i := 0 to |ds|
        invariant forall k :: 0 <= k < i ==> ds[k].number == k + 1
      {
        if ds[i].number != i + 1 {
          return false;
        }
      }
      return true;
    }

    method ApplyDeltas(base: Snapshot, ds: seq<Delta>) returns (r: Loaded)
      requires ds != []
      ensures var sorted := StableSort(ds, ByNumber);
        r == if Sequential(sorted) then Restored(Content(base, sorted)) else ChainGap
    {
      var sorted := StableSort(ds, ByNumber);
      SortKeepsSize(ds);
      var gapless := IsGapless(sorted);
      if !gapless {
        return ChainGap;
      }
      var snapshot := Accumulate(base, sorted);
      return Restored(snapshot);
    }

    method Accumulate(base: Snapshot, ds: seq<Delta>) returns (r: Snapshot)
      requires ds != []
      ensures r == Content(base, ds)
    {
      var traces, state := base.traces, base.state;
      var governance, confidence, stability := base.governance, base.confidence, base.stability;
      for i := 0 to |ds|
        invariant traces == AllTraces(base, ds[..i]) && state == AllState(base, ds[..i])
        invariant governance == AllGovernance(base, ds[..i])
        invariant confidence == AllConfidence(base, ds[..i])
        invariant stability == AllStability(base, ds[..i])
      {
        var d := ds[i];
        assert ds[..i + 1][..i] == ds[..i];
        traces := traces + d.newTraces;
        governance := governance + d.newGovernance;
        confidence := confidence + d.newConfidence;
        stability := stability + d.newStability;
        assert d.state == map[] ==> state + d.state == state;
        if d.state != map[] {
          state := state + d.state;
        }
      }
      assert ds[..|ds|] == ds;
      var final := ds[|ds| - 1];
      r := Snapshot(base.id, final.createdAt, state, |traces|, traces, governance, confidence, stability,
                    base.gradient, final.queueDepth, final.processed, final.cycle, base.schema);
    }

    /** Loading finds the current content; the chain never has a gap. */
    method LoadLatest() returns (r: Loaded)
      requires Valid()
      ensures r == if bases == [] then Nothing else Restored(Current())
    {
      if bases == [] {
        return Nothing;
      }
      var base := bases[|bases| - 1];
      if base.id !in files || files[base.id] == None {
        return Nothing;
      }
      var ds := Chain();
      if ds == [] {
        return Restored(files[base.id].value);
      }
      NumberedIsSorted(ds);
      r := ApplyDeltas(files[base.id].value, ds);
    }

    method VerifyDeltaChain() returns (ok: bool)
      requires Valid()
      ensures ok
    {
      var ids := deltas.Keys;
      while ids != {}
        invariant ids <= deltas.Keys
        decreases ids
      {
        var id :| id in ids;
        ids := ids - {id};
        NumberedIsSorted(deltas[id]);
        var gapless := IsGapless(StableSort(deltas[id], ByNumber));
        if !gapless {
          return false;
        }
      }
      return true;
    }

    method Clear()
      requires Valid()
      modifies this
      ensures Valid() && UpToDate() && last == None && bases == [] && deltas == map[] && enabled == old(enabled)
      ensures lastSavedTraceCount == old(lastSavedTraceCount) && files.Keys <= old(files).Keys
    {
      var i := 0;
      while i < |bases|
        invariant bases == old(bases) && enabled == old(enabled) && lastSavedTraceCount == old(lastSavedTraceCount)
        invariant files.Keys <= old(files).Keys
      {
        if * {
          files := files - {bases[i].id};
        }
        i := i + 1;
      }
      bases, deltas, last := [], map[], None;
    }

    /** A new process reads bases and deltas back, but starts to count saved traces from nothing. */
    method Reopen()
      requires Valid()
      modifies `lastSavedTraceCount
      ensures Valid() && lastSavedTraceCount == 0 && (bases != [] ==> Current() == old(Current()))
    {
      lastSavedTraceCount := 0;
    }
  }

  lemma {:induction false} SortKeepsSize(ds: seq<Delta>)
    ensures |StableSort(ds, ByNumber)| == |ds|
  {
    assert |multiset(StableSort(ds, ByNumber))| == |multiset(ds)|;
  }

  lemma {:induction false} NumberedIsSorted(ds: seq<Delta>)
    requires Sequential(ds)
    ensures StableSort(ds, ByNumber) == ds
  {
    SortedIsFixed(ds, ByNumber);
  }
}
