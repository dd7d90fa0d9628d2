/**
 The bounded trace window: the newest traces stay active, older ones move to archived segments, and
 reading the window must be the same as reading the whole list of appended traces.
 */
module TraceWindows {
  import opened Common

  /** What the hash reads of a trace, and the rest of it. */
  datatype Trace = Trace(event: string, status: string, risk: string, rest: string)

  datatype Segment = Segment(startCycle: nat, endCycle: nat, count: nat, traces: seq<Trace>, hash: string)

  const SEGMENT_SIZE := 1000

  function Encoding(t: Trace): string {
    t.event + "|" + t.status + "|" + t.risk
  }

  function Encodings(ts: seq<Trace>): string {
    if ts == [] then [] else Encodings(ts[..|ts| - 1]) + Encoding(ts[|ts| - 1])
  }

  /** The rolling digest: each step hashes the digest so far together with the next trace. */
  function Rolling(digest: string -> string, ts: seq<Trace>): string {
    if ts == [] then "" else digest(Rolling(digest, ts[..|ts| - 1]) + Encoding(ts[|ts| - 1]))
  }

  lemma {:induction false} RollingGrows(digest: string -> string, ts: seq<Trace>, t: Trace)
    ensures Rolling(digest, ts + [t]) == digest(Rolling(digest, ts) + Encoding(t))
  {
    assert (ts + [t])[..|ts|] == ts;
  }

  ghost function Archive(segments: seq<Segment>): seq<Trace> {
    if segments == [] then [] else Archive(segments[..|segments| - 1]) + segments[|segments| - 1].traces
  }

  /** Indexing a list by a possibly negative position; None is the index error. */
  function ListIndex<T>(s: seq<T>, k: int): Option<T> {
    if 0 <= k < |s| then Some(s[k]) else if -|s| <= k < 0 then Some(s[|s| + k]) else None
  }

  /** A negative position counted from the end. */
  function FromEnd(n: nat, k: int): nat {
    if k >= 0 then k else if n + k < 0 then 0 else n + k
  }

  /** The elements between two positions, each cut off at the end. */
  function Between<T>(s: seq<T>, i: nat, j: nat): seq<T> {
    var a, b := if i < |s| then i else |s|, if j < |s| then j else |s|;
    if a <= b then s[a..b] else []
  }

  /** A slice with unit step of a list; an absent bound is None. */
  function ListSlice<T>(s: seq<T>, start: Option<int>, stop: Option<int>): seq<T> {
    Between(s, FromEnd(|s|, match start case None => 0 case Some(k) => k),
            FromEnd(|s|, match stop case None => |s| case Some(k) => k))
  }

  /** A position counts from the front, or from the end when it is negative; beyond both ends there is nothing. */
  lemma {:induction false} IndexesAre<T>(s: seq<T>, k: int)
    requires 0 <= k
    ensures k < |s| ==> ListIndex(s, k) == Some(s[k]) && ListIndex(s, k - |s|) == Some(s[k])
    ensures k >= |s| ==> ListIndex(s, k) == None && ListIndex(s, -k - 1) == None
  {
  }

  lemma {:induction false} BetweenIs<T>(s: seq<T>, i: nat, j: nat)
    requires i <= j <= |s|
    ensures Between(s, i, j) == s[i..j]
  {
  }

  /** Bounds count in the same way, and an absent bound means the end on its side. */
  lemma {:induction false} SlicesAre<T>(s: seq<T>, i: int, j: int)
    requires 0 <= i <= j <= |s|
    ensures ListSlice(s, Some(i), Some(j)) == s[i..j] && ListSlice(s, None, None) == s
    ensures ListSlice(s, None, Some(j)) == s[..j] && ListSlice(s, Some(i), None) == s[i..]
  {
    BetweenIs(s, i, j);
    BetweenIs(s, 0, j);
    BetweenIs(s, i, |s|);
    BetweenIs(s, 0, |s|);
  }

  lemma {:induction false} SlicesFromEnd<T>(s: seq<T>, i: int, j: int)
    requires 0 <= i <= j <= |s|
    ensures i < |s| ==> ListSlice(s, Some(i - |s|), Some(j)) == s[i..j]
    ensures j < |s| ==> ListSlice(s, Some(i), Some(j - |s|)) == s[i..j]
  {
    BetweenIs(s, i, j);
  }

  /** A bound beyond an end means that end, and nothing lies between bounds in the wrong order. */
  lemma {:induction false} SlicesBeyond<T>(s: seq<T>, i: int, j: int, k: int)
    requires 0 <= i <= j <= |s| && 0 <= k
    ensures ListSlice(s, Some(i), Some(|s| + k)) == s[i..] && ListSlice(s, Some(-|s| - 1 - k), Some(j)) == s[..j]
    ensures ListSlice(s, Some(|s| + k), Some(j)) == [] && ListSlice(s, Some(i), Some(-|s| - 1 - k)) == []
    ensures i < j ==> ListSlice(s, Some(j), Some(i)) == []
  {
    BetweenIs(s, 0, j);
    BetweenIs(s, i, |s|);
  }

  class TraceWindow {
    const maxActive: nat
    const maxArchived: nat
    const digest: string -> string
    var active: seq<Trace>
    var archived: seq<Segment>
    var totalCount: nat
    var archivedTotal: nat
    var integrityHash: string
    ghost var history: seq<Trace>

    /** All the window holds is the history, split in front of the last maxActive traces. */
    ghost predicate Placed()
      reads this
    {
      && 1 <= maxActive && 1 <= maxArchived
      && |active| <= maxActive
      && (|active| < maxActive ==> archivedTotal == 0)
      && archivedTotal == |history| - |active|
      && active == history[archivedTotal..]
      && (archivedTotal == 0 ==> archived == [])
      && (archivedTotal > 0 ==>
            |archived| == 1 && archived[0].count == archivedTotal && archived[0].traces == history[..archivedTotal])
    }

    ghost predicate Valid()
      reads this
    {
      Placed() && totalCount == |history| && integrityHash == Rolling(digest, history)
    }

    constructor (maxActive: nat, maxArchived: nat, digest: string -> string)
      requires 1 <= maxActive && 1 <= maxArchived
      ensures Valid() && history == []
      ensures this.maxActive == maxActive && this.maxArchived == maxArchived && this.digest == digest
    {
      this.maxActive, this.maxArchived, this.digest := maxActive, maxArchived, digest;
      active, archived, totalCount, archivedTotal, integrityHash, history := [], [], 0, 0, "", [];
    }

    method BuildSegment(t: Trace) returns (idx: nat)
      modifies `archived
      ensures idx < |archived| && idx == |archived| - 1
      ensures old(archived) == [] ==> archived == [Segment(archivedTotal, archivedTotal, 1, [t], "")]
      ensures old(archived) != [] ==>
        var last := old(archived)[|old(archived)| - 1];
        archived == old(archived)[|old(archived)| - 1 := last.(count := last.count + 1, traces := last.traces + [t])]
    {
      if archived == [] {
        archived := [Segment(archivedTotal, archivedTotal, 1, [t], "")];
        return 0;
      }
      idx := |archived| - 1;
      var last := archived[idx];
      archived := archived[idx := last.(count := last.count + 1, traces := last.traces + [t])];
    }

    method FinalizeSegment(idx: nat)
      requires idx < |archived|
      modifies `archived
      ensures |archived| == |old(archived)| && archived[..idx] == old(archived)[..idx]
      ensures archived[idx] == (if old(archived)[idx].count < 1000 then old(archived)[idx]
                                else old(archived)[idx].(hash := digest(Encodings(old(archived)[idx].traces))))
      ensures archived[idx + 1..] == old(archived)[idx + 1..]
    {
      var seg := archived[idx];
      if seg.count < SEGMENT_SIZE {
        return;
      }
      archived := archived[idx := seg.(hash := digest(Encodings(seg.traces)))];
    }

    /** One place is free, and no trace was archived that need not be. */
    ghost predicate HasRoom()
      reads this
    {
      && 1 <= maxActive && 1 <= maxArchived
      && |active| < maxActive && (|active| < maxActive - 1 ==> archivedTotal == 0)
      && archivedTotal == |history| - |active| && active == history[archivedTotal..]
      && (archivedTotal == 0 ==> archived == [])
      && (archivedTotal > 0 ==>
            |archived| == 1 && archived[0].count == archivedTotal && archived[0].traces == history[..archivedTotal])
    }

    method PushActive(t: Trace)
      requires HasRoom()
      modifies `active, `history
      ensures Placed() && history == old(history) + [t]
    {
      active, history := active + [t], history + [t];
      assert history[..archivedTotal] == old(history)[..archivedTotal];
    }

    /** Old traces move to the archive until there is room for one more. */
    method MakeRoom()
      requires Placed()
      modifies `active, `archived, `archivedTotal
      ensures HasRoom()
    {
      while |active| >= maxActive
        invariant |active| <= maxActive && (|active| < maxActive - 1 ==> archivedTotal == 0)
        invariant archivedTotal == |history| - |active| && active == history[archivedTotal..]
        invariant archivedTotal == 0 ==> archived == []
        invariant archivedTotal > 0 ==>
          |archived| == 1 && archived[0].count == archivedTotal && archived[0].traces == history[..archivedTotal]
        decreases |active|
      {
        var oldest := active[0];
        active := active[1..];
        var idx := BuildSegment(oldest);
        FinalizeSegment(idx);
        archivedTotal := archivedTotal + 1;
        assert history[..archivedTotal] == history[..archivedTotal - 1] + [oldest];
      }
    }

    method PruneArchived()
      modifies `archived
      ensures |archived| <= maxArchived && |archived| <= |old(archived)|
      ensures archived == old(archived)[|old(archived)| - |archived|..]
      ensures |old(archived)| <= maxArchived ==> archived == old(archived)
    {
      while |archived| > maxArchived
        invariant |archived| <= |old(archived)| && archived == old(archived)[|old(archived)| - |archived|..]
        invariant |old(archived)| <= maxArchived ==> archived == old(archived)
      {
        archived := archived[1..];
      }
    }

    /** Nothing is ever lost: the one archived segment grows, so pruning never removes it. */
    method Append(t: Trace)
      requires Valid()
      modifies this
      ensures Valid() && history == old(history) + [t]
    {
      totalCount := totalCount + 1;
      MakeRoom();
      PushActive(t);
      RollingGrows(digest, old(history), t);
      integrityHash := digest(integrityHash + Encoding(t));
      PruneArchived();
    }

    method AllTraces() returns (ts: seq<Trace>)
      requires Valid()
      ensures ts == history
    {
      ts := [];
      for i := 0 to |archived|
        invariant ts == Archive(archived[..i])
      {
        assert archived[..i + 1][..i] == archived[..i];
        ts := ts + archived[i].traces;
      }
      assert archived[..|archived|] == archived;
      assert archivedTotal > 0 ==> archived[..0] == [] && Archive(archived) == archived[0].traces;
      ts := ts + active;
    }

    /** Indexing agrees with the list, except that a negative position may wrap around twice. */
    method GetItem(key: int) returns (r: Option<Trace>)
      requires Valid()
      ensures r == ListIndex(history, key) <==> !(-2 * |history| <= key < -|history|)
      ensures -2 * |history| <= key < -|history| ==> r == Some(history[2 * |history| + key])
    {
      var k := if key < 0 then totalCount + key else key;
      if k < archivedTotal {
        var all := AllTraces();
        return ListIndex(all, k);
      }
      return ListIndex(active, k - archivedTotal);
    }

    /** The part of the active traces between two positions of the history. */
    method SliceActive(i: nat, j: nat, activeStart: nat) returns (r: seq<Trace>)
      requires Valid() && activeStart == |history| - |active| <= i
      ensures r == Between(history, i, j)
    {
      var offset := i - activeStart;
      var end := if offset + (j - i) < |active| then offset + (j - i) else |active|;
      SliceOfEnd(history, activeStart, i, j);
      return if offset <= end then active[offset..end] else [];
    }

    method GetSlice(start: Option<int>, stop: Option<int>) returns (r: seq<Trace>)
      requires Valid()
      ensures r == ListSlice(history, start, stop)
    {
      var i := match start case None => 0 case Some(k) => k;
      var j := match stop case None => totalCount case Some(k) => k;
      if i < 0 {
        i := if totalCount + i < 0 then 0 else totalCount + i;
      }
      if j < 0 {
        j := if totalCount + j < 0 then 0 else totalCount + j;
      }
      var activeStart := if totalCount - |active| < 0 then 0 else totalCount - |active|;
      if i >= activeStart {
        r := SliceActive(i, j, activeStart);
        return;
      }
      var all := AllTraces();
      return ListSlice(all, start, stop);
    }

    /**
     The stored digest is chained, this check hashes everything flat: it passes for a window of one trace, and
     otherwise only by a collision.
     */
    method VerifyIntegrity() returns (ok: bool)
      requires Valid()
      ensures ok <==> digest(Encodings(history)) == integrityHash
      ensures IsHex(digest) ==>
        (ok <==> |history| == 1
                 || (history != [] && Collide(digest, Encodings(history), LastHashed(digest, history))))
    {
      var all := AllTraces();
      if IsHex(digest) {
        FlatHashIsStoredIff(digest, history);
      }
      return digest(Encodings(all)) == integrityHash;
    }
  }

  /** A slice that starts in the last part of a sequence, taken from that part. */
  lemma {:induction false} SliceOfEnd<T>(s: seq<T>, n: nat, i: nat, j: nat)
    requires n <= |s| && n <= i
    ensures var offset, part := i - n, s[n..];
      var end := if offset + (j - i) < |part| then offset + (j - i) else |part|;
      Between(s, i, j) == if offset <= end then part[offset..end] else []
  {
    if i <= j && i < |s| {
      var b := if j < |s| then j else |s|;
      assert s[n..][i - n..b - n] == s[i..b];
    }
  }

  /** The same history gives the same traces and the same digest, whatever the capacities. */
  lemma {:induction false} CapacityIndependent(a: TraceWindow, b: TraceWindow)
    requires a.Valid() && b.Valid() && a.history == b.history && a.digest == b.digest
    ensures a.integrityHash == b.integrityHash && a.totalCount == b.totalCount
    ensures Archive(a.archived) + a.active == Archive(b.archived) + b.active
    ensures a.maxActive <= b.maxActive ==> |a.active| <= |b.active| && a.active == b.active[|b.active| - |a.active|..]
  {
    ArchiveIsPast(a);
    ArchiveIsPast(b);
  }

  lemma {:induction false} ArchiveIsPast(w: TraceWindow)
    requires w.Valid()
    ensures Archive(w.archived) + w.active == w.history
    ensures |w.active| == if |w.history| < w.maxActive then |w.history| else w.maxActive
  {
    if w.archivedTotal > 0 {
      assert w.archived[..0] == [];
      assert Archive(w.archived) == [] + w.archived[0].traces;
    }
  }

  /** What a hexadecimal digest looks like: some text without bars. */
  ghost predicate IsHex(digest: string -> string) {
    forall s :: digest(s) != "" && '|' !in digest(s)
  }

  /** The text that the last rolling step hashes. */
  function LastHashed(digest: string -> string, ts: seq<Trace>): string
    requires ts != []
  {
    Rolling(digest, ts[..|ts| - 1]) + Encoding(ts[|ts| - 1])
  }

  ghost predicate Collide(digest: string -> string, a: string, b: string) {
    a != b && digest(a) == digest(b)
  }

  /** With more than one trace the flat check hashes another text than the last rolling step. */
  lemma {:induction false} FlatTextDiffers(digest: string -> string, ts: seq<Trace>)
    requires IsHex(digest) && ts != []
    ensures Encodings(ts) == LastHashed(digest, ts) <==> |ts| == 1
  {
    var n := |ts| - 1;
    var flat, rolled, end := Encodings(ts[..n]), Rolling(digest, ts[..n]), Encoding(ts[n]);
    if n > 0 {
      BarInEncodings(ts[..n]);
      if flat + end == rolled + end {
        SameEndCancels(flat, rolled, end);
      }
    }
  }

  /** The flat hash is the stored one for a single trace, and otherwise only if two different texts collide; the
      stored hash of an empty window is no digest at all. */
  lemma {:induction false} FlatHashIsStoredIff(digest: string -> string, ts: seq<Trace>)
    requires IsHex(digest)
    ensures digest(Encodings(ts)) == Rolling(digest, ts)
      <==> |ts| == 1 || (ts != [] && Collide(digest, Encodings(ts), LastHashed(digest, ts)))
  {
    if ts != [] {
      FlatTextDiffers(digest, ts);
    }
  }

  lemma {:induction false} SameEndCancels(a: string, b: string, end: string)
    requires a + end == b + end
    ensures a == b
  {
    assert |a + end| == |b + end|;
    assert a == (a + end)[..|a|] && b == (b + end)[..|b|];
  }

  lemma {:induction false} BarInEncodings(ts: seq<Trace>)
    requires ts != []
    ensures '|' in Encodings(ts)
  {
    var last := ts[|ts| - 1];
    assert Encoding(last)[|last.event|] == '|';
  }

  // What the stored hash tells about the history

  /** The two traces agree on all that is hashed. */
  ghost predicate SameHashed(s: Trace, t: Trace) {
    s.event == t.event && s.status == t.status && s.risk == t.risk
  }

  ghost predicate AllSame(a: seq<Trace>, b: seq<Trace>) {
    |a| == |b| && forall i :: 0 <= i < |a| ==> SameHashed(a[i], b[i])
  }

  ghost predicate NoBars(ts: seq<Trace>) {
    forall t :: t in ts ==> '|' !in t.event && '|' !in t.status
  }

  lemma {:induction false} EncodedAs(t: Trace)
    ensures t.event == "e-1" && t.status == "SUCCESS" && t.risk == "0.5" ==> Encoding(t) == "e-1|SUCCESS|0.5"
  {
  }

  lemma {:induction false} BarSplits(a: string, x: string, b: string, y: string)
    requires a + ['|'] + x == b + ['|'] + y && '|' !in a && '|' !in b
    ensures a == b && x == y
  {
    var s, t := a + ['|'] + x, b + ['|'] + y;
    assert s[|a|] == '|' && t[|b|] == '|';
    assert forall i :: 0 <= i < |a| ==> s[i] == a[i];
    assert forall i :: 0 <= i < |b| ==> t[i] == b[i];
    assert |a| == |b|;
    assert a == s[..|a|] && b == t[..|b|];
    assert x == s[|a| + 1..] && y == t[|b| + 1..];
  }

  lemma {:induction false} EncodingTells(s: Trace, t: Trace)
    requires '|' !in s.event && '|' !in s.status && '|' !in t.event && '|' !in t.status
    ensures Encoding(s) == Encoding(t) <==> SameHashed(s, t)
  {
    if Encoding(s) == Encoding(t) {
      assert Encoding(s) == s.event + ['|'] + (s.status + ['|'] + s.risk);
      assert Encoding(t) == t.event + ['|'] + (t.status + ['|'] + t.risk);
      BarSplits(s.event, s.status + ['|'] + s.risk, t.event, t.status + ['|'] + t.risk);
      BarSplits(s.status, s.risk, t.status, t.risk);
    }
  }

  lemma {:induction false} SameStart(a: string, x: string, b: string, y: string)
    requires a + x == b + y && |a| == |b|
    ensures a == b && x == y
  {
    assert a == (a + x)[..|a|] && b == (b + y)[..|b|];
    assert x == (a + x)[|a|..] && y == (b + y)[|b|..];
  }

  lemma {:induction false} RollingLength(digest: string -> string, a: seq<Trace>, b: seq<Trace>, length: nat)
    requires |a| == |b| && forall s :: |digest(s)| == length
    ensures |Rolling(digest, a)| == |Rolling(digest, b)|
  {
  }

  /**
   Two histories of equal length with the same hash agree trace by trace on event, status and risk, unless two
   different texts have the same digest; and agreeing histories always have the same hash.
   */
  lemma {:induction false} HashTellsHistory(digest: string -> string, a: seq<Trace>, b: seq<Trace>, length: nat)
    requires |a| == |b| && NoBars(a) && NoBars(b) && forall s :: |digest(s)| == length
    ensures Rolling(digest, a) == Rolling(digest, b) ==> AllSame(a, b) || exists x, y :: Collide(digest, x, y)
    ensures AllSame(a, b) ==> Rolling(digest, a) == Rolling(digest, b)
  {
    if a != [] {
      var n := |a| - 1;
      HashTellsHistory(digest, a[..n], b[..n], length);
      EncodingTells(a[n], b[n]);
      RollingLength(digest, a[..n], b[..n], length);
      var s, t := LastHashed(digest, a), LastHashed(digest, b);
      if Rolling(digest, a) == Rolling(digest, b) {
        if s != t {
          assert Collide(digest, s, t);
        } else {
          SameStart(Rolling(digest, a[..n]), Encoding(a[n]), Rolling(digest, b[..n]), Encoding(b[n]));
          LastTraces(a, b);
        }
      }
    }
  }

  lemma {:induction false} LastTraces(a: seq<Trace>, b: seq<Trace>)
    requires |a| == |b| != 0 && SameHashed(a[|a| - 1], b[|b| - 1])
    ensures AllSame(a[..|a| - 1], b[..|b| - 1]) ==> AllSame(a, b)
  {
    var n := |a| - 1;
    assert forall i :: 0 <= i < n ==> a[..n][i] == a[i] && b[..n][i] == b[i];
  }
}
