/** What a bounded dictionary holds after any run of upserts: the latest insertions, with everything seen since. */
module StoreHistory {
  import opened OrderedDict
  import opened IntelligenceStores

  datatype Upsert<V> = Upsert(key: Key, value: V)

  function Run<V>(ops: seq<Upsert<V>>, max: nat, merge: (V, V) -> V): Dict<Key, V> {
    if ops == [] then Dict([], map[])
    else
      var n := |ops| - 1;
      Upserted(Run(ops[..n], max, merge), ops[n].key, ops[n].value, max, merge)
  }

  lemma {:induction false} RunIsValid<V>(ops: seq<Upsert<V>>, max: nat, merge: (V, V) -> V)
    ensures Run(ops, max, merge).Valid()
  {
    if ops != [] {
      var n := |ops| - 1;
      RunIsValid(ops[..n], max, merge);
      var d := Run(ops[..n], max, merge);
      if ops[n].key in d.values {
        d.PutIsValid(ops[n].key, merge(d.values[ops[n].key], ops[n].value));
      } else {
        EvictedIsValid(d);
        d.PutIsValid(ops[n].key, ops[n].value);
        Evicted(d).PutIsValid(ops[n].key, ops[n].value);
      }
    }
  }

  /** The upsert in place i found its key absent. */
  ghost predicate InsertsAt<V>(ops: seq<Upsert<V>>, i: nat, max: nat, merge: (V, V) -> V)
    requires i < |ops|
  {
    ops[i].key !in Run(ops[..i], max, merge).values
  }

  /** The keys in the order in which they were inserted, again after each eviction. */
  ghost function Insertions<V>(ops: seq<Upsert<V>>, max: nat, merge: (V, V) -> V): seq<Key> {
    if ops == [] then []
    else
      var n := |ops| - 1;
      Insertions(ops[..n], max, merge) + if InsertsAt(ops, n, max, merge) then [ops[n].key] else []
  }

  ghost predicate NoBlankKey<V>(ops: seq<Upsert<V>>) {
    forall i :: 0 <= i < |ops| ==> ops[i].key.text != ""
  }

  /** A store always has room for the newest entry. */
  function Limit(max: nat): nat {
    if max == 0 then 1 else max
  }

  function Last<T>(s: seq<T>, n: nat): seq<T> {
    if |s| <= n then s else s[|s| - n..]
  }

  lemma {:induction false} LastOfLonger<T>(s: seq<T>, x: T, n: nat)
    requires 1 <= n
    ensures Last(s + [x], n) == (if |Last(s, n)| >= n then Last(s, n)[1..] else Last(s, n)) + [x]
  {
  }

  /** A new key goes to the end, and the first one leaves a full store. */
  lemma {:induction false} UpsertedKeys<V>(d: Dict<Key, V>, k: Key, v: V, max: nat, merge: (V, V) -> V)
    requires d.keys != [] ==> d.keys[0].text != ""
    ensures Upserted(d, k, v, max, merge).keys
      == if k in d.values then d.keys else (if |d.keys| >= Limit(max) then d.keys[1..] else d.keys) + [k]
  {
    if d.keys != [] {
      d.DeleteFirst();
    }
  }

  /** The store is a plain queue: its keys are the latest insertions, so the oldest insertion left first. */
  lemma {:induction false} KeysAreLatestInsertions<V>(ops: seq<Upsert<V>>, max: nat, merge: (V, V) -> V)
    requires NoBlankKey(ops)
    ensures Run(ops, max, merge).keys == Last(Insertions(ops, max, merge), Limit(max))
    ensures forall k :: k in Insertions(ops, max, merge) ==> k.text != ""
  {
    if ops != [] {
      var n := |ops| - 1;
      KeysAreLatestInsertions(ops[..n], max, merge);
      var d := Run(ops[..n], max, merge);
      var before := Insertions(ops[..n], max, merge);
      assert d.keys != [] ==> d.keys[0] in before;
      UpsertedKeys(d, ops[n].key, ops[n].value, max, merge);
      LastOfLonger(before, ops[n].key, Limit(max));
      assert before + [] == before;
    }
  }

  lemma {:induction false} SizeIsBounded<V>(ops: seq<Upsert<V>>, max: nat, merge: (V, V) -> V)
    requires NoBlankKey(ops)
    ensures |Run(ops, max, merge).keys| <= Limit(max)
  {
    KeysAreLatestInsertions(ops, max, merge);
  }

  /** One upsert exceeds the limit exactly when a new key meets a full store whose oldest key is blank. */
  lemma {:induction false} ExceedsLimitIff<V>(d: Dict<Key, V>, k: Key, v: V, max: nat, merge: (V, V) -> V)
    requires d.Valid() && 1 <= max && |d.keys| <= max
    ensures |Upserted(d, k, v, max, merge).keys| > max
      <==> k !in d.values && |d.keys| == max && d.keys[0].text == ""
  {
    if k !in d.values && |d.keys| == max && d.keys[0].text != "" {
      d.DeleteFirst();
    }
  }

  /** A blank oldest key is never chosen, so a store of one entry comes to hold three. */
  lemma {:induction false} BlankKeyDefeatsLimit<V>(v: V, merge: (V, V) -> V)
    ensures Run([Upsert(Key(""), v), Upsert(Key("a"), v), Upsert(Key("b"), v)], 1, merge).keys
      == [Key(""), Key("a"), Key("b")]
  {
    var ops := [Upsert(Key(""), v), Upsert(Key("a"), v), Upsert(Key("b"), v)];
    assert ops[..2][..1] == ops[..1] && ops[..1][..0] == [];
    assert Run(ops[..1], 1, merge).keys == [Key("")];
    assert Run(ops[..2], 1, merge).keys == [Key(""), Key("a")];
  }

  /** The upserts of one key, merged into the entry it was inserted with. */
  ghost function Folded<V>(v: V, k: Key, ops: seq<Upsert<V>>, merge: (V, V) -> V): V {
    if ops == [] then v
    else
      var n := |ops| - 1;
      var before := Folded(v, k, ops[..n], merge);
      if ops[n].key == k then merge(before, ops[n].value) else before
  }

  lemma {:induction false} UpsertMergesOrKeeps<V>(d: Dict<Key, V>, k: Key, v: V, max: nat, merge: (V, V) -> V,
                                                  other: Key)
    requires other in d.values && other in Upserted(d, k, v, max, merge).values
    ensures Upserted(d, k, v, max, merge).values[other]
      == if k == other then merge(d.values[other], v) else d.values[other]
  {
  }

  /** Key k was inserted by upsert i and has been present ever since. */
  ghost predicate PresentSince<V>(ops: seq<Upsert<V>>, i: nat, k: Key, max: nat, merge: (V, V) -> V) {
    && i < |ops| && ops[i].key == k && InsertsAt(ops, i, max, merge)
    && forall j :: i < j <= |ops| ==> k in Run(ops[..j], max, merge).values
  }

  lemma {:induction false} StillPresent<V>(ops: seq<Upsert<V>>, i: nat, k: Key, max: nat, merge: (V, V) -> V)
    requires ops != [] && PresentSince(ops[..|ops| - 1], i, k, max, merge) && k in Run(ops, max, merge).values
    ensures PresentSince(ops, i, k, max, merge)
  {
    var n := |ops| - 1;
    assert ops[..|ops|] == ops;
    assert ops[..n][..i] == ops[..i];
    forall j | i < j <= |ops|
      ensures k in Run(ops[..j], max, merge).values
    {
      if j <= n {
        assert ops[..n][..j] == ops[..j];
      }
    }
  }

  /** A present entry is the one of its latest insertion, with all later upserts of its key merged into it. */
  lemma {:induction false} EntryIsFolded<V>(ops: seq<Upsert<V>>, k: Key, max: nat, merge: (V, V) -> V) returns (i: nat)
    requires k in Run(ops, max, merge).values
    ensures PresentSince(ops, i, k, max, merge)
    ensures Run(ops, max, merge).values[k] == Folded(ops[i].value, k, ops[i + 1..], merge)
  {
    var n := |ops| - 1;
    var d := Run(ops[..n], max, merge);
    if k !in d.values {
      i := n;
      assert ops[..|ops|] == ops;
    } else {
      i := EntryIsFolded(ops[..n], k, max, merge);
      StillPresent(ops, i, k, max, merge);
      UpsertMergesOrKeeps(d, ops[n].key, ops[n].value, max, merge, k);
      assert ops[i + 1..][..n - i - 1] == ops[..n][i + 1..];
    }
  }

  ghost function Occurrences<V>(ops: seq<Upsert<V>>, k: Key): nat {
    if ops == [] then 0 else Occurrences(ops[..|ops| - 1], k) + if ops[|ops| - 1].key == k then 1 else 0
  }

  lemma {:induction false} FoldedPattern(p: Pattern, k: Key, ops: seq<Upsert<Pattern>>)
    ensures Folded(p, k, ops, MergePattern) == p.(frequency := p.frequency + Occurrences(ops, k))
  {
    if ops != [] {
      FoldedPattern(p, k, ops[..|ops| - 1]);
    }
  }

  /** A pattern is the one that was inserted, and its frequency counts the upserts since then. */
  lemma {:induction false} FrequencyCountsUpserts(ops: seq<Upsert<Pattern>>, k: Key, max: nat) returns (i: nat)
    requires k in Run(ops, max, MergePattern).values
    ensures PresentSince(ops, i, k, max, MergePattern)
    ensures Run(ops, max, MergePattern).values[k]
      == ops[i].value.(frequency := ops[i].value.frequency + Occurrences(ops[i + 1..], k))
  {
    i := EntryIsFolded(ops, k, max, MergePattern);
    FoldedPattern(ops[i].value, k, ops[i + 1..]);
  }

  /** What the upserts of a key add to one level; an upsert that does not mention the level adds nothing. */
  ghost function TotalSeverity(ops: seq<Upsert<Failure>>, k: Key, level: string): int {
    if ops == [] then 0
    else
      var last := ops[|ops| - 1];
      TotalSeverity(ops[..|ops| - 1], k, level)
      + if last.key == k && level in last.value.severity then last.value.severity[level] else 0
  }

  ghost predicate Mentions(ops: seq<Upsert<Failure>>, k: Key, level: string) {
    exists i :: 0 <= i < |ops| && ops[i].key == k && level in ops[i].value.severity
  }

  lemma {:induction false} FoldedFailure(f: Failure, k: Key, ops: seq<Upsert<Failure>>, level: string)
    ensures var g := Folded(f, k, ops, MergeFailure);
      && (level in g.severity <==> level in f.severity || Mentions(ops, k, level))
      && (level in g.severity ==>
            g.severity[level] == (if level in f.severity then f.severity[level] else 0) + TotalSeverity(ops, k, level))
      && g.frequency == f.frequency + Occurrences(ops, k)
      && g.triggers == f.triggers && g.signature == f.signature
  {
    if ops != [] {
      FoldedFailure(f, k, ops[..|ops| - 1], level);
      MentionsGrow(ops, k, level);
      NotMentioned(ops[..|ops| - 1], k, level);
    }
  }

  lemma {:induction false} MentionsGrow(ops: seq<Upsert<Failure>>, k: Key, level: string)
    requires ops != []
    ensures Mentions(ops, k, level) <==>
      || Mentions(ops[..|ops| - 1], k, level)
      || (ops[|ops| - 1].key == k && level in ops[|ops| - 1].value.severity)
  {
    var before := ops[..|ops| - 1];
    assert forall i :: 0 <= i < |before| ==> before[i] == ops[i];
  }

  lemma {:induction false} NotMentioned(ops: seq<Upsert<Failure>>, k: Key, level: string)
    ensures !Mentions(ops, k, level) ==> TotalSeverity(ops, k, level) == 0
  {
    if ops != [] {
      MentionsGrow(ops, k, level);
      NotMentioned(ops[..|ops| - 1], k, level);
    }
  }

  /** A failure has the levels that any upsert since its insertion mentioned, each summed over all of them. */
  lemma {:induction false} SeverityIsSummed(ops: seq<Upsert<Failure>>, k: Key, max: nat, level: string)
    returns (i: nat)
    requires k in Run(ops, max, MergeFailure).values
    ensures PresentSince(ops, i, k, max, MergeFailure)
    ensures var f, first, later := Run(ops, max, MergeFailure).values[k], ops[i].value, ops[i + 1..];
      && (level in f.severity <==> level in first.severity || Mentions(later, k, level))
      && (level in f.severity ==>
            f.severity[level]
            == (if level in first.severity then first.severity[level] else 0) + TotalSeverity(later, k, level))
      && f.frequency == first.frequency + Occurrences(later, k)
      && f.triggers == first.triggers && f.signature == first.signature
  {
    i := EntryIsFolded(ops, k, max, MergeFailure);
    FoldedFailure(ops[i].value, k, ops[i + 1..], level);
  }

  lemma {:induction false} FoldedFingerprint(f: Fingerprint, k: Key, ops: seq<Upsert<Fingerprint>>)
    ensures Folded(f, k, ops, KeepFingerprint) == f
  {
    if ops != [] {
      FoldedFingerprint(f, k, ops[..|ops| - 1]);
    }
  }

  /** The first fingerprint of a context stays, whatever comes after it. */
  lemma {:induction false} FirstFingerprintStays(ops: seq<Upsert<Fingerprint>>, k: Key, max: nat) returns (i: nat)
    requires k in Run(ops, max, KeepFingerprint).values
    ensures PresentSince(ops, i, k, max, KeepFingerprint)
    ensures Run(ops, max, KeepFingerprint).values[k] == ops[i].value
  {
    i := EntryIsFolded(ops, k, max, KeepFingerprint);
    FoldedFingerprint(ops[i].value, k, ops[i + 1..]);
  }
}
