/**
 Bounded dictionaries with lazy first-in-first-out eviction. The eviction strategy keeps its own list of
 keys, which goes stale whenever a key is evicted.
 */
module IntelligenceStores {
  import opened Common
  import opened OrderedDict

  datatype Key = Key(text: string)

  datatype Pattern = Pattern(id: string, frequency: int, signature: Key, shape: string)

  datatype Failure = Failure(signature: Key, triggers: seq<string>, frequency: int, severity: map<string, int>)

  datatype Fingerprint = Fingerprint(id: string, verdict: string, context: Key, profile: seq<string>)

  /** The strategy's list is the store's key order, with at most one evicted key left in front of it. */
  ghost predicate Coherent(order: seq<Key>, keys: seq<Key>) {
    order == keys || (order != [] && order[1..] == keys && order[0] !in keys)
  }

  class FIFOEviction {
    var order: seq<Key>

    constructor ()
      ensures order == []
    {
      order := [];
    }

    method Rebuild(keys: seq<Key>)
      requires Distinct(keys)
      modifies this
      ensures order == keys
    {
      order := [];
      for i := 0 to |keys|
        invariant order == keys[..i]
      {
        if keys[i] !in order {
          order := order + [keys[i]];
        }
      }
    }

    /** The front of the list if the store still has it, else the oldest key of the store. */
    method SelectForEviction(keys: seq<Key>) returns (victim: Option<Key>)
      requires Distinct(keys)
      modifies this
      ensures victim == if keys == [] then None
                        else if old(order) != [] && old(order)[0] in keys then Some(old(order)[0]) else Some(keys[0])
      ensures order == if keys == [] || (old(order) != [] && old(order)[0] in keys) then old(order) else keys
    {
      if keys == [] {
        return None;
      }
      if order == [] {
        Rebuild(keys);
      }
      var oldest := order[0];
      if oldest in keys {
        return Some(oldest);
      }
      Rebuild(keys);
      oldest := order[0];
      return if oldest in keys then Some(oldest) else None;
    }

    method RecordAccess(k: Key)
      modifies this
      ensures order == if k in old(order) then old(order) else old(order) + [k]
    {
      if k !in order {
        order := order + [k];
      }
    }
  }

  /** The oldest key goes, unless its text is empty: an empty choice reads as none. */
  function Evicted<V>(d: Dict<Key, V>): Dict<Key, V> {
    if d.keys != [] && d.keys[0].text != "" then d.Delete(d.keys[0]) else d
  }

  function Inserted<V>(d: Dict<Key, V>, k: Key, v: V, max: nat): Dict<Key, V> {
    (if |d.keys| >= max then Evicted(d) else d).Put(k, v)
  }

  lemma {:induction false} EvictedIsValid<V>(d: Dict<Key, V>)
    requires d.Valid()
    ensures Evicted(d).Valid()
  {
    if d.keys != [] {
      d.DeleteFirstIsValid();
    }
  }

  /** One of the three dictionaries of the store, with its strategy and its limit. */
  class BoundedDict<V> {
    const max: nat
    const strategy: FIFOEviction
    var entries: Dict<Key, V>

    ghost predicate Valid()
      reads this, strategy
    {
      && entries.Valid()
      && Coherent(strategy.order, entries.keys)
      && (strategy.order != entries.keys ==> |entries.keys| >= max)
    }

    constructor (max: nat)
      ensures Valid() && this.max == max && fresh(strategy) && entries == Dict([], map[])
    {
      this.max := max;
      strategy := new FIFOEviction();
      entries := Dict([], map[]);
    }

    /** A known key gets a new value and keeps its place. */
    method Replace(k: Key, v: V)
      requires Valid() && k in entries.values
      modifies this, strategy
      ensures Valid() && entries == old(entries).Put(k, v)
    {
      entries.PutIsValid(k, v);
      entries := entries.Put(k, v);
      strategy.RecordAccess(k);
    }

    /** Whatever was stale in the strategy's list, the oldest key goes, and only that key is stale now. */
    method MakeRoom(ghost incoming: Key)
      requires Valid() && incoming !in entries.keys
      modifies this`entries, strategy
      ensures entries == Evicted(old(entries)) && entries.Valid()
      ensures Coherent(strategy.order, entries.keys)
      ensures incoming !in strategy.order || (entries.keys == [] && old(entries).keys == [])
    {
      EvictedIsValid(entries);
      var victim := strategy.SelectForEviction(entries.keys);
      if victim.Some? && victim.value.text != "" {
        entries.DeleteFirst();
        entries := entries.Delete(victim.value);
      }
    }

    /** A new key may push out the oldest one. */
    method InsertNew(k: Key, v: V)
      requires Valid() && k !in entries.values
      modifies this, strategy
      ensures Valid() && entries == Inserted(old(entries), k, v, max)
    {
      var full := |entries.keys| >= max;
      if full {
        ghost var before := entries;
        MakeRoom(k);
        EvictedSize(before);
      }
      RecordCoherent(strategy.order, entries.keys, k);
      entries.PutIsValid(k, v);
      entries := entries.Put(k, v);
      strategy.RecordAccess(k);
    }
  }

  lemma {:induction false} EvictedSize<V>(d: Dict<Key, V>)
    ensures |d.keys| <= |Evicted(d).keys| + 1 && forall k :: k !in d.values ==> k !in Evicted(d).values
  {
  }

  lemma {:induction false} RecordCoherent(order: seq<Key>, keys: seq<Key>, k: Key)
    requires Coherent(order, keys) && k !in keys && (k !in order || keys == [])
    ensures Coherent(if k in order then order else order + [k], keys + [k])
  {
  }

  /** An upsert merges into a known key and inserts a new one. */
  function Upserted<V>(d: Dict<Key, V>, k: Key, v: V, max: nat, merge: (V, V) -> V): Dict<Key, V> {
    if k in d.values then d.Put(k, merge(d.values[k], v)) else Inserted(d, k, v, max)
  }

  /** The first pattern stays, and counts the later ones. */
  function MergePattern(known: Pattern, seen: Pattern): Pattern {
    known.(frequency := known.frequency + 1)
  }

  function Severity(m: map<string, int>, level: string): int {
    if level in m then m[level] else 0
  }

  function AddSeverity(a: map<string, int>, b: map<string, int>): map<string, int> {
    map level | level in a.Keys + b.Keys :: Severity(a, level) + Severity(b, level)
  }

  function MergeFailure(known: Failure, seen: Failure): Failure {
    known.(frequency := known.frequency + 1, severity := AddSeverity(known.severity, seen.severity))
  }

  function KeepFingerprint(known: Fingerprint, seen: Fingerprint): Fingerprint {
    known
  }

  method MergeSeverities(known: map<string, int>, seen: map<string, int>) returns (merged: map<string, int>)
    ensures merged == AddSeverity(known, seen)
  {
    merged := known;
    var rest := seen.Keys;
    while rest != {}
      invariant rest <= seen.Keys
      invariant merged.Keys == known.Keys + (seen.Keys - rest)
      invariant forall level :: level in merged ==>
        merged[level] == Severity(known, level) + if level in rest then 0 else Severity(seen, level)
    {
      var level :| level in rest;
      merged := merged[level := Severity(merged, level) + seen[level]];
      rest := rest - {level};
    }
  }

  class IntelligenceStore {
    const patterns: BoundedDict<Pattern>
    const failures: BoundedDict<Failure>
    const fingerprints: BoundedDict<Fingerprint>

    ghost predicate Valid()
      reads patterns, failures, fingerprints, patterns.strategy, failures.strategy, fingerprints.strategy
    {
      && patterns.Valid() && failures.Valid() && fingerprints.Valid()
      && patterns.strategy != failures.strategy
      && patterns.strategy != fingerprints.strategy
      && failures.strategy != fingerprints.strategy
    }

    constructor (maxPatterns: nat := 500, maxFailures: nat := 200, maxFingerprints: nat := 500)
      ensures Valid()
      ensures patterns.max == maxPatterns && failures.max == maxFailures && fingerprints.max == maxFingerprints
      ensures patterns.entries.keys == [] && failures.entries.keys == [] && fingerprints.entries.keys == []
    {
      patterns := new BoundedDict(maxPatterns);
      failures := new BoundedDict(maxFailures);
      fingerprints := new BoundedDict(maxFingerprints);
    }

    method UpsertPattern(pattern: Pattern)
      requires Valid()
      modifies patterns, patterns.strategy
      ensures Valid()
      ensures patterns.entries
        == Upserted(old(patterns.entries), pattern.signature, pattern, patterns.max, MergePattern)
    {
      var known := patterns.entries;
      if pattern.signature in known.values {
        var existing := known.values[pattern.signature];
        patterns.Replace(pattern.signature,
                         Pattern(existing.id, existing.frequency + 1, existing.signature, existing.shape));
      } else {
        patterns.InsertNew(pattern.signature, pattern);
      }
    }

    method UpsertFailure(failure: Failure)
      requires Valid()
      modifies failures, failures.strategy
      ensures Valid()
      ensures failures.entries
        == Upserted(old(failures.entries), failure.signature, failure, failures.max, MergeFailure)
    {
      var known := failures.entries;
      if failure.signature in known.values {
        var existing := known.values[failure.signature];
        var severity := MergeSeverities(existing.severity, failure.severity);
        failures.Replace(failure.signature,
                         Failure(existing.signature, existing.triggers, existing.frequency + 1, severity));
      } else {
        failures.InsertNew(failure.signature, failure);
      }
    }

    method UpsertFingerprint(fingerprint: Fingerprint)
      requires Valid()
      modifies fingerprints, fingerprints.strategy
      ensures Valid()
      ensures fingerprints.entries
        == Upserted(old(fingerprints.entries), fingerprint.context, fingerprint, fingerprints.max, KeepFingerprint)
    {
      if fingerprint.context !in fingerprints.entries.values {
        fingerprints.InsertNew(fingerprint.context, fingerprint);
      } else {
        var known := fingerprints.entries;
        assert known.Put(fingerprint.context, known.values[fingerprint.context]) == known;
      }
    }
  }
}
