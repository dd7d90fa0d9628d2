/** Dictionaries that remember the order in which their keys were inserted. */
module OrderedDict {
  import opened Common

  lemma {:induction false} TailOfDistinct<T>(s: seq<T>)
    requires s != [] && Distinct(s)
    ensures Distinct(s[1..])
    ensures forall x :: x in s[1..] <==> x in s && x != s[0]
  {
    assert s == [s[0]] + s[1..];
  }

  datatype Dict<K(==, !new), V> = Dict(keys: seq<K>, values: map<K, V>) {
    ghost predicate Valid() {
      Distinct(keys) && forall k :: k in keys <==> k in values
    }

    /** A known key keeps its place, a new one goes to the end. */
    function Put(k: K, v: V): Dict<K, V> {
      Dict(if k in values then keys else keys + [k], values[k := v])
    }

    function Delete(k: K): Dict<K, V>
      requires k in keys
    {
      var i := IndexOf(keys, k);
      Dict(keys[..i] + keys[i + 1..], values - {k})
    }

    lemma {:induction false} PutIsValid(k: K, v: V)
      requires Valid()
      ensures Put(k, v).Valid()
    {
    }

    lemma {:induction false} DeleteFirst()
      requires keys != []
      ensures Delete(keys[0]) == Dict(keys[1..], values - {keys[0]})
    {
    }

    lemma {:induction false} DeleteFirstIsValid()
      requires keys != [] && Valid()
      ensures Delete(keys[0]).Valid()
    {
      DeleteFirst();
      TailOfDistinct(keys);
      var rest := Dict(keys[1..], values - {keys[0]});
      forall k
        ensures k in rest.keys <==> k in rest.values
      {
        assert k in keys[1..] <==> k in keys && k != keys[0];
      }
      assert Delete(keys[0]) == rest;
    }
  }
}
