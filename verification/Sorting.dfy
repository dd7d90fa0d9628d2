/** Stable sorting by insertion, for the library sort that the runtime relies on. */
module Sorting {
  import opened Common

  ghost predicate TotalOrder<T(!new)>(le: (T, T) -> bool) {
    && (forall x, y :: le(x, y) || le(y, x))
    && (forall x, y, z :: le(x, y) && le(y, z) ==> le(x, z))
  }

  ghost predicate Sorted<T>(s: seq<T>, le: (T, T) -> bool) {
    forall i, j :: 0 <= i < j < |s| ==> le(s[i], s[j])
  }

  /** Put x behind everything that is not greater. */
  function Insert<T>(s: seq<T>, x: T, le: (T, T) -> bool): (r: seq<T>)
    ensures multiset(r) == multiset(s) + multiset{x}
  {
    if s == [] || le(s[|s| - 1], x) then s + [x]
    else
      assert s == s[..|s| - 1] + [s[|s| - 1]];
      Insert(s[..|s| - 1], x, le) + [s[|s| - 1]]
  }

  function StableSort<T>(s: seq<T>, le: (T, T) -> bool): (r: seq<T>)
    ensures multiset(r) == multiset(s)
  {
    if s == [] then []
    else
      assert s == s[..|s| - 1] + [s[|s| - 1]];
      Insert(StableSort(s[..|s| - 1], le), s[|s| - 1], le)
  }

  lemma {:induction false} SnocSorted<T(!new)>(s: seq<T>, x: T, le: (T, T) -> bool)
    requires Sorted(s, le) && forall y :: y in s ==> le(y, x)
    ensures Sorted(s + [x], le)
  {
  }

  lemma {:induction false} InsertMembers<T>(s: seq<T>, x: T, le: (T, T) -> bool)
    ensures forall y :: y in Insert(s, x, le) <==> y in s || y == x
  {
    assert forall y :: y in Insert(s, x, le) <==> y in multiset(Insert(s, x, le));
  }

  lemma {:induction false} InsertSorted<T(!new)>(s: seq<T>, x: T, le: (T, T) -> bool)
    requires TotalOrder(le) && Sorted(s, le)
    ensures Sorted(Insert(s, x, le), le)
  {
    if s != [] {
      var n := |s| - 1;
      if le(s[n], x) {
        forall y | y in s
          ensures le(y, x)
        {
          var i :| 0 <= i <= n && s[i] == y;
          assert i < n ==> le(s[i], s[n]);
          assert le(y, s[n]) || i == n;
        }
        SnocSorted(s, x, le);
      } else {
        InsertSorted(s[..n], x, le);
        InsertMembers(s[..n], x, le);
        SnocSorted(Insert(s[..n], x, le), s[n], le);
      }
    }
  }

  lemma {:induction false} StableSortSorted<T(!new)>(s: seq<T>, le: (T, T) -> bool)
    requires TotalOrder(le)
    ensures Sorted(StableSort(s, le), le)
  {
    if s != [] {
      StableSortSorted(s[..|s| - 1], le);
      InsertSorted(StableSort(s[..|s| - 1], le), s[|s| - 1], le);
    }
  }

  lemma {:induction false} InsertAtEnd<T>(s: seq<T>, x: T, le: (T, T) -> bool)
    requires s == [] || le(s[|s| - 1], x)
    ensures Insert(s, x, le) == s + [x]
  {
  }

  /** Sorting what is sorted changes nothing, equal elements included. */
  lemma {:induction false} SortedIsFixed<T>(s: seq<T>, le: (T, T) -> bool)
    requires Sorted(s, le)
    ensures StableSort(s, le) == s
  {
    if s != [] {
      var n := |s| - 1;
      SortedIsFixed(s[..n], le);
      assert n > 0 ==> le(s[n - 1], s[n]);
      InsertAtEnd(s[..n], s[n], le);
      WithoutLast(s);
    }
  }

  /** The order does not tell apart what is alike. */
  ghost predicate Indifferent<T(!new)>(le: (T, T) -> bool, alike: T -> bool) {
    forall a, b {:trigger le(a, b)} :: alike(a) && alike(b) ==> le(a, b)
  }

  /** Elements that the order does not tell apart keep their relative places. */
  lemma {:induction false} InsertIsStable<T(!new)>(s: seq<T>, x: T, le: (T, T) -> bool, alike: T -> bool)
    requires Indifferent(le, alike)
    ensures Filter(Insert(s, x, le), alike) == Filter(s + [x], alike)
  {
    var n := |s| - 1;
    if s != [] && !le(s[n], x) {
      InsertIsStable(s[..n], x, le, alike);
      assert s == s[..n] + [s[n]];
      FilterConcatenated(Insert(s[..n], x, le), [s[n]], alike);
      FilterConcatenated(s[..n], [x], alike);
      FilterConcatenated(s[..n], [s[n]], alike);
      FilterConcatenated(s, [x], alike);
    }
  }

  lemma {:induction false} SortIsStable<T(!new)>(s: seq<T>, le: (T, T) -> bool, alike: T -> bool)
    requires Indifferent(le, alike)
    ensures Filter(StableSort(s, le), alike) == Filter(s, alike)
  {
    if s != [] {
      var front, x := s[..|s| - 1], s[|s| - 1];
      SortIsStable(front, le, alike);
      InsertIsStable(StableSort(front, le), x, le, alike);
      SameFilterSnoc(StableSort(front, le), front, x, alike);
      WithoutLast(s);
    }
  }

  lemma {:induction false} SameFilterSnoc<T(!new)>(a: seq<T>, b: seq<T>, x: T, alike: T -> bool)
    requires Filter(a, alike) == Filter(b, alike)
    ensures Filter(a + [x], alike) == Filter(b + [x], alike)
  {
    FilterConcatenated(a, [x], alike);
    FilterConcatenated(b, [x], alike);
  }

  /** No two different elements are equal in the order. */
  ghost predicate ToldApart<T>(s: seq<T>, le: (T, T) -> bool) {
    forall i, j :: 0 <= i < |s| && 0 <= j < |s| && le(s[i], s[j]) && le(s[j], s[i]) ==> s[i] == s[j]
  }

  /** Where the order tells all elements apart, there is only one sorted arrangement. */
  lemma {:induction false} SortedIsUnique<T(!new)>(a: seq<T>, b: seq<T>, le: (T, T) -> bool)
    requires Sorted(a, le) && Sorted(b, le) && multiset(a) == multiset(b) && ToldApart(a, le)
    ensures a == b
  {
    assert |a| == |multiset(a)| == |multiset(b)| == |b|;
    if a != [] {
      LastAgrees(a, b, le);
      var n := |a| - 1;
      WithoutLast(a);
      WithoutLast(b);
      SortedIsUnique(a[..n], b[..n], le);
    }
  }

  lemma {:induction false} WithoutLast<T>(s: seq<T>)
    requires s != []
    ensures s == s[..|s| - 1] + [s[|s| - 1]]
    ensures multiset(s[..|s| - 1]) == multiset(s) - multiset{s[|s| - 1]}
  {
    assert s == s[..|s| - 1] + [s[|s| - 1]];
  }

  lemma {:induction false} LastAgrees<T(!new)>(a: seq<T>, b: seq<T>, le: (T, T) -> bool)
    requires Sorted(a, le) && Sorted(b, le) && multiset(a) == multiset(b) && |a| == |b| && a != [] && ToldApart(a, le)
    ensures a[|a| - 1] == b[|b| - 1]
  {
    var n := |a| - 1;
    assert a[n] in multiset(b) && b[n] in multiset(a);
    var i :| 0 <= i <= n && b[i] == a[n];
    var j :| 0 <= j <= n && a[j] == b[n];
    assert i < n ==> le(b[i], b[n]);
    assert j < n ==> le(a[j], a[n]);
  }
}
