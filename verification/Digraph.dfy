/**
 Directed graphs as adjacency tables. A vertex without an entry has no successors, so dangling
 references are allowed. The execution plan, the causal graph and the version lineage all share
 these notions of walk, cycle and reachability.
 */
module Digraph {
  import opened Common

  type Adjacency<T> = map<T, seq<T>>

  ghost predicate HasEdge<T>(g: Adjacency<T>, u: T, v: T) {
    u in g && v in g[u]
  }

  ghost predicate Walk<T>(g: Adjacency<T>, p: seq<T>) {
    forall i :: 0 <= i < |p| - 1 ==> HasEdge(g, p[i], p[i + 1])
  }

  ghost predicate WalkFromTo<T>(g: Adjacency<T>, p: seq<T>, u: T, v: T) {
    p != [] && Walk(g, p) && p[0] == u && p[|p| - 1] == v
  }

  ghost predicate ClosedWalk<T>(g: Adjacency<T>, p: seq<T>) {
    |p| >= 2 && Walk(g, p) && p[0] == p[|p| - 1]
  }

  /** A closed walk that repeats no vertex except its first, which it ends on. */
  ghost predicate SimpleCycle<T>(g: Adjacency<T>, p: seq<T>) {
    ClosedWalk(g, p) && Distinct(p[..|p| - 1])
  }

  ghost predicate Acyclic<T(!new)>(g: Adjacency<T>) {
    forall p :: !ClosedWalk(g, p)
  }

  ghost predicate Reaches<T(!new)>(g: Adjacency<T>, u: T, v: T) {
    exists p :: WalkFromTo(g, p, u, v)
  }

  /** The vertex lies on a cycle, or can be reached from one. */
  ghost predicate DownstreamOfCycle<T(!new)>(g: Adjacency<T>, v: T) {
    exists c :: ClosedWalk(g, c) && Reaches(g, c[0], v)
  }

  lemma {:induction false} ExtendWalk<T>(g: Adjacency<T>, p: seq<T>, v: T)
    requires Walk(g, p)
    requires p != [] ==> HasEdge(g, p[|p| - 1], v)
    ensures Walk(g, p + [v])
  {
    var q := p + [v];
    forall i | 0 <= i < |q| - 1
      ensures HasEdge(g, q[i], q[i + 1])
    {
      if i < |p| - 1 {
        assert q[i] == p[i] && q[i + 1] == p[i + 1];
      }
    }
  }

  lemma {:induction false} PrependWalk<T>(g: Adjacency<T>, u: T, p: seq<T>)
    requires Walk(g, p)
    requires p != [] ==> HasEdge(g, u, p[0])
    ensures Walk(g, [u] + p)
  {
    var q := [u] + p;
    forall i | 0 <= i < |q| - 1
      ensures HasEdge(g, q[i], q[i + 1])
    {
      if i > 0 {
        assert q[i] == p[i - 1] && q[i + 1] == p[i];
      }
    }
  }

  lemma {:induction false} SliceWalk<T>(g: Adjacency<T>, p: seq<T>, i: nat, j: nat)
    requires Walk(g, p) && i <= j <= |p|
    ensures Walk(g, p[i..j])
  {
    var q := p[i..j];
    forall k | 0 <= k < |q| - 1
      ensures HasEdge(g, q[k], q[k + 1])
    {
      assert q[k] == p[i + k] && q[k + 1] == p[i + k + 1];
    }
  }

  /** A height that drops along every edge between the listed vertices. */
  ghost predicate Height<T(!new)>(g: Adjacency<T>, h: map<T, nat>) {
    forall u, v :: HasEdge(g, u, v) && u in h ==> v in h && h[v] < h[u]
  }

  lemma {:induction false} WalkDescends<T(!new)>(g: Adjacency<T>, h: map<T, nat>, p: seq<T>)
    requires Height(g, h) && Walk(g, p) && p != [] && p[0] in h
    ensures forall i :: 0 <= i < |p| ==> p[i] in h && h[p[i]] + i <= h[p[0]]
  {
    if |p| > 1 {
      var n := |p| - 1;
      SliceWalk(g, p, 0, n);
      WalkDescends(g, h, p[..n]);
      assert p[..n][n - 1] == p[n - 1];
      assert HasEdge(g, p[n - 1], p[n]);
    }
  }

  lemma {:induction false} HeightForbidsCycles<T(!new)>(g: Adjacency<T>, h: map<T, nat>)
    requires Height(g, h) && g.Keys <= h.Keys
    ensures Acyclic(g)
  {
    forall p | ClosedWalk(g, p)
      ensures false
    {
      assert HasEdge(g, p[0], p[1]);
      WalkDescends(g, h, p);
    }
  }

  ghost predicate HasPredecessorIn<T(!new)>(g: Adjacency<T>, s: set<T>, v: T) {
    exists u :: u in s && HasEdge(g, u, v)
  }

  /** In a set where every vertex has a predecessor, one can walk backwards for ever. */
  lemma {:induction false} BackwardWalk<T(!new)>(g: Adjacency<T>, s: set<T>, v: T, n: nat)
    returns (p: seq<T>)
    requires v in s
    requires forall x :: x in s ==> HasPredecessorIn(g, s, x)
    ensures |p| == n + 1 && Walk(g, p) && p[n] == v
    ensures forall x :: x in p ==> x in s
  {
    if n == 0 {
      p := [v];
    } else {
      var u :| u in s && HasEdge(g, u, v);
      var q := BackwardWalk(g, s, u, n - 1);
      ExtendWalk(g, q, v);
      p := q + [v];
    }
  }

  lemma {:induction false} NoSourceMeansCycle<T(!new)>(g: Adjacency<T>, s: set<T>, v: T)
    requires v in s
    requires forall x :: x in s ==> HasPredecessorIn(g, s, x)
    ensures DownstreamOfCycle(g, v) && !Acyclic(g)
  {
    var p := BackwardWalk(g, s, v, |s|);
    var i, j := Pigeonhole(p, s);
    var c := p[i..j + 1];
    SliceWalk(g, p, i, j + 1);
    assert ClosedWalk(g, c);
    SliceWalk(g, p, i, |p|);
    assert WalkFromTo(g, p[i..], c[0], v);
  }

  /** Every finite part of an acyclic graph has a height that drops along its edges. */
  lemma {:induction false} AcyclicHeight<T(!new)>(g: Adjacency<T>, s: set<T>) returns (h: map<T, nat>)
    requires Acyclic(g)
    ensures h.Keys == s
    ensures forall u, v :: HasEdge(g, u, v) && u in s && v in s ==> h[v] < h[u]
    ensures forall x :: x in s ==> h[x] <= |s|
  {
    if s == {} {
      h := map[];
    } else {
      var top :| top in s && !HasPredecessorIn(g, s, top) by {
        if forall x :: x in s ==> HasPredecessorIn(g, s, x) {
          var v :| v in s;
          NoSourceMeansCycle(g, s, v);
        }
      }
      var rest := s - {top};
      var below := AcyclicHeight(g, rest);
      h := below[top := |s|];
      assert |rest| < |s|;
      forall u, v | HasEdge(g, u, v) && u in s && v in s
        ensures h[v] < h[u]
      {
        assert HasPredecessorIn(g, s, v);
      }
    }
  }
}
