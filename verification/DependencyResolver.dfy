/**
 Two readings of the plan graph that have to agree: batches of nodes that may run in parallel, peeled
 off layer by layer on any graph, and the longest chain of dependencies of an acyclic one.
 */
module DependencyResolvers {
  import opened Common
  import opened Digraph
  import opened ExecutionGraphs

  ghost predicate InLayers(layers: seq<seq<Id>>, v: Id) {
    exists k :: 0 <= k < |layers| && v in layers[k]
  }

  /**
   The layers are disjoint sets of vertices; every dependency of a layered vertex lies in an earlier
   layer, and one of them in the layer just before.
   */
  ghost predicate Layers(vertices: set<Id>, g: Adjacency<Id>, layers: seq<seq<Id>>) {
    && (forall k :: 0 <= k < |layers| ==> layers[k] != [] && Distinct(layers[k]))
    && (forall k, v {:trigger v in layers[k]} ::
          0 <= k < |layers| && v in layers[k] ==> v in vertices && !InLayers(layers[..k], v))
    && (forall k, u, v {:trigger v in layers[k], HasEdge(g, u, v)} ::
          0 <= k < |layers| && v in layers[k] && HasEdge(g, u, v) ==> InLayers(layers[..k], u))
    && (forall k, v {:trigger HasPredecessorIn(g, Elements(layers[k - 1]), v)} ::
          0 < k < |layers| && v in layers[k] ==> HasPredecessorIn(g, Elements(layers[k - 1]), v))
  }

  /** Layers that stop only when every vertex left out depends on another one left out. */
  ghost predicate Layering(vertices: set<Id>, g: Adjacency<Id>, layers: seq<seq<Id>>) {
    && Layers(vertices, g, layers)
    && (forall v {:trigger HasPredecessorIn(g, LeftOut(vertices, layers), v)} ::
          v in LeftOut(vertices, layers) ==> HasPredecessorIn(g, LeftOut(vertices, layers), v))
  }

  ghost function LeftOut(vertices: set<Id>, layers: seq<seq<Id>>): set<Id> {
    set v | v in vertices && !InLayers(layers, v)
  }

  /** The longest walks that end in v have exactly n vertices. */
  ghost predicate LongestInto<T(!new)>(g: Adjacency<T>, v: T, n: nat) {
    && (exists p :: p != [] && Walk(g, p) && p[|p| - 1] == v && |p| == n)
    && (forall p :: p != [] && Walk(g, p) && p[|p| - 1] == v ==> |p| <= n)
  }

  /** The longest walks that start in v have exactly n vertices. */
  ghost predicate LongestFrom<T(!new)>(g: Adjacency<T>, v: T, n: nat) {
    && (exists p :: p != [] && Walk(g, p) && p[0] == v && |p| == n)
    && (forall p :: p != [] && Walk(g, p) && p[0] == v ==> |p| <= n)
  }

  lemma {:induction false} LayerWalk(vertices: set<Id>, g: Adjacency<Id>, layers: seq<seq<Id>>, k: nat, v: Id)
    returns (p: seq<Id>)
    requires Layering(vertices, g, layers) && k < |layers| && v in layers[k]
    ensures |p| == k + 1 && Walk(g, p) && p[k] == v
    ensures forall x :: x in p ==> x in vertices
  {
    if k == 0 {
      p := [v];
    } else {
      assert HasPredecessorIn(g, Elements(layers[k - 1]), v);
      var u :| u in Elements(layers[k - 1]) && HasEdge(g, u, v);
      var q := LayerWalk(vertices, g, layers, k - 1, u);
      ExtendWalk(g, q, v);
      p := q + [v];
    }
  }

  lemma {:induction false} WalkFitsLayers(vertices: set<Id>, g: Adjacency<Id>, layers: seq<seq<Id>>, k: nat, p: seq<Id>)
    requires Layering(vertices, g, layers) && k < |layers|
    requires p != [] && Walk(g, p) && p[|p| - 1] in layers[k]
    ensures |p| <= k + 1
  {
    if |p| > 1 {
      var n := |p| - 1;
      assert HasEdge(g, p[n - 1], p[n]);
      var j :| 0 <= j < k && p[n - 1] in layers[..k][j];
      SliceWalk(g, p, 0, n);
      WalkFitsLayers(vertices, g, layers, j, p[..n]);
    }
  }

  lemma {:induction false} LayersAreDisjoint(vertices: set<Id>, g: Adjacency<Id>, layers: seq<seq<Id>>, i: nat, j: nat,
                                             v: Id)
    requires Layers(vertices, g, layers) && i < j < |layers| && v in layers[i]
    ensures v !in layers[j]
  {
    assert v in layers[..j][i];
    assert InLayers(layers[..j], v);
  }

  lemma {:induction false} LayerMeansLongest(vertices: set<Id>, g: Adjacency<Id>, layers: seq<seq<Id>>, k: nat, v: Id)
    requires Layering(vertices, g, layers) && k < |layers| && v in layers[k]
    ensures LongestInto(g, v, k + 1)
  {
    var p := LayerWalk(vertices, g, layers, k, v);
    forall q | q != [] && Walk(g, q) && q[|q| - 1] == v
      ensures |q| <= k + 1
    {
      WalkFitsLayers(vertices, g, layers, k, q);
    }
  }

  lemma {:induction false} LongestIsUnique(g: Adjacency<Id>, v: Id, m: nat, n: nat)
    requires LongestInto(g, v, m) && LongestInto(g, v, n)
    ensures m == n
  {
    var p :| p != [] && Walk(g, p) && p[|p| - 1] == v && |p| == m;
    var q :| q != [] && Walk(g, q) && q[|q| - 1] == v && |q| == n;
  }

  lemma {:induction false} LeftOutHasNoLongest(vertices: set<Id>, g: Adjacency<Id>, layers: seq<seq<Id>>, n: nat, v: Id)
    requires Layering(vertices, g, layers) && v in LeftOut(vertices, layers)
    ensures !LongestInto(g, v, n)
  {
    var p := BackwardWalk(g, LeftOut(vertices, layers), v, n);
  }

  /** A vertex is put in batch k exactly when its longest incoming walk has k + 1 vertices. */
  lemma {:induction false} BatchIndexIsLongestWalk(vertices: set<Id>, g: Adjacency<Id>, layers: seq<seq<Id>>, k: nat,
                                                   v: Id)
    requires Layering(vertices, g, layers) && v in vertices
    ensures k < |layers| && v in layers[k] <==> LongestInto(g, v, k + 1)
  {
    if k < |layers| && v in layers[k] {
      LayerMeansLongest(vertices, g, layers, k, v);
    } else if InLayers(layers, v) {
      var j :| 0 <= j < |layers| && v in layers[j];
      LayerMeansLongest(vertices, g, layers, j, v);
      if LongestInto(g, v, k + 1) {
        LongestIsUnique(g, v, j + 1, k + 1);
      }
    } else {
      LeftOutHasNoLongest(vertices, g, layers, k + 1, v);
    }
  }

  lemma {:induction false} LayersAvoidCycles(vertices: set<Id>, g: Adjacency<Id>, layers: seq<seq<Id>>, k: nat,
                                             p: seq<Id>)
    requires Layering(vertices, g, layers) && k < |layers|
    requires p != [] && Walk(g, p) && p[|p| - 1] in layers[k]
    ensures exists j :: 0 <= j <= k && p[0] in layers[j] && (|p| > 1 ==> j < k)
  {
    if |p| > 1 {
      var n := |p| - 1;
      assert HasEdge(g, p[n - 1], p[n]);
      var i :| 0 <= i < k && p[n - 1] in layers[..k][i];
      SliceWalk(g, p, 0, n);
      LayersAvoidCycles(vertices, g, layers, i, p[..n]);
    }
  }

  /** The vertices that no batch contains are exactly those on a cycle or behind one. */
  lemma {:induction false} LeftOutIffDownstreamOfCycle(vertices: set<Id>, g: Adjacency<Id>, layers: seq<seq<Id>>, v: Id)
    requires Layering(vertices, g, layers) && v in vertices
    ensures !InLayers(layers, v) <==> DownstreamOfCycle(g, v)
  {
    if !InLayers(layers, v) {
      NoSourceMeansCycle(g, LeftOut(vertices, layers), v);
    }
    if InLayers(layers, v) && DownstreamOfCycle(g, v) {
      var k :| 0 <= k < |layers| && v in layers[k];
      var c :| ClosedWalk(g, c) && Reaches(g, c[0], v);
      var w :| WalkFromTo(g, w, c[0], v);
      LayersAvoidCycles(vertices, g, layers, k, w);
      var j :| 0 <= j <= k && c[0] in layers[j];
      LayersAvoidCycles(vertices, g, layers, j, c);
      var i :| 0 <= i < j && c[0] in layers[i];
      LayersAreDisjoint(vertices, g, layers, i, j, c[0]);
    }
  }

  /** On an acyclic graph every vertex is batched, and the batches are as many as the longest walk. */
  lemma {:induction false} LongestWalkCountsBatches(vertices: set<Id>, g: Adjacency<Id>, layers: seq<seq<Id>>,
                                                    path: seq<Id>)
    requires Layering(vertices, g, layers) && Acyclic(g)
    requires Walk(g, path) && forall v :: v in path ==> v in vertices
    requires forall p :: Walk(g, p) && (forall v :: v in p ==> v in vertices) ==> |p| <= |path|
    ensures |path| == |layers|
    ensures forall v :: v in vertices ==> InLayers(layers, v)
  {
    forall v | v in vertices
      ensures InLayers(layers, v)
    {
      LeftOutIffDownstreamOfCycle(vertices, g, layers, v);
    }
    if path != [] {
      assert InLayers(layers, path[|path| - 1]);
      var k :| 0 <= k < |layers| && path[|path| - 1] in layers[k];
      WalkFitsLayers(vertices, g, layers, k, path);
    }
    if layers != [] {
      var k := |layers| - 1;
      var p := LayerWalk(vertices, g, layers, k, layers[k][0]);
    }
  }

  /** Half-way through: whatever remains was not ready for the last layer. */
  ghost predicate Peeling(vertices: set<Id>, es: seq<Edge>, layers: seq<seq<Id>>, remaining: set<Id>) {
    var g := Table(vertices, es);
    && Layers(vertices, g, layers)
    && remaining == LeftOut(vertices, layers)
    && (layers != [] ==>
          forall v {:trigger HasPredecessorIn(g, Elements(layers[|layers| - 1]) + remaining, v)} ::
            v in remaining ==> HasPredecessorIn(g, Elements(layers[|layers| - 1]) + remaining, v))
  }

  lemma {:induction false} UnmetHasPredecessor(vertices: set<Id>, es: seq<Edge>, remaining: set<Id>, v: Id)
    requires remaining <= vertices
    requires forall i :: 0 <= i < |es| ==> es[i].source in vertices
    ensures Unmet(es, vertices - remaining, v) != 0 <==> HasPredecessorIn(Table(vertices, es), remaining, v)
  {
    UnmetZero(es, vertices - remaining, v);
    if Unmet(es, vertices - remaining, v) != 0 {
      var i :| 0 <= i < |es| && es[i].target == v && es[i].source !in vertices - remaining;
      TargetsAreEdges(es, es[i].source, v);
      assert HasEdge(Table(vertices, es), es[i].source, v);
    }
    if HasPredecessorIn(Table(vertices, es), remaining, v) {
      var u :| u in remaining && HasEdge(Table(vertices, es), u, v);
      TargetsAreEdges(es, u, v);
    }
  }

  lemma {:induction false} ReadyHaveNoPredecessor(vertices: set<Id>, es: seq<Edge>, remaining: set<Id>,
                                                  inDegree: map<Id, int>,
                               batch: seq<Id>)
    requires remaining <= vertices == inDegree.Keys
    requires forall i :: 0 <= i < |es| ==> es[i].source in vertices
    requires forall v :: v in remaining ==> inDegree[v] == Unmet(es, vertices - remaining, v)
    requires forall v :: v in batch <==> v in remaining && inDegree[v] == 0
    ensures forall v :: v in batch <==> v in remaining && !HasPredecessorIn(Table(vertices, es), remaining, v)
    ensures batch == [] ==> forall v :: v in remaining ==> HasPredecessorIn(Table(vertices, es), remaining, v)
  {
    forall v | v in remaining
      ensures inDegree[v] != 0 <==> HasPredecessorIn(Table(vertices, es), remaining, v)
    {
      UnmetHasPredecessor(vertices, es, remaining, v);
    }
    assert batch == [] ==> forall v :: v in remaining ==> v !in batch;
  }

  lemma {:induction false} InLayersGrows(layers: seq<seq<Id>>, batch: seq<Id>, v: Id)
    ensures InLayers(layers + [batch], v) <==> InLayers(layers, v) || v in batch
  {
    var layers' := layers + [batch];
    assert layers'[|layers|] == batch;
    assert forall k :: 0 <= k < |layers| ==> layers'[k] == layers[k];
  }

  /** Peeling off exactly the vertices without a remaining dependency keeps the layers right. */
  lemma {:induction false} PeelOne(vertices: set<Id>, es: seq<Edge>, layers: seq<seq<Id>>, remaining: set<Id>,
                                   batch: seq<Id>)
    requires Peeling(vertices, es, layers, remaining)
    requires batch != [] && Distinct(batch)
    requires forall v :: v in batch <==> v in remaining && !HasPredecessorIn(Table(vertices, es), remaining, v)
    ensures Peeling(vertices, es, layers + [batch], remaining - Elements(batch))
  {
    var g := Table(vertices, es);
    var layers', n := layers + [batch], |layers|;
    forall v
      ensures InLayers(layers', v) <==> InLayers(layers, v) || v in batch
    {
      InLayersGrows(layers, batch, v);
    }
    assert remaining - Elements(batch) == LeftOut(vertices, layers');
    forall k | 0 <= k <= n
      ensures layers'[..k] == layers[..k]
    {
    }
    forall v | v in batch && n > 0
      ensures HasPredecessorIn(g, Elements(layers[n - 1]), v)
    {
      assert HasPredecessorIn(g, Elements(layers[n - 1]) + remaining, v);
      var u :| u in Elements(layers[n - 1]) + remaining && HasEdge(g, u, v);
    }
    forall v | v in remaining - Elements(batch)
      ensures HasPredecessorIn(g, Elements(batch) + (remaining - Elements(batch)), v)
    {
      var u :| u in remaining && HasEdge(g, u, v);
    }
    forall u, v | v in batch && HasEdge(g, u, v)
      ensures InLayers(layers, u)
    {
      assert u in vertices && u !in remaining;
    }
  }

  /** The inner loop over one finished vertex: only vertices that remain are counted down. */
  method CountDown(targets: seq<Id>, remaining: set<Id>, inDegree: map<Id, int>) returns (inDegree': map<Id, int>)
    requires forall v :: v in targets ==> v in inDegree
    ensures inDegree'.Keys == inDegree.Keys
    ensures forall v :: v in remaining && v in inDegree ==> inDegree'[v] == inDegree[v] - multiset(targets)[v]
  {
    inDegree' := inDegree;
    for k := 0 to |targets|
      invariant inDegree'.Keys == inDegree.Keys
      invariant forall v :: v in remaining && v in inDegree ==>
        inDegree'[v] == inDegree[v] - multiset(targets[..k])[v]
    {
      var dep := targets[k];
      assert targets[..k + 1] == targets[..k] + [dep];
      if dep in remaining {
        inDegree' := inDegree'[dep := inDegree'[dep] - 1];
      }
    }
    assert targets[..|targets|] == targets;
  }

  /** Take a whole batch off the remaining vertices and count its targets down. */
  method Release(ghost es: seq<Edge>, adjacency: Adjacency<Id>, batch: seq<Id>, remaining: set<Id>,
                 inDegree: map<Id, int>)
    returns (remaining': set<Id>, inDegree': map<Id, int>)
    requires adjacency == Table(inDegree.Keys, es) && remaining <= inDegree.Keys
    requires forall i :: 0 <= i < |es| ==> es[i].target in inDegree
    requires Distinct(batch) && forall v :: v in batch ==> v in remaining
    requires forall v :: v in remaining ==> inDegree[v] == Unmet(es, inDegree.Keys - remaining, v)
    ensures remaining' == remaining - Elements(batch) && inDegree'.Keys == inDegree.Keys
    ensures forall v :: v in remaining' ==> inDegree'[v] == Unmet(es, inDegree.Keys - remaining', v)
  {
    remaining', inDegree' := remaining, inDegree;
    for i := 0 to |batch|
      invariant remaining' == remaining - Elements(batch[..i]) && inDegree'.Keys == inDegree.Keys
      invariant forall v :: v in remaining' ==> inDegree'[v] == Unmet(es, inDegree.Keys - remaining', v)
    {
      var id := batch[i];
      ghost var done := inDegree.Keys - remaining';
      assert id in remaining';
      assert batch[..i + 1] == batch[..i] + [id];
      remaining' := remaining' - {id};
      assert inDegree.Keys - remaining' == done + {id};
      TargetsAreVertices(inDegree.Keys, es, id);
      ghost var before := inDegree';
      inDegree' := CountDown(adjacency[id], remaining', inDegree');
      forall v | v in remaining'
        ensures inDegree'[v] == Unmet(es, done + {id}, v)
      {
        UnmetAfter(es, done, id, v);
      }
    }
    assert batch[..|batch|] == batch;
  }

  /** The members of a set that are ready, in whatever order the set gives them. */
  method ReadyOnes(remaining: set<Id>, inDegree: map<Id, int>) returns (batch: seq<Id>)
    requires remaining <= inDegree.Keys
    ensures Distinct(batch)
    ensures forall v :: v in batch <==> v in remaining && inDegree[v] == 0
  {
    batch := [];
    var rest := remaining;
    while rest != {}
      invariant rest <= remaining && Distinct(batch)
      invariant forall v :: v in batch <==> v in remaining - rest && inDegree[v] == 0
      decreases rest
    {
      var v :| v in rest;
      rest := rest - {v};
      if inDegree[v] == 0 {
        batch := batch + [v];
      }
    }
  }

  /** The outer loop: peel off what is ready until nothing is left, or nothing left is ready. */
  method PeelLayers(vertices: set<Id>, ghost es: seq<Edge>, adjacency: Adjacency<Id>, inDegree0: map<Id, int>)
    returns (layers: seq<seq<Id>>)
    requires inDegree0.Keys == vertices && adjacency == Table(vertices, es)
    requires forall i :: 0 <= i < |es| ==> es[i].source in vertices && es[i].target in vertices
    requires forall v :: v in vertices ==> inDegree0[v] == Unmet(es, {}, v)
    ensures Layering(vertices, Table(vertices, es), layers)
  {
    var inDegree, remaining := inDegree0, vertices;
    layers := [];
    assert LeftOut(vertices, layers) == remaining && vertices - remaining == {};
    while remaining != {}
      invariant inDegree.Keys == vertices && Peeling(vertices, es, layers, remaining)
      invariant forall v :: v in remaining ==> inDegree[v] == Unmet(es, vertices - remaining, v)
      decreases remaining
    {
      var batch := ReadyOnes(remaining, inDegree);
      ReadyHaveNoPredecessor(vertices, es, remaining, inDegree, batch);
      if batch == [] {
        break;
      }
      PeelOne(vertices, es, layers, remaining, batch);
      layers := layers + [batch];
      assert batch[0] in remaining && batch[0] in Elements(batch);
      remaining, inDegree := Release(es, adjacency, batch, remaining, inDegree);
    }
  }

  /** One more vertex in front: the longest walk from u goes through the best of its successors. */
  lemma {:induction false} LongestThrough(g: Adjacency<Id>, u: Id, next: Option<Id>, n: nat, lengths: map<Id, nat>)
    requires forall v :: HasEdge(g, u, v) ==> v in lengths && LongestFrom(g, v, lengths[v]) && lengths[v] < n
    requires next == None ==> n == 1
    requires next.Some? ==> HasEdge(g, u, next.value) && n == lengths[next.value] + 1
    ensures LongestFrom(g, u, n)
  {
    if next == None {
      assert Walk(g, [u]);
    } else {
      var q :| q != [] && Walk(g, q) && q[0] == next.value && |q| == n - 1;
      PrependWalk(g, u, q);
      assert ([u] + q)[0] == u;
    }
    forall p | p != [] && Walk(g, p) && p[0] == u
      ensures |p| <= n
    {
      if |p| > 1 {
        assert HasEdge(g, p[0], p[1]);
        SliceWalk(g, p, 1, |p|);
      }
    }
  }

  lemma {:induction false} TakeAll(s: seq<Id>)
    ensures s[..|s|] == s
  {
  }

  /** x is in the list, and no walk of n vertices starts at anything before it. */
  ghost predicate FirstWith(g: Adjacency<Id>, s: seq<Id>, x: Id, n: nat) {
    x in s && forall p :: p != [] && Walk(g, p) && p[0] in s[..IndexOf(s, x)] ==> |p| < n
  }

  lemma {:induction false} FirstStays(g: Adjacency<Id>, s: seq<Id>, x: Id, y: Id, n: nat)
    requires FirstWith(g, s, x, n)
    ensures FirstWith(g, s + [y], x, n)
  {
    var i := IndexOf(s, x);
    assert (s + [y])[..i] == s[..i];
    IndexIs(s + [y], x, i);
  }

  lemma {:induction false} FirstNew(g: Adjacency<Id>, s: seq<Id>, y: Id, n: nat)
    requires y !in s && forall p :: p != [] && Walk(g, p) && p[0] in s ==> |p| < n
    ensures FirstWith(g, s + [y], y, n)
  {
    assert (s + [y])[..|s|] == s;
    IndexIs(s + [y], y, |s|);
  }

  /** Each vertex is the first choice of the one before it, in a walk of n vertices. */
  ghost predicate Choosing(g: Adjacency<Id>, path: seq<Id>, n: nat) {
    |path| <= n && forall i :: 0 <= i < |path| - 1 ==>
      path[i] in g && FirstWith(g, g[path[i]], path[i + 1], n - 1 - i)
  }

  lemma {:induction false} ChoosingGrows(g: Adjacency<Id>, path: seq<Id>, x: Id, n: nat)
    requires Choosing(g, path, n) && |path| < n
    requires path != [] ==>
      path[|path| - 1] in g && FirstWith(g, g[path[|path| - 1]], x, n - |path|)
    ensures Choosing(g, path + [x], n)
  {
  }

  /** Of all walks as long as this one, it is the first at every choice. */
  ghost predicate FirstAtEveryChoice(order: seq<Id>, g: Adjacency<Id>, path: seq<Id>) {
    (path != [] ==> FirstWith(g, order, path[0], |path|)) && Choosing(g, path, |path|)
  }

  lemma {:induction false} InFront(s: seq<Id>, x: Id, y: Id)
    requires x in s && y in s
    ensures IndexOf(s, x) < IndexOf(s, y) ==> x in s[..IndexOf(s, y)]
  {
  }

  lemma {:induction false} SameChoice(g: Adjacency<Id>, choices: seq<Id>, s: seq<Id>, t: seq<Id>)
    requires s != [] && t != [] && |s| == |t| && Walk(g, s) && Walk(g, t)
    requires FirstWith(g, choices, s[0], |s|) && FirstWith(g, choices, t[0], |t|)
    ensures s[0] == t[0]
  {
    InFront(choices, s[0], t[0]);
    InFront(choices, t[0], s[0]);
  }

  lemma {:induction false} NextChoice(order: seq<Id>, g: Adjacency<Id>, s: seq<Id>, t: seq<Id>, k: nat)
    requires Walk(g, s) && Walk(g, t) && |s| == |t| && k < |s| && (k > 0 ==> s[k - 1] == t[k - 1])
    requires FirstAtEveryChoice(order, g, s) && FirstAtEveryChoice(order, g, t)
    ensures s[k] == t[k]
  {
    SliceWalk(g, s, k, |s|);
    SliceWalk(g, t, k, |t|);
    SameChoice(g, if k == 0 then order else g[s[k - 1]], s[k..], t[k..]);
  }

  /** There is only one such walk of each length. */
  lemma {:induction false} FirstLongestIsSettled(order: seq<Id>, g: Adjacency<Id>, s: seq<Id>, t: seq<Id>, k: nat)
    requires Walk(g, s) && Walk(g, t) && |s| == |t| && k <= |s|
    requires FirstAtEveryChoice(order, g, s) && FirstAtEveryChoice(order, g, t)
    ensures forall j :: 0 <= j < k ==> s[j] == t[j]
    ensures k == |s| ==> s == t
  {
    if k > 0 {
      FirstLongestIsSettled(order, g, s, t, k - 1);
      NextChoice(order, g, s, t, k - 1);
    }
  }

  type Memo = map<Id, (nat, Option<Id>)>

  /** The entry of v holds the exact longest length, and a successor that attains it. */
  ghost predicate Entry(g: Adjacency<Id>, memo: Memo, v: Id) {
    v in memo ==>
      && LongestFrom(g, v, memo[v].0)
      && (memo[v].1 == None <==> memo[v].0 == 1)
      && (memo[v].1.Some? ==>
            && HasEdge(g, v, memo[v].1.value)
            && memo[v].1.value in memo
            && memo[v].0 == memo[memo[v].1.value].0 + 1
            && FirstWith(g, g[v], memo[v].1.value, memo[v].0 - 1))
  }

  ghost predicate Entries(g: Adjacency<Id>, memo: Memo) {
    forall v {:trigger Entry(g, memo, v)} :: Entry(g, memo, v)
  }

  /** The loop over the successors of u has found the best of them. */
  ghost predicate Best(g: Adjacency<Id>, memo: Memo, u: Id, deps: seq<Id>, length: nat, next: Option<Id>) {
    && length >= 1
    && (forall v :: v in deps ==> v in memo && memo[v].0 < length)
    && (next == None <==> length == 1)
    && (next.Some? ==>
          && HasEdge(g, u, next.value) && next.value in memo && length == memo[next.value].0 + 1
          && FirstWith(g, deps, next.value, length - 1))
  }

  /** One successor more: it becomes the best if it is better than all before. */
  lemma {:induction false} BestOfMore(g: Adjacency<Id>, memo: Memo, u: Id, deps: seq<Id>, length: nat,
                                      next: Option<Id>, dep: Id)
    requires Entries(g, memo) && Best(g, memo, u, deps, length, next) && HasEdge(g, u, dep) && dep in memo
    ensures if memo[dep].0 + 1 > length
            then Best(g, memo, u, deps + [dep], memo[dep].0 + 1, Some(dep))
            else Best(g, memo, u, deps + [dep], length, next)
  {
    assert Entry(g, memo, dep);
    if memo[dep].0 + 1 > length {
      forall p | p != [] && Walk(g, p) && p[0] in deps
        ensures |p| < memo[dep].0
      {
        assert Entry(g, memo, p[0]);
      }
      FirstNew(g, deps, dep, memo[dep].0);
    } else if next.Some? {
      FirstStays(g, deps, next.value, dep, length - 1);
    }
  }

  lemma {:induction false} BestKept(g: Adjacency<Id>, memo: Memo, memo': Memo, u: Id, deps: seq<Id>, length: nat,
                                    next: Option<Id>)
    requires Best(g, memo, u, deps, length, next) && Extends(memo, memo')
    ensures Best(g, memo', u, deps, length, next)
  {
  }

  lemma {:induction false} EntryAdded(g: Adjacency<Id>, memo: Memo, u: Id, length: nat, next: Option<Id>)
    requires Entries(g, memo) && u in g && u !in memo
    requires Best(g, memo, u, g[u], length, next)
    ensures Entries(g, memo[u := (length, next)])
  {
    var lengths: map<Id, nat> := map v | v in memo :: memo[v].0;
    forall v | HasEdge(g, u, v)
      ensures v in lengths && LongestFrom(g, v, lengths[v]) && lengths[v] < length
    {
      assert Entry(g, memo, v);
    }
    LongestThrough(g, u, next, length, lengths);
    var memo' := memo[u := (length, next)];
    forall v
      ensures Entry(g, memo', v)
    {
      assert Entry(g, memo, v);
    }
  }

  ghost predicate Extends(memo: Memo, memo': Memo) {
    forall v :: v in memo ==> v in memo' && memo'[v] == memo[v]
  }

  lemma {:induction false} FirstOfMore(g: Adjacency<Id>, memo: Memo, before: seq<Id>, v: Id, longest: nat,
                                       start: Option<Id>)
    requires Entries(g, memo) && v in memo && forall u :: u in before ==> u in memo && memo[u].0 <= longest
    requires start.Some? ==> FirstWith(g, before, start.value, longest)
    ensures memo[v].0 > longest ==> FirstWith(g, before + [v], v, memo[v].0)
    ensures start.Some? ==> FirstWith(g, before + [v], start.value, longest)
  {
    forall p | p != [] && Walk(g, p) && p[0] in before
      ensures |p| <= longest
    {
      assert Entry(g, memo, p[0]);
    }
    if memo[v].0 > longest {
      FirstNew(g, before, v, memo[v].0);
    }
    if start.Some? {
      FirstStays(g, before, start.value, v, longest);
    }
  }

  /** The memo table behind the longest-path recursion. */
  class PathMemo {
    const adjacency: Adjacency<Id>
    var memo: Memo

    constructor (adjacency: Adjacency<Id>)
      ensures Entries(adjacency, memo) && this.adjacency == adjacency && memo == map[]
    {
      this.adjacency, memo := adjacency, map[];
    }

    method Longest(node: Id, ghost h: map<Id, nat>) returns (length: nat, next: Option<Id>)
      requires Entries(adjacency, memo) && node in adjacency && node in h
      requires Height(adjacency, h) && forall u, v :: HasEdge(adjacency, u, v) ==> v in adjacency
      modifies this
      ensures Entries(adjacency, memo) && node in memo && memo[node] == (length, next)
      ensures Extends(old(memo), memo) && forall v :: v in memo && v !in old(memo) ==> v in h && h[v] <= h[node]
      decreases h[node]
    {
      if node in memo {
        return memo[node].0, memo[node].1;
      }
      length, next := 1, None;
      var deps := adjacency[node];
      for k := 0 to |deps|
        invariant Entries(adjacency, memo) && Extends(old(memo), memo)
        invariant forall v :: v in memo && v !in old(memo) ==> v in h && h[v] < h[node]
        invariant Best(adjacency, memo, node, deps[..k], length, next)
      {
        var dep := deps[k];
        assert HasEdge(adjacency, node, dep);
        ghost var before := memo;
        var childLength, _ := Longest(dep, h);
        BestKept(adjacency, before, memo, node, deps[..k], length, next);
        BestOfMore(adjacency, memo, node, deps[..k], length, next, dep);
        if childLength + 1 > length {
          length, next := childLength + 1, Some(dep);
        }
        TakeOneMore(deps, k);
      }
      TakeAll(deps);
      EntryAdded(adjacency, memo, node, length, next);
      memo := memo[node := (length, next)];
    }

    /** The first vertex in the order with a longest walk. */
    method Start(order: seq<Id>, ghost h: map<Id, nat>) returns (longestLen: nat, start: Option<Id>)
      requires Entries(adjacency, memo)
      requires forall v :: v in order ==> v in adjacency && v in h
      requires Height(adjacency, h) && forall u, v :: HasEdge(adjacency, u, v) ==> v in adjacency
      modifies this
      ensures Entries(adjacency, memo)
      ensures if start == None then longestLen == 0
              else && start.value in memo && memo[start.value].0 == longestLen
                   && FirstWith(adjacency, order, start.value, longestLen)
      ensures forall p :: p != [] && Walk(adjacency, p) && p[0] in order ==> |p| <= longestLen
    {
      longestLen, start := 0, None;
      for i := 0 to |order|
        invariant Entries(adjacency, memo)
        invariant forall j :: 0 <= j < i ==> order[j] in memo && memo[order[j]].0 <= longestLen
        invariant if start == None then longestLen == 0
                  else && start.value in memo && memo[start.value].0 == longestLen
                       && FirstWith(adjacency, order[..i], start.value, longestLen)
      {
        var l, _ := Longest(order[i], h);
        FirstOfMore(adjacency, memo, order[..i], order[i], longestLen, start);
        assert order[..i + 1] == order[..i] + [order[i]];
        if l > longestLen {
          longestLen, start := l, Some(order[i]);
        }
      }
      assert order[..|order|] == order;
      forall p | p != [] && Walk(adjacency, p) && p[0] in order
        ensures |p| <= longestLen
      {
        assert Entry(adjacency, memo, p[0]);
      }
    }

    /** Read the path off the table, from each vertex to the successor it remembers. */
    method Follow(longestLen: nat, start: Option<Id>, ghost h: map<Id, nat>) returns (path: seq<Id>)
      requires Entries(adjacency, memo)
      requires if start == None then longestLen == 0
               else start.value in memo && start.value in adjacency && memo[start.value].0 == longestLen
      requires forall v :: v in adjacency ==> v in h
      requires Height(adjacency, h) && forall u, v :: HasEdge(adjacency, u, v) ==> v in adjacency
      modifies this
      ensures Walk(adjacency, path) && |path| == longestLen && forall v :: v in path ==> v in adjacency
      ensures path != [] ==> start == Some(path[0])
      ensures Choosing(adjacency, path, |path|)
    {
      path := [];
      var current := start;
      while current.Some?
        invariant Entries(adjacency, memo)
        invariant Walk(adjacency, path) && forall v :: v in path ==> v in adjacency
        invariant if current == None then |path| == longestLen
                  else current.value in adjacency && current.value in memo
                       && |path| + memo[current.value].0 == longestLen
        invariant if path == [] then current == start else start == Some(path[0])
        invariant Choosing(adjacency, path, longestLen)
        invariant current.Some? && path != [] ==>
          && HasEdge(adjacency, path[|path| - 1], current.value)
          && FirstWith(adjacency, adjacency[path[|path| - 1]], current.value, longestLen - |path|)
        decreases longestLen - |path|
      {
        assert Entry(adjacency, memo, current.value);
        ExtendWalk(adjacency, path, current.value);
        ChoosingGrows(adjacency, path, current.value, longestLen);
        path := path + [current.value];
        var _, next := Longest(current.value, h);
        current := next;
      }
    }
  }

  ghost function LayerIds(batches: seq<seq<ExecutionNode>>): (layers: seq<seq<Id>>)
    ensures |layers| == |batches|
    ensures forall k :: 0 <= k < |batches| ==> layers[k] == Ids(batches[k])
  {
    seq(|batches|, k requires 0 <= k < |batches| => Ids(batches[k]))
  }

  class DependencyResolver {
    const graph: ExecutionGraph

    constructor (graph: ExecutionGraph)
      ensures this.graph == graph
    {
      this.graph := graph;
    }

    method NodesOf(ids: seq<Id>) returns (ns: seq<ExecutionNode>)
      requires graph.Valid() && forall v :: v in ids ==> v in graph.nodes
      ensures Ids(ns) == ids && forall n :: n in ns ==> n.id in graph.nodes && graph.nodes[n.id] == n
    {
      ns := [];
      for i := 0 to |ids|
        invariant |ns| == i && forall j :: 0 <= j < i ==> ns[j] == graph.nodes[ids[j]]
      {
        ns := ns + [graph.nodes[ids[i]]];
      }
      assert Ids(ns) == ids;
    }

    method ParallelSafeBatches() returns (batches: seq<seq<ExecutionNode>>)
      requires graph.Valid()
      ensures Layering(graph.nodes.Keys, graph.Graph(), LayerIds(batches))
      ensures forall b, n :: b in batches && n in b ==> n.id in graph.nodes && graph.nodes[n.id] == n
    {
      var inDegree := graph.InDegrees();
      var adjacency := graph.Adjacent();
      var layers := PeelLayers(graph.nodes.Keys, graph.edges, adjacency, inDegree);
      batches := [];
      for k := 0 to |layers|
        invariant LayerIds(batches) == layers[..k]
        invariant forall b, n :: b in batches && n in b ==> n.id in graph.nodes && graph.nodes[n.id] == n
      {
        var batch := NodesOf(layers[k]);
        batches := batches + [batch];
        assert LayerIds(batches) == layers[..k] + [layers[k]];
      }
      assert layers[..|layers|] == layers;
    }

    /** A real chain of dependencies, as long as any, and as long as there are batches. */
    method CriticalPath() returns (path: seq<ExecutionNode>)
      requires graph.Valid() && Acyclic(graph.Graph())
      ensures Walk(graph.Graph(), Ids(path))
      ensures forall n :: n in path ==> n.id in graph.nodes && graph.nodes[n.id] == n
      ensures forall p :: Walk(graph.Graph(), p) && (forall v :: v in p ==> v in graph.nodes) ==> |p| <= |path|
      ensures forall layers :: Layering(graph.nodes.Keys, graph.Graph(), layers) ==> |layers| == |path|
      ensures FirstAtEveryChoice(graph.order, graph.Graph(), Ids(path))
    {
      var ids := CriticalIds();
      path := NodesOf(ids);
      forall layers | Layering(graph.nodes.Keys, graph.Graph(), layers)
        ensures |layers| == |path|
      {
        LongestWalkCountsBatches(graph.nodes.Keys, graph.Graph(), layers, ids);
      }
    }

    method CriticalIds() returns (path: seq<Id>)
      requires graph.Valid() && Acyclic(graph.Graph())
      ensures Walk(graph.Graph(), path) && forall v :: v in path ==> v in graph.nodes
      ensures forall p :: Walk(graph.Graph(), p) && (forall v :: v in p ==> v in graph.nodes) ==> |p| <= |path|
      ensures FirstAtEveryChoice(graph.order, graph.Graph(), path)
    {
      var adjacency := graph.Adjacent();
      ghost var h := AcyclicHeight(adjacency, graph.nodes.Keys);
      EdgesStayInside(graph.nodes.Keys, graph.edges);
      var table := new PathMemo(adjacency);
      assert forall v :: v in graph.order <==> v in Elements(graph.order);
      var longestLen, start := table.Start(graph.order, h);
      path := table.Follow(longestLen, start, h);
    }
  }
}
