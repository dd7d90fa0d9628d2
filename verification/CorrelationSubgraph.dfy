/** Restricting a causal graph to one correlation id, which commutes with building it. */
module CorrelationSubgraph {
  import opened Common
  import opened CausalGraphs
  import opened CausalBuilder
  import opened CausalHealth

  function KeepNodes(g: CausalGraph, correlation: string, order: seq<NodeId>): (kept: seq<NodeId>)
    requires forall v :: v in order ==> v in g.nodes
    ensures forall v :: v in kept <==> v in order && g.nodes[v].correlation == correlation
    ensures Distinct(order) ==> Distinct(kept)
  {
    if order == [] then []
    else
      var n := |order| - 1;
      assert order == order[..n] + [order[n]];
      KeepNodes(g, correlation, order[..n]) + if g.nodes[order[n]].correlation == correlation then [order[n]] else []
  }

  function KeepEdges(es: seq<Edge>, matching: set<NodeId>): seq<Edge> {
    if es == [] then []
    else
      var e := es[|es| - 1];
      KeepEdges(es[..|es| - 1], matching) + if e.source in matching || e.target in matching then [e] else []
  }

  /** The matching nodes, and every edge with at least one matching end. */
  function Subgraph(g: CausalGraph, correlation: string): CausalGraph
    requires forall v :: v in g.order <==> v in g.nodes
  {
    var matching := map v | v in g.nodes && g.nodes[v].correlation == correlation :: g.nodes[v];
    CausalGraph(KeepNodes(g, correlation, g.order), matching, KeepEdges(g.edges, matching.Keys))
  }

  ghost function KeepTraces(ts: seq<Trace>, correlation: string): (kept: seq<Trace>)
    ensures forall t :: t in kept <==> t in ts && t.correlation == correlation
    ensures UniqueEvents(ts) ==> UniqueEvents(kept)
  {
    if ts == [] then []
    else
      var n := |ts| - 1;
      assert ts == ts[..n] + [ts[n]];
      KeepTraces(ts[..n], correlation) + if ts[n].correlation == correlation then [ts[n]] else []
  }

  lemma {:induction false} KeepEdgesAppend(a: seq<Edge>, b: seq<Edge>, matching: set<NodeId>)
    ensures KeepEdges(a + b, matching) == KeepEdges(a, matching) + KeepEdges(b, matching)
  {
    if b == [] {
      assert a + b == a;
    } else {
      KeepEdgesAppend(a, b[..|b| - 1], matching);
      assert (a + b)[..|a + b| - 1] == a + b[..|b| - 1];
    }
  }

  lemma {:induction false} KeepAllOrNone(es: seq<Edge>, matching: set<NodeId>, keep: bool)
    requires forall e :: e in es ==> (e.source in matching <==> keep) && (e.target in matching <==> keep)
    ensures KeepEdges(es, matching) == if keep then es else []
  {
    if es != [] {
      KeepAllOrNone(es[..|es| - 1], matching, keep);
      assert es == es[..|es| - 1] + [es[|es| - 1]];
    }
  }

  /** The edges of a chain are kept or dropped together. */
  lemma {:induction false} KeepChain(t: Trace, nodes: map<NodeId, Node>, correlation: string, matching: set<NodeId>)
    requires Chained(t.AsLine(), nodes)
    requires forall v :: v in nodes ==> (v in matching <==> nodes[v].correlation == correlation)
    ensures KeepEdges(t.AsLine().AllEdges(), matching)
      == if t.correlation == correlation then t.AsLine().AllEdges() else []
  {
    var l := t.AsLine();
    var es := l.AllEdges();
    forall e | e in es
      ensures (e.source in matching <==> t.correlation == correlation)
      ensures (e.target in matching <==> t.correlation == correlation)
    {
      var j :| 0 <= j < |es| && es[j] == e;
      assert l.Has(nodes, j, true) && l.Has(nodes, j + 1, true);
    }
    KeepAllOrNone(es, matching, t.correlation == correlation);
  }

  lemma {:induction false} AllEdgesSnoc(ts: seq<Trace>, t: Trace)
    ensures AllEdges(ts + [t]) == AllEdges(ts) + t.AsLine().AllEdges()
  {
    assert (ts + [t])[..|ts|] == ts;
  }

  lemma {:induction false} KeepBuiltEdges(ts: seq<Trace>, nodes: map<NodeId, Node>, correlation: string,
                                          matching: set<NodeId>)
    requires forall t :: t in ts ==> Chained(t.AsLine(), nodes)
    requires forall v :: v in nodes ==> (v in matching <==> nodes[v].correlation == correlation)
    ensures KeepEdges(AllEdges(ts), matching) == AllEdges(KeepTraces(ts, correlation))
  {
    if ts != [] {
      var n := |ts| - 1;
      assert ts == ts[..n] + [ts[n]];
      KeepBuiltEdges(ts[..n], nodes, correlation, matching);
      KeepEdgesAppend(AllEdges(ts[..n]), ts[n].AsLine().AllEdges(), matching);
      KeepChain(ts[n], nodes, correlation, matching);
      JoinKept(KeepTraces(ts[..n], correlation), ts[n], KeepEdges(AllEdges(ts[..n]), matching),
               KeepEdges(ts[n].AsLine().AllEdges(), matching), correlation);
    }
  }

  lemma {:induction false} JoinKept(kept: seq<Trace>, t: Trace, edges: seq<Edge>, own: seq<Edge>, correlation: string)
    requires edges == AllEdges(kept)
    requires own == if t.correlation == correlation then t.AsLine().AllEdges() else []
    ensures edges + own == AllEdges(kept + if t.correlation == correlation then [t] else [])
  {
    if t.correlation == correlation {
      AllEdgesSnoc(kept, t);
    } else {
      assert edges + own == edges;
      assert kept + [] == kept;
    }
  }

  lemma {:induction false} AllChained(ts: seq<Trace>, g: CausalGraph)
    requires ChainGraph(ts, g)
    ensures forall t :: t in ts ==> Chained(t.AsLine(), g.nodes)
  {
    forall t | t in ts
      ensures Chained(t.AsLine(), g.nodes)
    {
      var i :| 0 <= i < |ts| && ts[i] == t;
      assert Chained(ts[i].AsLine(), g.nodes);
    }
  }

  lemma {:induction false} SubgraphIsValid(g: CausalGraph, correlation: string)
    requires g.Valid()
    ensures forall v :: v in g.order <==> v in g.nodes
    ensures Subgraph(g, correlation).Valid()
  {
    assert forall v :: v in g.order <==> v in Elements(g.order);
    var sub := Subgraph(g, correlation);
    assert Elements(sub.order) == sub.nodes.Keys;
  }

  lemma {:induction false} KeptChains(ts: seq<Trace>, g: CausalGraph, correlation: string, i: nat)
    requires ChainGraph(ts, g) && i < |KeepTraces(ts, correlation)|
    ensures Chained(KeepTraces(ts, correlation)[i].AsLine(),
                    map v | v in g.nodes && g.nodes[v].correlation == correlation :: g.nodes[v])
  {
    var t := KeepTraces(ts, correlation)[i];
    AllChained(ts, g);
    ChainKept(t, g.nodes, map v | v in g.nodes && g.nodes[v].correlation == correlation :: g.nodes[v], correlation);
  }

  /** The subgraph of a correlation is the graph of the traces of that correlation: no chain is cut. */
  lemma {:induction false} SubgraphOfBuilt(ts: seq<Trace>, g: CausalGraph, correlation: string)
    requires ChainGraph(ts, g)
    ensures forall v :: v in g.order <==> v in g.nodes
    ensures ChainGraph(KeepTraces(ts, correlation), Subgraph(g, correlation))
  {
    SubgraphIsValid(g, correlation);
    var kept, sub := KeepTraces(ts, correlation), Subgraph(g, correlation);
    AllChained(ts, g);
    KeepBuiltEdges(ts, g.nodes, correlation, sub.nodes.Keys);
    forall v
      ensures v in sub.nodes <==> OnChain(kept, v)
    {
      SubgraphNodes(ts, g, correlation, v);
    }
    forall i | 0 <= i < |kept|
      ensures Chained(kept[i].AsLine(), sub.nodes)
    {
      KeptChains(ts, g, correlation, i);
    }
  }

  lemma {:induction false} ChainKept(t: Trace, nodes: map<NodeId, Node>, kept: map<NodeId, Node>, correlation: string)
    requires Chained(t.AsLine(), nodes) && t.correlation == correlation
    requires kept == map v | v in nodes && nodes[v].correlation == correlation :: nodes[v]
    ensures Chained(t.AsLine(), kept)
  {
    var l := t.AsLine();
    forall j | 0 <= j < |l.stages|
      ensures l.Has(kept, j, true)
    {
      assert l.Has(nodes, j, true);
    }
  }

  lemma {:induction false} SubgraphNodes(ts: seq<Trace>, g: CausalGraph, correlation: string, v: NodeId)
    requires ChainGraph(ts, g)
    ensures v in g.nodes && g.nodes[v].correlation == correlation <==> OnChain(KeepTraces(ts, correlation), v)
  {
    var kept := KeepTraces(ts, correlation);
    if v in g.nodes && g.nodes[v].correlation == correlation {
      var i, j := Locate(ts, g, v);
      assert ts[i] in kept;
      var k :| 0 <= k < |kept| && kept[k] == ts[i];
    }
    if OnChain(kept, v) {
      var k :| 0 <= k < |kept| && v.event == kept[k].event && v.stage in kept[k].AsLine().stages;
      assert kept[k] in kept;
      var i :| 0 <= i < |ts| && ts[i] == kept[k];
      var l := ts[i].AsLine();
      var j :| 0 <= j < |l.stages| && l.stages[j] == v.stage;
      KeyIsNode(ts, g, i, j);
    }
  }
}
