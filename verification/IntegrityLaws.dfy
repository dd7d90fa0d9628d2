/** What the integrity engine reports about any graph, in nodes, links and edges; and what a subgraph keeps. */
module IntegrityLaws {
  import opened Common
  import opened CausalGraphs
  import opened CausalIntegrity
  import opened CorrelationSubgraph

  /** The node names a parent, has no children, and no edge starts or ends at it. */
  ghost predicate StandsAlone(g: CausalGraph, v: NodeId) {
    && v in g.nodes && g.nodes[v].parent != None && g.nodes[v].children == []
    && forall e :: e in g.edges ==> e.source != v && e.target != v
  }

  lemma {:induction false} OrphansListed(g: CausalGraph, vs: seq<NodeId>, x: Issue)
    ensures x in OrphanIssues(g, vs) <==> exists v :: v in vs && StandsAlone(g, v) && x == Issue(Orphan, Warning, [v])
  {
    if vs != [] {
      var n := |vs| - 1;
      OrphansListed(g, vs[..n], x);
      assert vs == vs[..n] + [vs[n]];
      assert IsOrphan(g, vs[n]) <==> StandsAlone(g, vs[n]);
    }
  }

  /** An orphan is reported for exactly the nodes that stand alone. */
  lemma {:induction false} OrphansAre(g: CausalGraph, x: Issue)
    requires g.Valid()
    ensures x in OrphanIssues(g, g.order) <==> exists v :: StandsAlone(g, v) && x == Issue(Orphan, Warning, [v])
  {
    OrphansListed(g, g.order, x);
    assert forall v :: v in g.order <==> v in Elements(g.order);
  }

  /** The node names a parent from which no edge leads to it. */
  ghost predicate Unjoined(g: CausalGraph, v: NodeId, u: NodeId) {
    && v in g.nodes && g.nodes[v].parent == Some(u)
    && forall e :: e in g.edges ==> e.source != u || e.target != v
  }

  /** An edge leads to the node, but none leads on from it to another node, and it is no outcome. */
  ghost predicate Stops(g: CausalGraph, v: NodeId) {
    && v in g.nodes && g.nodes[v].kind != Outcome
    && (exists e :: e in g.edges && e.target == v)
    && (forall e :: e in g.edges && e.source == v ==> e.target !in g.nodes)
    && (forall u :: !Unjoined(g, v, u))
  }

  lemma {:induction false} MissingAtNode(g: CausalGraph, v: NodeId)
    ensures LacksParentEdge(g, v) <==> exists u :: Unjoined(g, v, u)
    ensures LacksParentEdge(g, v) ==> Unjoined(g, v, g.nodes[v].parent.value)
    ensures IsDeadEnd(g, v) <==> Stops(g, v)
  {
    if LacksParentEdge(g, v) {
      assert Unjoined(g, v, g.nodes[v].parent.value);
    }
  }

  /** What is reported as missing at the node. */
  ghost predicate TellsMissing(g: CausalGraph, v: NodeId, x: Issue) {
    || (Stops(g, v) && x == Issue(MissingEdge, Warning, [v]))
    || (exists u :: Unjoined(g, v, u) && x == Issue(MissingEdge, Warning, [v, u]))
  }

  lemma {:induction false} NodeTells(g: CausalGraph, v: NodeId, x: Issue)
    ensures LacksParentEdge(g, v) ==>
      (TellsMissing(g, v, x) <==> x == Issue(MissingEdge, Warning, [v, g.nodes[v].parent.value]))
    ensures IsDeadEnd(g, v) ==> (TellsMissing(g, v, x) <==> x == Issue(MissingEdge, Warning, [v]))
    ensures !LacksParentEdge(g, v) && !IsDeadEnd(g, v) ==> !TellsMissing(g, v, x)
  {
    MissingAtNode(g, v);
    if LacksParentEdge(g, v) {
      assert forall u :: Unjoined(g, v, u) ==> u == g.nodes[v].parent.value;
    }
  }

  lemma {:induction false} MissingListed(g: CausalGraph, vs: seq<NodeId>, x: Issue)
    ensures x in MissingIssues(g, vs) <==> exists v :: v in vs && TellsMissing(g, v, x)
  {
    if vs != [] {
      var n := |vs| - 1;
      MissingListed(g, vs[..n], x);
      assert vs == vs[..n] + [vs[n]];
      NodeTells(g, vs[n], x);
    }
  }

  /** A missing edge is reported for exactly the unjoined nodes, with their parents, and those at which the way
      stops. */
  lemma {:induction false} MissingAre(g: CausalGraph, x: Issue)
    requires g.Valid()
    ensures x in MissingIssues(g, g.order) <==> exists v :: TellsMissing(g, v, x)
  {
    MissingListed(g, g.order, x);
    assert forall v :: v in g.order <==> v in Elements(g.order);
  }

  /** The eight steps from one stage to the next that are possible. */
  ghost predicate MayFollow(from: Kind, to: Kind) {
    || (from == HostEvent && (to == Proposal || to == Blocked))
    || (from == Proposal && (to == Decision || to == Blocked))
    || (from == Decision && (to == Execution || to == Blocked))
    || (from == Execution && to == Outcome)
    || (from == Blocked && to == Outcome)
  }

  /** An impossible transition is reported for exactly the edges between nodes that take no such step. */
  lemma {:induction false} ImpossibleAre(g: CausalGraph, x: Issue)
    ensures x in IllegalIssues(g, g.edges) <==>
      exists e :: e in g.edges && e.source in g.nodes && e.target in g.nodes
                  && !MayFollow(g.nodes[e.source].kind, g.nodes[e.target].kind)
                  && x == Issue(ImpossibleTransition, Critical, [e.source, e.target])
  {
    IllegalIssuesTell(g, g.edges);
    forall e
      ensures IsIllegal(g, e) <==>
        e.source in g.nodes && e.target in g.nodes && !MayFollow(g.nodes[e.source].kind, g.nodes[e.target].kind)
    {
      if e.source in g.nodes && e.target in g.nodes {
        ExpectedIs(g.nodes[e.source].kind, g.nodes[e.target].kind);
      }
    }
  }

  lemma {:induction false} ExpectedIs(from: Kind, to: Kind)
    ensures to in Expected(from) <==> MayFollow(from, to)
  {
  }

  lemma {:induction false} EdgesCounted(es: seq<Edge>, matching: set<NodeId>, e: Edge)
    ensures multiset(KeepEdges(es, matching))[e] == if e.source in matching || e.target in matching
                                                    then multiset(es)[e] else 0
  {
    if es != [] {
      var n := |es| - 1;
      EdgesCounted(es[..n], matching, e);
      assert es == es[..n] + [es[n]];
    }
  }

  /** On any graph the subgraph of a correlation has its nodes, unchanged, and every edge at which one of them stands,
      as often as before. */
  lemma {:induction false} SubgraphKeeps(g: CausalGraph, correlation: string, v: NodeId, e: Edge)
    requires g.Valid()
    ensures forall u :: u in g.order <==> u in g.nodes
    ensures var s := Subgraph(g, correlation);
      && (v in s.nodes <==> v in g.nodes && g.nodes[v].correlation == correlation)
      && (v in s.nodes ==> s.nodes[v] == g.nodes[v])
      && multiset(s.edges)[e] == (if (e.source in g.nodes && g.nodes[e.source].correlation == correlation)
                                     || (e.target in g.nodes && g.nodes[e.target].correlation == correlation)
                                  then multiset(g.edges)[e] else 0)
  {
    SubgraphIsValid(g, correlation);
    EdgesCounted(g.edges, Subgraph(g, correlation).nodes.Keys, e);
  }

  lemma {:induction false} KeptInOrder(g: CausalGraph, correlation: string, order: seq<NodeId>, a: nat, b: nat)
    returns (i: nat, j: nat)
    requires forall v :: v in order ==> v in g.nodes
    requires a < b < |KeepNodes(g, correlation, order)|
    ensures i < j < |order|
    ensures order[i] == KeepNodes(g, correlation, order)[a] && order[j] == KeepNodes(g, correlation, order)[b]
  {
    var n := |order| - 1;
    var before := KeepNodes(g, correlation, order[..n]);
    if b < |before| {
      i, j := KeptInOrder(g, correlation, order[..n], a, b);
    } else {
      assert before[a] in before && before[a] in order[..n];
      i :| 0 <= i < n && order[..n][i] == before[a];
      j := n;
    }
  }

  /** The nodes of a subgraph keep the order that they have in the graph. */
  lemma {:induction false} SubgraphInOrder(g: CausalGraph, correlation: string, a: nat, b: nat) returns (i: nat, j: nat)
    requires g.Valid() && (forall v :: v in g.order <==> v in g.nodes)
    requires a < b < |Subgraph(g, correlation).order|
    ensures i < j < |g.order|
    ensures g.order[i] == Subgraph(g, correlation).order[a] && g.order[j] == Subgraph(g, correlation).order[b]
  {
    i, j := KeptInOrder(g, correlation, g.order, a, b);
  }
}
