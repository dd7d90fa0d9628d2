/**
 The builder: every trace becomes one chain of two to five nodes, with parents set while the nodes are
 made and children wired in a second pass over the edges.
 */
module CausalBuilder {
  import opened Common
  import opened CausalGraphs

  /** The strings that a trace carries, told apart as far as the builder does. */
  datatype Verdict = UnknownVerdict | Allow | Block | Defer | Review | OtherVerdict(text: string)

  datatype FinalStatus = BlockedByPreflight | P4Status(rest: string) | OtherStatus(text: string)

  datatype ExecutionStatus = UnknownStatus | Status(text: string)

  datatype Trace = Trace(event: EventId, correlation: string, preflightValid: bool, p4Verdict: Verdict,
                         executionStatus: ExecutionStatus, finalStatus: FinalStatus)
  {
    predicate IsBlocked() {
      || finalStatus == BlockedByPreflight
      || ((p4Verdict.Block? || p4Verdict.Defer? || p4Verdict.Review?) && finalStatus.P4Status?)
    }

    /** The line of nodes that the trace becomes. */
    ghost function AsLine(): Line {
      Line(event, correlation,
           Stages(preflightValid, IsBlocked(), !p4Verdict.UnknownVerdict?, !executionStatus.UnknownStatus?))
    }
  }

  /** The stages of a trace, in order. */
  ghost function Stages(proposed: bool, blocked: bool, decided: bool, executed: bool): (stages: seq<Kind>)
    ensures |stages| >= 2 && stages[0] == HostEvent && stages[|stages| - 1] == Outcome
  {
    var intro := [HostEvent] + if proposed then [Proposal] else [];
    if blocked then intro + [Blocked, Outcome]
    else
      intro + (if decided then [Decision] else []) + (if executed then [Execution] else []) + [Outcome]
  }

  lemma {:induction false} StagesDistinct(proposed: bool, blocked: bool, decided: bool, executed: bool)
    ensures Distinct(Stages(proposed, blocked, decided, executed))
  {
  }

  /** One event and the stages it went through, to be read as a chain of nodes. */
  datatype Line = Line(event: EventId, correlation: string, stages: seq<Kind>) {
    ghost function Key(j: nat): NodeId
      requires j < |stages|
    {
      NodeId(event, stages[j])
    }

    /** The j-th node of the chain; its child link may still be missing. */
    ghost function NodeAt(j: nat, linked: bool): Node
      requires j < |stages|
    {
      Node(Key(j), correlation, stages[j],
           if j == 0 then None else Some(Key(j - 1)),
           if linked && j + 1 < |stages| then [Key(j + 1)] else [])
    }

    /** The table holds the j-th node. */
    ghost predicate Has(nodes: map<NodeId, Node>, j: nat, linked: bool)
      requires j < |stages|
    {
      Key(j) in nodes && nodes[Key(j)] == NodeAt(j, linked)
    }

    /** The table holds the j-th node as the first pass leaves it: a blocked node already knows its child. */
    ghost predicate Placed(nodes: map<NodeId, Node>, j: nat)
      requires j < |stages|
    {
      Has(nodes, j, stages[j] == Blocked)
    }

    ghost function EdgeAt(j: nat): Edge
      requires j + 1 < |stages|
    {
      Edge(Key(j), Key(j + 1), EdgeInto(stages[j + 1]))
    }

    /** The edges between the first m nodes. */
    ghost function Edges(m: nat): (es: seq<Edge>)
      requires 0 < m <= |stages|
      ensures |es| == m - 1 && forall j :: 0 <= j < m - 1 ==> es[j] == EdgeAt(j)
    {
      seq(m - 1, j requires 0 <= j < m - 1 => EdgeAt(j))
    }

    ghost function AllEdges(): seq<Edge>
      requires stages != []
    {
      Edges(|stages|)
    }
  }

  function EdgeInto(k: Kind): EdgeKind {
    match k
    case Proposal => Proposes
    case Decision => Decides
    case Execution => Executes
    case Blocked => Blocks
    case _ => Results
  }

  ghost predicate UniqueEvents(ts: seq<Trace>) {
    forall i, j :: 0 <= i < j < |ts| ==> ts[i].event != ts[j].event
  }

  ghost function AllEdges(ts: seq<Trace>): seq<Edge> {
    if ts == [] then [] else AllEdges(ts[..|ts| - 1]) + ts[|ts| - 1].AsLine().AllEdges()
  }

  /** A dictionary of nodes that remembers the order of insertion. */
  datatype NodeTable = NodeTable(order: seq<NodeId>, nodes: map<NodeId, Node>) {
    ghost predicate Valid() {
      Distinct(order) && (forall v :: v in order <==> v in nodes) && forall v :: v in nodes ==> nodes[v].id == v
    }

    function Put(n: Node): (t: NodeTable)
      ensures t.nodes == nodes[n.id := n]
      ensures Valid() ==> t.Valid()
    {
      NodeTable(if n.id in nodes then order else order + [n.id], nodes[n.id := n])
    }
  }

  function Root(t: Trace, k: Kind): Node {
    Node(NodeId(t.event, k), t.correlation, k, None, [])
  }

  /** The order of the table after the first m nodes of the chain: new ones go to the end. */
  ghost function WithKeys(order: seq<NodeId>, l: Line, m: nat): seq<NodeId>
    requires m <= |l.stages|
  {
    if m == 0 then order
    else
      var before := WithKeys(order, l, m - 1);
      if l.Key(m - 1) in before then before else before + [l.Key(m - 1)]
  }

  ghost function NodeOrder(ts: seq<Trace>): seq<NodeId> {
    if ts == [] then []
    else
      var l := ts[|ts| - 1].AsLine();
      WithKeys(NodeOrder(ts[..|ts| - 1]), l, |l.stages|)
  }

  /** The first m nodes of the chain were added, and the edges between them. */
  ghost predicate Adds(l: Line, table0: NodeTable, table: NodeTable, edges0: seq<Edge>, edges: seq<Edge>, m: nat) {
    && 0 < m <= |l.stages| && Distinct(l.stages)
    && table.Valid() && table.order == WithKeys(table0.order, l, m)
    && edges == edges0 + l.Edges(m)
    && (forall j {:trigger l.Has(table.nodes, j, false)} :: 0 <= j < m ==> l.Has(table.nodes, j, false))
    && OnlyAdds(l, table0, table)
  }

  /** Nodes off the chain stay as they are, and every new node is on the chain. */
  ghost predicate OnlyAdds(l: Line, table0: NodeTable, table: NodeTable) {
    && (forall v :: v in table.nodes ==> v in table0.nodes || (v.event == l.event && v.stage in l.stages))
    && (forall v :: v in table0.nodes ==>
          v in table.nodes && (v.event != l.event || v.stage !in l.stages ==> table.nodes[v] == table0.nodes[v]))
  }

  /** A node says what it is, and every link it mentions is an edge. */
  ghost predicate SoundNode(v: NodeId, n: Node, es: seq<Edge>) {
    && n.kind == v.stage
    && (n.parent.Some? ==> Linked(es, n.parent.value, v))
    && (forall c :: c in n.children ==> Linked(es, v, c))
  }

  ghost predicate Sound(nodes: map<NodeId, Node>, es: seq<Edge>) {
    forall v {:trigger SoundNode(v, nodes[v], es)} :: v in nodes ==> SoundNode(v, nodes[v], es)
  }

  lemma {:induction false} SoundGrows(v: NodeId, n: Node, es: seq<Edge>, more: seq<Edge>)
    requires SoundNode(v, n, es)
    ensures SoundNode(v, n, es + more)
  {
    assert forall e :: e in es ==> e in es + more;
  }

  /** A trace adds sound nodes: their links are its own edges. */
  lemma {:induction false} TraceIsSound(l: Line, table0: NodeTable, table: NodeTable, es: seq<Edge>)
    requires |l.stages| > 0 && Sound(table0.nodes, es)
    requires Holds(l, table.nodes) && OnlyAdds(l, table0, table)
    ensures Sound(table.nodes, es + l.AllEdges())
  {
    forall v | v in table.nodes
      ensures SoundNode(v, table.nodes[v], es + l.AllEdges())
    {
      if v.event == l.event && v.stage in l.stages {
        var j :| 0 <= j < |l.stages| && l.stages[j] == v.stage;
        assert l.Placed(table.nodes, j);
        var own := l.AllEdges();
        assert j > 0 ==> own[j - 1] == l.EdgeAt(j - 1) && own[j - 1] in es + own;
        assert j + 1 < |l.stages| ==> own[j] == l.EdgeAt(j) && own[j] in es + own;
      } else {
        assert SoundNode(v, table0.nodes[v], es);
        SoundGrows(v, table0.nodes[v], es, l.AllEdges());
      }
    }
  }

  /** The chain is in the table as the first pass leaves it. */
  ghost predicate Holds(l: Line, nodes: map<NodeId, Node>) {
    forall j {:trigger l.Placed(nodes, j)} :: 0 <= j < |l.stages| ==> l.Placed(nodes, j)
  }

  lemma {:induction false} EdgesLonger(l: Line, m: nat)
    requires 0 < m < |l.stages|
    ensures l.Edges(m + 1) == l.Edges(m) + [l.EdgeAt(m - 1)]
  {
  }

  /** Append the next node of the chain, below the previous one. */
  method AddStage(t: Trace, ghost l: Line, kind: Kind, edgeKind: EdgeKind, prev: NodeId, table: NodeTable,
                  edges: seq<Edge>,
                  ghost table0: NodeTable, ghost edges0: seq<Edge>, ghost m: nat)
    returns (table': NodeTable, edges': seq<Edge>, prev': NodeId)
    requires Adds(l, table0, table, edges0, edges, m) && m < |l.stages|
    requires l.event == t.event && l.correlation == t.correlation
    requires kind == l.stages[m] && edgeKind == EdgeInto(kind) && prev == l.Key(m - 1)
    ensures Adds(l, table0, table', edges0, edges', m + 1) && prev' == l.Key(m)
  {
    var node := Root(t, kind).(parent := Some(prev));
    table', edges', prev' := table.Put(node), edges + [Edge(prev, node.id, edgeKind)], node.id;
    EdgesLonger(l, m);
    forall j | 0 <= j <= m
      ensures l.Has(table'.nodes, j, false)
    {
      assert j < m ==> l.Has(table.nodes, j, false);
    }
  }

  lemma {:induction false} WithoutBlocked(l: Line, table0: NodeTable, table: NodeTable, edges0: seq<Edge>,
                                          edges: seq<Edge>)
    requires |l.stages| > 0 && Adds(l, table0, table, edges0, edges, |l.stages|) && Blocked !in l.stages
    ensures Holds(l, table.nodes)
  {
    forall j | 0 <= j < |l.stages|
      ensures l.Placed(table.nodes, j)
    {
      assert l.Has(table.nodes, j, false);
    }
  }

  lemma {:induction false} BlockedIsPlaced(l: Line, m: nat, table0: NodeTable, table: NodeTable,
                                           edges0: seq<Edge>, edges: seq<Edge>, blocked: Node)
    requires m + 2 == |l.stages| && Adds(l, table0, table, edges0, edges, m + 2)
    requires l.stages[m] == Blocked && blocked == l.NodeAt(m, true)
    ensures Holds(l, table.Put(blocked).nodes)
  {
    forall j | 0 <= j < |l.stages|
      ensures l.Placed(table.Put(blocked).nodes, j)
    {
      assert l.Has(table.nodes, j, false);
    }
  }

  /** The two last nodes of a blocked trace. */
  method AddBlocked(t: Trace, ghost l: Line, prev: NodeId, table0: NodeTable, edges0: seq<Edge>,
                    ghost tableB: NodeTable, ghost edgesB: seq<Edge>, ghost m: nat)
    returns (table: NodeTable, edges: seq<Edge>)
    requires Adds(l, tableB, table0, edgesB, edges0, m) && m + 2 == |l.stages|
    requires l.event == t.event && l.correlation == t.correlation
    requires l.stages[m] == Blocked && l.stages[m + 1] == Outcome && prev == l.Key(m - 1)
    ensures table.Valid() && Holds(l, table.nodes) && OnlyAdds(l, tableB, table) && edges == edgesB + l.AllEdges()
    ensures table.order == WithKeys(tableB.order, l, |l.stages|)
  {
    var blocked := Root(t, Blocked).(parent := Some(prev));
    var last;
    table, edges, last := AddStage(t, l, Blocked, Blocks, prev, table0, edges0, tableB, edgesB, m);
    table, edges, last := AddStage(t, l, Outcome, Results, last, table, edges, tableB, edgesB, m + 1);
    BlockedIsPlaced(l, m, tableB, table, edgesB, edges, blocked.(children := [last]));
    table := table.Put(blocked.(children := [last]));
  }

  lemma {:induction false} EndOf(stages: seq<Kind>, m: nat, executed: bool)
    requires m < |stages| && stages[m..] == (if executed then [Execution] else []) + [Outcome]
    ensures |stages| == m + (if executed then 2 else 1) && stages[|stages| - 1] == Outcome
    ensures executed ==> stages[m] == Execution
  {
    var tail := stages[m..];
    assert forall i :: 0 <= i < |tail| ==> tail[i] == stages[m + i];
  }

  /** Execution, if there was any, and the outcome. */
  method AddEnd(t: Trace, ghost l: Line, prev0: NodeId, table0: NodeTable, edges0: seq<Edge>,
                ghost tableB: NodeTable, ghost edgesB: seq<Edge>, ghost m: nat)
    returns (table: NodeTable, edges: seq<Edge>)
    requires Adds(l, tableB, table0, edgesB, edges0, m) && m < |l.stages|
    requires l.event == t.event && l.correlation == t.correlation && prev0 == l.Key(m - 1)
    requires Blocked !in l.stages
    requires l.stages[m..] == (if t.executionStatus.UnknownStatus? then [] else [Execution]) + [Outcome]
    ensures table.Valid() && Holds(l, table.nodes) && OnlyAdds(l, tableB, table) && edges == edgesB + l.AllEdges()
    ensures table.order == WithKeys(tableB.order, l, |l.stages|)
  {
    ghost var n := m;
    EndOf(l.stages, m, !t.executionStatus.UnknownStatus?);
    var prev := prev0;
    table, edges := table0, edges0;
    if !t.executionStatus.UnknownStatus? {
      table, edges, prev := AddStage(t, l, Execution, Executes, prev, table, edges, tableB, edgesB, n);
      n := n + 1;
    }
    table, edges, prev := AddStage(t, l, Outcome, Results, prev, table, edges, tableB, edgesB, n);
    WithoutBlocked(l, tableB, table, edgesB, edges);
  }

  /** The remaining nodes of a trace that was not blocked. */
  method AddRest(t: Trace, ghost l: Line, prev0: NodeId, table0: NodeTable, edges0: seq<Edge>,
                 ghost tableB: NodeTable, ghost edgesB: seq<Edge>, ghost m0: nat)
    returns (table: NodeTable, edges: seq<Edge>)
    requires Adds(l, tableB, table0, edgesB, edges0, m0) && m0 < |l.stages|
    requires l.event == t.event && l.correlation == t.correlation && prev0 == l.Key(m0 - 1)
    requires Blocked !in l.stages
    requires l.stages[m0..] == (if t.p4Verdict.UnknownVerdict? then [] else [Decision])
                               + (if t.executionStatus.UnknownStatus? then [] else [Execution]) + [Outcome]
    ensures table.Valid() && Holds(l, table.nodes) && OnlyAdds(l, tableB, table) && edges == edgesB + l.AllEdges()
    ensures table.order == WithKeys(tableB.order, l, |l.stages|)
  {
    ghost var m := m0;
    var prev := prev0;
    table, edges := table0, edges0;
    if !t.p4Verdict.UnknownVerdict? {
      assert l.stages[m0] == l.stages[m0..][0];
      table, edges, prev := AddStage(t, l, Decision, Decides, prev, table, edges, tableB, edgesB, m);
      m := m + 1;
      assert l.stages[m..] == l.stages[m0..][1..];
    }
    table, edges := AddEnd(t, l, prev, table, edges, tableB, edgesB, m);
  }

  lemma {:induction false} LineDistinct(t: Trace)
    ensures Distinct(t.AsLine().stages)
  {
    StagesDistinct(t.preflightValid, t.IsBlocked(), !t.p4Verdict.UnknownVerdict?, !t.executionStatus.UnknownStatus?);
  }

  lemma {:induction false} HostIsFirst(t: Trace, table0: NodeTable, edges0: seq<Edge>)
    requires table0.Valid()
    ensures Adds(t.AsLine(), table0, table0.Put(Root(t, HostEvent)), edges0, edges0, 1)
  {
    var l := t.AsLine();
    LineDistinct(t);
    assert l.Has(table0.Put(Root(t, HostEvent)).nodes, 0, false);
  }

  /** The line of a trace, from the stage after the introduction on. */
  lemma {:induction false} AfterIntroduction(t: Trace, m: nat)
    requires m == if t.preflightValid then 2 else 1
    ensures var s := t.AsLine().stages;
      && m < |s| && (t.preflightValid ==> s[1] == Proposal)
      && (t.IsBlocked() ==> |s| == m + 2 && s[m] == Blocked && s[m + 1] == Outcome)
      && (!t.IsBlocked() ==>
            && Blocked !in s
            && s[m..] == (if t.p4Verdict.UnknownVerdict? then [] else [Decision])
                         + (if t.executionStatus.UnknownStatus? then [] else [Execution]) + [Outcome])
  {
  }

  /** The first pass for one trace. */
  method AddTrace(t: Trace, table0: NodeTable, edges0: seq<Edge>) returns (table: NodeTable, edges: seq<Edge>)
    requires table0.Valid()
    ensures table.Valid() && Holds(t.AsLine(), table.nodes) && OnlyAdds(t.AsLine(), table0, table)
    ensures edges == edges0 + t.AsLine().AllEdges()
    ensures table.order == WithKeys(table0.order, t.AsLine(), |t.AsLine().stages|)
  {
    ghost var m, l := 1, t.AsLine();
    var host := Root(t, HostEvent);
    table, edges := table0.Put(host), edges0;
    var prev := host.id;
    HostIsFirst(t, table0, edges0);
    AfterIntroduction(t, if t.preflightValid then 2 else 1);
    if t.preflightValid {
      table, edges, prev := AddStage(t, l, Proposal, Proposes, prev, table, edges, table0, edges0, m);
      m := m + 1;
    }
    if t.IsBlocked() {
      table, edges := AddBlocked(t, l, prev, table, edges, table0, edges0, m);
    } else {
      table, edges := AddRest(t, l, prev, table, edges, table0, edges0, m);
    }
  }

  /** The node belongs to the chain of one of the traces. */
  ghost predicate OnChain(ts: seq<Trace>, v: NodeId) {
    exists i :: 0 <= i < |ts| && v.event == ts[i].event && v.stage in ts[i].AsLine().stages
  }

  /** The whole chain is in the graph: kinds, parents and children agree. */
  ghost predicate Chained(l: Line, nodes: map<NodeId, Node>) {
    forall j {:trigger l.Has(nodes, j, true)} :: 0 <= j < |l.stages| ==> l.Has(nodes, j, true)
  }

  /** What every built graph satisfies, also when several traces share an event. */
  ghost predicate SoundGraph(ts: seq<Trace>, g: CausalGraph) {
    && g.Valid() && g.order == NodeOrder(ts)
    && g.edges == AllEdges(ts)
    && (forall v :: v in g.nodes <==> OnChain(ts, v))
    && Sound(g.nodes, g.edges)
  }

  /** What the builder promises for unique events: one chain a trace and nothing else. */
  ghost predicate ChainGraph(ts: seq<Trace>, g: CausalGraph) {
    && g.Valid()
    && g.edges == AllEdges(ts)
    && (forall v :: v in g.nodes <==> OnChain(ts, v))
    && (forall i {:trigger Chained(ts[i].AsLine(), g.nodes)} :: 0 <= i < |ts| ==> Chained(ts[i].AsLine(), g.nodes))
  }

  lemma {:induction false} EdgeOrigin(ts: seq<Trace>, e: Edge) returns (i: nat, j: nat)
    requires e in AllEdges(ts)
    ensures i < |ts| && j + 1 < |ts[i].AsLine().stages| && e == ts[i].AsLine().EdgeAt(j)
  {
    var n := |ts| - 1;
    if e in AllEdges(ts[..n]) {
      i, j := EdgeOrigin(ts[..n], e);
    } else {
      var es := ts[n].AsLine().AllEdges();
      var k :| 0 <= k < |es| && es[k] == e;
      i, j := n, k;
    }
  }

  lemma {:induction false} OwnEdgeListed(l: Line, j: nat)
    requires j + 1 < |l.stages|
    ensures l.EdgeAt(j) in l.AllEdges()
  {
    assert l.AllEdges()[j] == l.EdgeAt(j);
  }

  lemma {:induction false} EdgesGrow(ts: seq<Trace>, e: Edge)
    requires ts != []
    ensures e in AllEdges(ts) <==> e in AllEdges(ts[..|ts| - 1]) || e in ts[|ts| - 1].AsLine().AllEdges()
  {
  }

  lemma {:induction false} LineListed(ts: seq<Trace>, i: nat, own: seq<Edge>, e: Edge)
    requires i < |ts| && own == ts[i].AsLine().AllEdges() && e in own
    ensures e in AllEdges(ts)
  {
    EdgesGrow(ts, e);
    if i < |ts| - 1 {
      LineListed(ts[..|ts| - 1], i, own, e);
    }
  }

  lemma {:induction false} EdgeListed(ts: seq<Trace>, i: nat, j: nat)
    requires i < |ts| && j + 1 < |ts[i].AsLine().stages|
    ensures ts[i].AsLine().EdgeAt(j) in AllEdges(ts)
  {
    OwnEdgeListed(ts[i].AsLine(), j);
    LineListed(ts, i, ts[i].AsLine().AllEdges(), ts[i].AsLine().EdgeAt(j));
  }

  /** The j-th node after the edges so far were wired. */
  ghost predicate WiredAt(l: Line, nodes: map<NodeId, Node>, done: seq<Edge>, j: nat)
    requires j < |l.stages|
  {
    l.Has(nodes, j, l.stages[j] == Blocked || (j + 1 < |l.stages| && l.EdgeAt(j) in done))
  }

  ghost predicate Wired(l: Line, nodes: map<NodeId, Node>, done: seq<Edge>) {
    forall j {:trigger WiredAt(l, nodes, done, j)} :: 0 <= j < |l.stages| ==> WiredAt(l, nodes, done, j)
  }

  /** Following one edge adds the child to its source, unless it is there already. */
  function Wire(table: NodeTable, e: Edge): NodeTable {
    if e.source in table.nodes && e.target in table.nodes && e.target !in table.nodes[e.source].children then
      table.Put(table.nodes[e.source].(children := table.nodes[e.source].children + [e.target]))
    else table
  }

  /** An edge of the chains is wired into the one node it leaves. */
  lemma {:induction false} SourceIsUnique(ts: seq<Trace>, e: Edge, i: nat, j: nat)
    requires UniqueEvents(ts) && e in AllEdges(ts) && i < |ts| && j < |ts[i].AsLine().stages|
    requires e.source == ts[i].AsLine().Key(j)
    ensures j + 1 < |ts[i].AsLine().stages| && e == ts[i].AsLine().EdgeAt(j)
  {
    var i', j' := EdgeOrigin(ts, e);
    assert ts[i'].event == e.source.event == ts[i].event;
    assert i' == i;
    LineDistinct(ts[i]);
    SameKey(ts[i].AsLine(), j, j');
  }

  lemma {:induction false} SameKey(l: Line, j: nat, k: nat)
    requires Distinct(l.stages) && j < |l.stages| && k < |l.stages| && l.Key(j) == l.Key(k)
    ensures j == k
  {
  }

  lemma {:induction false} WireNode(l: Line, table: NodeTable, done: seq<Edge>, e: Edge, j: nat)
    requires table.Valid() && j < |l.stages| && WiredAt(l, table.nodes, done, j) && e.target in table.nodes
    requires e.source == l.Key(j) ==> j + 1 < |l.stages| && e == l.EdgeAt(j)
    ensures WiredAt(l, Wire(table, e).nodes, done + [e], j)
  {
  }

  lemma {:induction false} WireStep(ts: seq<Trace>, table: NodeTable, done: seq<Edge>, e: Edge, i: nat)
    requires UniqueEvents(ts) && table.Valid() && e in AllEdges(ts) && i < |ts|
    requires Wired(ts[i].AsLine(), table.nodes, done)
    requires e.target in table.nodes
    ensures Wired(ts[i].AsLine(), Wire(table, e).nodes, done + [e])
  {
    var l := ts[i].AsLine();
    forall j | 0 <= j < |l.stages|
      ensures WiredAt(l, Wire(table, e).nodes, done + [e], j)
    {
      if e.source == l.Key(j) {
        SourceIsUnique(ts, e, i, j);
      }
      WireNode(l, table, done, e, j);
    }
  }

  lemma {:induction false} KeepsHeld(l: Line, other: Line, table0: NodeTable, table: NodeTable)
    requires Holds(l, table0.nodes) && OnlyAdds(other, table0, table) && l.event != other.event
    ensures Holds(l, table.nodes)
  {
    forall j | 0 <= j < |l.stages|
      ensures l.Placed(table.nodes, j)
    {
      assert l.Placed(table0.nodes, j);
    }
  }

  lemma {:induction false} HeldIsOnChain(ts: seq<Trace>, i: nat, nodes: map<NodeId, Node>, v: NodeId)
    requires i < |ts| && Holds(ts[i].AsLine(), nodes)
    requires v.event == ts[i].event && v.stage in ts[i].AsLine().stages
    ensures v in nodes
  {
    var l := ts[i].AsLine();
    var j :| 0 <= j < |l.stages| && l.stages[j] == v.stage;
    assert l.Placed(nodes, j);
  }

  ghost predicate ChainsHeld(ts: seq<Trace>, n: nat, nodes: map<NodeId, Node>)
    requires n <= |ts|
  {
    UniqueEvents(ts) ==> forall i {:trigger Holds(ts[i].AsLine(), nodes)} :: 0 <= i < n ==> Holds(ts[i].AsLine(), nodes)
  }

  ghost predicate OnlyChains(ts: seq<Trace>, nodes: map<NodeId, Node>) {
    forall v :: v in nodes <==> OnChain(ts, v)
  }

  /** The first n traces are placed, and nothing else. */
  ghost predicate AllPlaced(ts: seq<Trace>, n: nat, nodes: map<NodeId, Node>)
    requires n <= |ts|
  {
    OnlyChains(ts[..n], nodes) && Sound(nodes, AllEdges(ts[..n])) && ChainsHeld(ts, n, nodes)
  }

  lemma {:induction false} KeysGrow(ts: seq<Trace>, n: nat, table0: NodeTable, table: NodeTable, v: NodeId)
    requires n < |ts| && (v in table0.nodes <==> OnChain(ts[..n], v))
    requires Holds(ts[n].AsLine(), table.nodes) && OnlyAdds(ts[n].AsLine(), table0, table)
    ensures v in table.nodes <==> OnChain(ts[..n + 1], v)
  {
    OnChainGrows(ts, n, v);
    if v.event == ts[n].event && v.stage in ts[n].AsLine().stages {
      HeldIsOnChain(ts, n, table.nodes, v);
    }
  }

  lemma {:induction false} StillHeld(ts: seq<Trace>, n: nat, table0: NodeTable, table: NodeTable)
    requires n < |ts| && ChainsHeld(ts, n, table0.nodes)
    requires Holds(ts[n].AsLine(), table.nodes) && OnlyAdds(ts[n].AsLine(), table0, table)
    ensures ChainsHeld(ts, n + 1, table.nodes)
  {
    forall i | 0 <= i < n && UniqueEvents(ts)
      ensures Holds(ts[i].AsLine(), table.nodes)
    {
      KeepsHeld(ts[i].AsLine(), ts[n].AsLine(), table0, table);
    }
  }

  lemma {:induction false} PlaceStep(ts: seq<Trace>, n: nat, table0: NodeTable, table: NodeTable)
    requires n < |ts| && AllPlaced(ts, n, table0.nodes)
    requires Holds(ts[n].AsLine(), table.nodes) && OnlyAdds(ts[n].AsLine(), table0, table)
    ensures AllPlaced(ts, n + 1, table.nodes)
  {
    TraceIsSound(ts[n].AsLine(), table0, table, AllEdges(ts[..n]));
    OneTraceMore(ts, n);
    forall v
      ensures v in table.nodes <==> OnChain(ts[..n + 1], v)
    {
      KeysGrow(ts, n, table0, table, v);
    }
    StillHeld(ts, n, table0, table);
  }

  lemma {:induction false} OneTraceMore(ts: seq<Trace>, n: nat)
    requires n < |ts|
    ensures AllEdges(ts[..n + 1]) == AllEdges(ts[..n]) + ts[n].AsLine().AllEdges()
    ensures NodeOrder(ts[..n + 1]) == WithKeys(NodeOrder(ts[..n]), ts[n].AsLine(), |ts[n].AsLine().stages|)
  {
    assert ts[..n + 1][..n] == ts[..n];
  }

  /** The first pass after n traces. */
  ghost predicate Placing(ts: seq<Trace>, n: nat, table: NodeTable, edges: seq<Edge>)
    requires n <= |ts|
  {
    table.Valid() && edges == AllEdges(ts[..n]) && AllPlaced(ts, n, table.nodes) && table.order == NodeOrder(ts[..n])
  }

  lemma {:induction false} PlacingOn(ts: seq<Trace>, n: nat, table0: NodeTable, edges0: seq<Edge>,
                                     table: NodeTable, edges: seq<Edge>)
    requires n < |ts| && Placing(ts, n, table0, edges0) && table.Valid()
    requires Holds(ts[n].AsLine(), table.nodes) && OnlyAdds(ts[n].AsLine(), table0, table)
    requires edges == edges0 + ts[n].AsLine().AllEdges()
    requires table.order == WithKeys(table0.order, ts[n].AsLine(), |ts[n].AsLine().stages|)
    ensures Placing(ts, n + 1, table, edges)
  {
    PlaceStep(ts, n, table0, table);
    OneTraceMore(ts, n);
  }

  lemma {:induction false} PlacedAll(ts: seq<Trace>, table: NodeTable, edges: seq<Edge>)
    requires Placing(ts, |ts|, table, edges)
    ensures edges == AllEdges(ts) && table.order == NodeOrder(ts)
  {
    assert ts[..|ts|] == ts;
  }

  /** The first pass: the nodes on the chains, and the edges of the chains, in trace order. */
  method PlaceNodes(ts: seq<Trace>) returns (table: NodeTable, edges: seq<Edge>)
    ensures table.Valid() && edges == AllEdges(ts) && AllPlaced(ts, |ts|, table.nodes)
    ensures table.order == NodeOrder(ts)
  {
    table, edges := NodeTable([], map[]), [];
    for n := 0 to |ts|
      invariant Placing(ts, n, table, edges)
    {
      var next, more := AddTrace(ts[n], table, edges);
      PlacingOn(ts, n, table, edges, next, more);
      table, edges := next, more;
    }
    PlacedAll(ts, table, edges);
  }

  lemma {:induction false} OnChainGrows(ts: seq<Trace>, n: nat, v: NodeId)
    requires n < |ts|
    ensures OnChain(ts[..n + 1], v) <==>
      OnChain(ts[..n], v) || (v.event == ts[n].event && v.stage in ts[n].AsLine().stages)
  {
    var before, after := ts[..n], ts[..n + 1];
    assert forall i :: 0 <= i < n ==> before[i] == after[i] == ts[i];
    assert after[n] == ts[n];
  }

  /** Every chain is in the table, wired as far as the edges seen so far go. */
  ghost predicate AllWired(ts: seq<Trace>, nodes: map<NodeId, Node>, done: seq<Edge>) {
    && OnlyChains(ts, nodes)
    && Sound(nodes, AllEdges(ts))
    && (UniqueEvents(ts) ==>
          forall i {:trigger Wired(ts[i].AsLine(), nodes, done)} :: 0 <= i < |ts| ==>
            Wired(ts[i].AsLine(), nodes, done))
  }

  lemma {:induction false} PlacedIsWired(ts: seq<Trace>, nodes: map<NodeId, Node>)
    requires AllPlaced(ts, |ts|, nodes)
    ensures AllWired(ts, nodes, [])
  {
    assert ts[..|ts|] == ts;
    forall i | 0 <= i < |ts| && UniqueEvents(ts)
      ensures Wired(ts[i].AsLine(), nodes, [])
    {
      var l := ts[i].AsLine();
      assert Holds(l, nodes);
      forall j | 0 <= j < |l.stages|
        ensures WiredAt(l, nodes, [], j)
      {
        assert l.Placed(nodes, j);
      }
    }
  }

  lemma {:induction false} WireIsSound(table: NodeTable, e: Edge, es: seq<Edge>)
    requires table.Valid() && Sound(table.nodes, es) && e in es
    ensures Sound(Wire(table, e).nodes, es)
  {
    assert Linked(es, e.source, e.target);
    forall v | v in Wire(table, e).nodes
      ensures SoundNode(v, Wire(table, e).nodes[v], es)
    {
      assert SoundNode(v, table.nodes[v], es);
    }
  }

  lemma {:induction false} AllWireStep(ts: seq<Trace>, table: NodeTable, done: seq<Edge>, e: Edge)
    requires table.Valid() && AllWired(ts, table.nodes, done) && e in AllEdges(ts)
    ensures AllWired(ts, Wire(table, e).nodes, done + [e])
  {
    EdgeEndsOnChain(ts, e);
    WireIsSound(table, e, AllEdges(ts));
    forall i | 0 <= i < |ts| && UniqueEvents(ts)
      ensures Wired(ts[i].AsLine(), Wire(table, e).nodes, done + [e])
    {
      WireStep(ts, table, done, e, i);
    }
  }

  lemma {:induction false} WiredIsChained(ts: seq<Trace>, i: nat, nodes: map<NodeId, Node>)
    requires i < |ts| && Wired(ts[i].AsLine(), nodes, AllEdges(ts))
    ensures Chained(ts[i].AsLine(), nodes)
  {
    var l := ts[i].AsLine();
    forall j | 0 <= j < |l.stages|
      ensures l.Has(nodes, j, true)
    {
      assert WiredAt(l, nodes, AllEdges(ts), j);
      if j + 1 < |l.stages| {
        EdgeListed(ts, i, j);
      }
    }
  }

  lemma {:induction false} EdgeEndsOnChain(ts: seq<Trace>, e: Edge)
    requires e in AllEdges(ts)
    ensures OnChain(ts, e.source) && OnChain(ts, e.target)
  {
    var i, j := EdgeOrigin(ts, e);
  }

  /** The second pass after some edges: nothing moved. */
  ghost predicate Wiring(ts: seq<Trace>, table0: NodeTable, table: NodeTable, done: seq<Edge>) {
    table.Valid() && AllWired(ts, table.nodes, done) && table.order == table0.order
  }

  lemma {:induction false} WiringOn(ts: seq<Trace>, table0: NodeTable, table: NodeTable, edges: seq<Edge>, k: nat)
    requires k < |edges| && edges == AllEdges(ts) && Wiring(ts, table0, table, edges[..k])
    ensures Wiring(ts, table0, Wire(table, edges[k]), edges[..k + 1])
  {
    TakeOneMore(edges, k);
    AllWireStep(ts, table, edges[..k], edges[k]);
  }

  /** The second pass: every edge tells its source about the child. */
  method WireChildren(ghost ts: seq<Trace>, table0: NodeTable, edges: seq<Edge>) returns (table: NodeTable)
    requires table0.Valid() && AllWired(ts, table0.nodes, []) && edges == AllEdges(ts)
    ensures table.Valid() && AllWired(ts, table.nodes, edges) && table.order == table0.order
  {
    table := table0;
    for k := 0 to |edges|
      invariant Wiring(ts, table0, table, edges[..k])
    {
      WiringOn(ts, table0, table, edges, k);
      table := Wire(table, edges[k]);
    }
    assert edges[..|edges|] == edges;
  }

  lemma {:induction false} TableIsGraph(ts: seq<Trace>, table: NodeTable, g: CausalGraph)
    requires table.Valid() && AllWired(ts, table.nodes, AllEdges(ts)) && table.order == NodeOrder(ts)
    requires g == CausalGraph(table.order, table.nodes, AllEdges(ts))
    ensures SoundGraph(ts, g) && (UniqueEvents(ts) ==> ChainGraph(ts, g))
  {
    assert Elements(g.order) == g.nodes.Keys;
    if UniqueEvents(ts) {
      forall i | 0 <= i < |ts|
        ensures Chained(ts[i].AsLine(), g.nodes)
      {
        assert Wired(ts[i].AsLine(), g.nodes, AllEdges(ts));
        WiredIsChained(ts, i, g.nodes);
      }
    }
  }

  /** Whatever the traces, nodes and edges are those of the chains in their order, and links and edges agree. With one
      trace for each event, the graph is one chain for each trace and nothing else. */
  method Build(ts: seq<Trace>) returns (g: CausalGraph)
    ensures SoundGraph(ts, g) && (UniqueEvents(ts) ==> ChainGraph(ts, g))
  {
    var table, edges := PlaceNodes(ts);
    PlacedIsWired(ts, table.nodes);
    table := WireChildren(ts, table, edges);
    g := CausalGraph(table.order, table.nodes, edges);
    TableIsGraph(ts, table, g);
  }
}
