/** What becomes of a trace, said in the strings that it carries: its nodes, their parents and its edges. */
module TraceStages {
  import opened Common
  import opened CausalGraphs
  import opened CausalBuilder
  import opened CausalHealth

  lemma {:induction false} NodeIffStage(ts: seq<Trace>, g: CausalGraph, i: nat, k: Kind)
    requires UniqueEvents(ts) && SoundGraph(ts, g) && i < |ts|
    ensures NodeId(ts[i].event, k) in g.nodes <==> k in ts[i].AsLine().stages
  {
    var v := NodeId(ts[i].event, k);
    if v in g.nodes {
      assert OnChain(ts, v);
      var j :| 0 <= j < |ts| && v.event == ts[j].event && v.stage in ts[j].AsLine().stages;
      assert j == i;
    }
    if k in ts[i].AsLine().stages {
      assert OnChain(ts, v);
    }
  }

  lemma {:induction false} StagesHold(proposed: bool, blocked: bool, decided: bool, executed: bool, k: Kind)
    ensures k in Stages(proposed, blocked, decided, executed) <==>
      || k == HostEvent || k == Outcome
      || (k == Proposal && proposed) || (k == Blocked && blocked)
      || (k == Decision && !blocked && decided) || (k == Execution && !blocked && executed)
  {
  }

  lemma {:induction false} StagesOfTrace(t: Trace)
    ensures t.AsLine().stages
      == Stages(t.preflightValid,
                || t.finalStatus == BlockedByPreflight
                || (t.finalStatus.P4Status?
                    && (t.p4Verdict == Block || t.p4Verdict == Defer || t.p4Verdict == Review)),
                t.p4Verdict != UnknownVerdict, t.executionStatus != UnknownStatus)
  {
  }

  lemma {:induction false} StageIff(t: Trace, k: Kind)
    ensures var blocked := || t.finalStatus == BlockedByPreflight
                           || (t.finalStatus.P4Status?
                               && (t.p4Verdict == Block || t.p4Verdict == Defer || t.p4Verdict == Review));
      k in t.AsLine().stages <==>
        || k == HostEvent || k == Outcome
        || (k == Proposal && t.preflightValid) || (k == Blocked && blocked)
        || (k == Decision && !blocked && t.p4Verdict != UnknownVerdict)
        || (k == Execution && !blocked && t.executionStatus != UnknownStatus)
  {
    StagesOfTrace(t);
    StagesHold(t.preflightValid, t.IsBlocked(), t.p4Verdict != UnknownVerdict, t.executionStatus != UnknownStatus, k);
  }

  /** A trace has a blocked node exactly if preflight stopped it, or a verdict to block, defer or review did. */
  lemma {:induction false} BlockedIff(ts: seq<Trace>, g: CausalGraph, i: nat)
    requires UniqueEvents(ts) && SoundGraph(ts, g) && i < |ts|
    ensures var t := ts[i];
      NodeId(t.event, Blocked) in g.nodes <==>
        || t.finalStatus == BlockedByPreflight
        || (t.finalStatus.P4Status? && (t.p4Verdict == Block || t.p4Verdict == Defer || t.p4Verdict == Review))
  {
    NodeIffStage(ts, g, i, Blocked);
    StageIff(ts[i], Blocked);
  }

  lemma {:induction false} NodeIff(ts: seq<Trace>, g: CausalGraph, i: nat, k: Kind)
    requires UniqueEvents(ts) && SoundGraph(ts, g) && i < |ts|
    ensures var t := ts[i]; var blocked := NodeId(t.event, Blocked) in g.nodes;
      NodeId(t.event, k) in g.nodes <==>
        || k == HostEvent || k == Outcome
        || (k == Proposal && t.preflightValid) || (k == Blocked && blocked)
        || (k == Decision && !blocked && t.p4Verdict != UnknownVerdict)
        || (k == Execution && !blocked && t.executionStatus != UnknownStatus)
  {
    NodeIffStage(ts, g, i, k);
    BlockedIff(ts, g, i);
    StageIff(ts[i], k);
  }

  /** Which other nodes a trace has: a blocked one neither a decision nor an execution. */
  lemma {:induction false} NodesOfTrace(ts: seq<Trace>, g: CausalGraph, i: nat)
    requires UniqueEvents(ts) && SoundGraph(ts, g) && i < |ts|
    ensures var t, e := ts[i], ts[i].event;
      && NodeId(e, HostEvent) in g.nodes && NodeId(e, Outcome) in g.nodes
      && (NodeId(e, Proposal) in g.nodes <==> t.preflightValid)
      && (NodeId(e, Decision) in g.nodes <==> NodeId(e, Blocked) !in g.nodes && t.p4Verdict != UnknownVerdict)
      && (NodeId(e, Execution) in g.nodes <==>
            NodeId(e, Blocked) !in g.nodes && t.executionStatus != UnknownStatus)
  {
    NodeIff(ts, g, i, HostEvent);
    NodeIff(ts, g, i, Outcome);
    NodeIff(ts, g, i, Proposal);
    NodeIff(ts, g, i, Decision);
    NodeIff(ts, g, i, Execution);
  }

  /** The node lies under the given parent, as a node of the trace. */
  ghost predicate Under(g: CausalGraph, t: Trace, k: Kind, parent: Option<Kind>) {
    var v := NodeId(t.event, k);
    && v in g.nodes
    && g.nodes[v].kind == k && g.nodes[v].correlation == t.correlation
    && g.nodes[v].parent == if parent == None then None else Some(NodeId(t.event, parent.value))
  }

  /** The stage stands in the list right behind the other one, or at its head. */
  ghost predicate ComesAfter(stages: seq<Kind>, k: Kind, parent: Option<Kind>) {
    if parent == None then stages != [] && stages[0] == k
    else exists j {:trigger stages[j]} :: 0 < j < |stages| && stages[j] == k && stages[j - 1] == parent.value
  }

  lemma {:induction false} StageIsUnder(ts: seq<Trace>, g: CausalGraph, i: nat, k: Kind, parent: Option<Kind>)
    requires ChainGraph(ts, g) && i < |ts| && ComesAfter(ts[i].AsLine().stages, k, parent)
    ensures Under(g, ts[i], k, parent)
  {
    var stages := ts[i].AsLine().stages;
    if parent == None {
      KeyIsNode(ts, g, i, 0);
    } else {
      var j :| 0 < j < |stages| && stages[j] == k && stages[j - 1] == parent.value;
      KeyIsNode(ts, g, i, j);
    }
  }

  lemma {:induction false} StagesFollow(proposed: bool, blocked: bool, decided: bool, executed: bool)
    ensures var s := Stages(proposed, blocked, decided, executed);
      var intro := if proposed then Proposal else HostEvent;
      var verdict := if decided then Decision else intro;
      && ComesAfter(s, HostEvent, None)
      && (proposed ==> ComesAfter(s, Proposal, Some(HostEvent)))
      && (blocked ==> ComesAfter(s, Blocked, Some(intro)) && ComesAfter(s, Outcome, Some(Blocked)))
      && (!blocked && decided ==> ComesAfter(s, Decision, Some(intro)))
      && (!blocked && executed ==> ComesAfter(s, Execution, Some(verdict)))
      && (!blocked ==> ComesAfter(s, Outcome, Some(if executed then Execution else verdict)))
  {
    var s := Stages(proposed, blocked, decided, executed);
    var p := if proposed then 1 else 0;
    var d := if decided then p + 1 else p;
    assert proposed ==> s[1] == Proposal;
    assert blocked ==> s[p + 1] == Blocked && s[p + 2] == Outcome;
    assert !blocked && decided ==> s[p + 1] == Decision;
    assert !blocked && executed ==> s[d + 1] == Execution && s[d + 2] == Outcome;
    assert !blocked && !executed ==> s[d + 1] == Outcome;
  }

  lemma {:induction false} AllUnder(ts: seq<Trace>, g: CausalGraph, i: nat, stages: seq<Kind>)
    requires ChainGraph(ts, g) && i < |ts| && stages == ts[i].AsLine().stages
    ensures forall k, parent :: ComesAfter(stages, k, parent) ==> Under(g, ts[i], k, parent)
  {
    forall k, parent | ComesAfter(stages, k, parent)
      ensures Under(g, ts[i], k, parent)
    {
      StageIsUnder(ts, g, i, k, parent);
    }
  }

  lemma {:induction false} FollowInTrace(t: Trace)
    ensures var s := t.AsLine().stages;
      var stopped := || t.finalStatus == BlockedByPreflight
                     || (t.finalStatus.P4Status?
                         && (t.p4Verdict == Block || t.p4Verdict == Defer || t.p4Verdict == Review));
      var intro := if t.preflightValid then Proposal else HostEvent;
      var verdict := if t.p4Verdict != UnknownVerdict then Decision else intro;
      && ComesAfter(s, HostEvent, None)
      && (t.preflightValid ==> ComesAfter(s, Proposal, Some(HostEvent)))
      && (stopped ==> ComesAfter(s, Blocked, Some(intro)) && ComesAfter(s, Outcome, Some(Blocked)))
      && (!stopped && t.p4Verdict != UnknownVerdict ==> ComesAfter(s, Decision, Some(intro)))
      && (!stopped && t.executionStatus != UnknownStatus ==> ComesAfter(s, Execution, Some(verdict)))
      && (!stopped ==>
            ComesAfter(s, Outcome, Some(if t.executionStatus != UnknownStatus then Execution else verdict)))
  {
    StagesOfTrace(t);
    StagesFollow(t.preflightValid, t.IsBlocked(), t.p4Verdict != UnknownVerdict, t.executionStatus != UnknownStatus);
  }

  /** Every node but the host lies under the last earlier stage that the trace went through. */
  lemma {:induction false} ParentsOfTrace(ts: seq<Trace>, g: CausalGraph, i: nat)
    requires ChainGraph(ts, g) && i < |ts|
    ensures var t := ts[i];
      var stopped := || t.finalStatus == BlockedByPreflight
                     || (t.finalStatus.P4Status?
                         && (t.p4Verdict == Block || t.p4Verdict == Defer || t.p4Verdict == Review));
      var intro := if t.preflightValid then Proposal else HostEvent;
      var verdict := if t.p4Verdict != UnknownVerdict then Decision else intro;
      && Under(g, t, HostEvent, None)
      && (t.preflightValid ==> Under(g, t, Proposal, Some(HostEvent)))
      && (stopped ==> Under(g, t, Blocked, Some(intro)) && Under(g, t, Outcome, Some(Blocked)))
      && (!stopped && t.p4Verdict != UnknownVerdict ==> Under(g, t, Decision, Some(intro)))
      && (!stopped && t.executionStatus != UnknownStatus ==> Under(g, t, Execution, Some(verdict)))
      && (!stopped ==>
            Under(g, t, Outcome, Some(if t.executionStatus != UnknownStatus then Execution else verdict)))
  {
    AllUnder(ts, g, i, ts[i].AsLine().stages);
    FollowInTrace(ts[i]);
  }

  lemma {:induction false} EdgeIsParent(ts: seq<Trace>, g: CausalGraph, e: Edge)
    requires ChainGraph(ts, g) && e in g.edges
    ensures e.target in g.nodes && g.nodes[e.target].parent == Some(e.source) && e.kind == EdgeInto(e.target.stage)
  {
    var i, j := EdgeOrigin(ts, e);
    KeyIsNode(ts, g, i, j + 1);
  }

  lemma {:induction false} ParentIsEdge(ts: seq<Trace>, g: CausalGraph, u: NodeId, v: NodeId)
    requires ChainGraph(ts, g) && v in g.nodes && g.nodes[v].parent == Some(u)
    ensures Edge(u, v, EdgeInto(v.stage)) in g.edges
  {
    var i, j := Locate(ts, g, v);
    EdgeListed(ts, i, j - 1);
    assert ts[i].AsLine().EdgeAt(j - 1) == Edge(u, v, EdgeInto(v.stage));
  }

  /** The edges of a built graph are the links of its nodes to their parents, named after the stage they lead to. */
  lemma {:induction false} EdgesAreParents(ts: seq<Trace>, g: CausalGraph, u: NodeId, v: NodeId, kind: EdgeKind)
    requires ChainGraph(ts, g)
    ensures Edge(u, v, kind) in g.edges <==>
      && v in g.nodes && g.nodes[v].parent == Some(u)
      && kind == (if v.stage == Proposal then Proposes else if v.stage == Decision then Decides
                  else if v.stage == Execution then Executes else if v.stage == Blocked then Blocks else Results)
  {
    if Edge(u, v, kind) in g.edges {
      EdgeIsParent(ts, g, Edge(u, v, kind));
    }
    if v in g.nodes && g.nodes[v].parent == Some(u) {
      ParentIsEdge(ts, g, u, v);
    }
  }

  /** The nodes of the chains, one chain after the other. */
  ghost function ChainByChain(ts: seq<Trace>): seq<NodeId> {
    if ts == [] then [] else ChainByChain(ts[..|ts| - 1]) + Keys(ts[|ts| - 1].AsLine())
  }

  lemma {:induction false} ChainsHold(ts: seq<Trace>, v: NodeId)
    requires v in ChainByChain(ts)
    ensures exists i :: 0 <= i < |ts| && ts[i].event == v.event
  {
    var n := |ts| - 1;
    if v in ChainByChain(ts[..n]) {
      ChainsHold(ts[..n], v);
      var i :| 0 <= i < n && ts[..n][i].event == v.event;
      assert ts[i].event == v.event;
    } else {
      assert v in Keys(ts[n].AsLine());
    }
  }

  lemma {:induction false} NewKeys(order: seq<NodeId>, l: Line, m: nat)
    requires m <= |l.stages| && Distinct(l.stages) && forall v :: v in order ==> v.event != l.event
    ensures WithKeys(order, l, m) == order + Keys(l)[..m]
  {
    if m > 0 {
      NewKeys(order, l, m - 1);
      var ks := Keys(l);
      assert ks[..m] == ks[..m - 1] + [ks[m - 1]];
      forall j | 0 <= j < m - 1
        ensures ks[j] != ks[m - 1]
      {
        assert l.stages[j] != l.stages[m - 1];
      }
    }
  }

  /** The nodes of a built graph stand trace by trace, and within a trace in the order of its stages. */
  lemma {:induction false} NodesInOrder(ts: seq<Trace>)
    requires UniqueEvents(ts)
    ensures NodeOrder(ts) == ChainByChain(ts)
  {
    if ts != [] {
      var n := |ts| - 1;
      NodesInOrder(ts[..n]);
      var order, l := ChainByChain(ts[..n]), ts[n].AsLine();
      forall v | v in order
        ensures v.event != l.event
      {
        ChainsHold(ts[..n], v);
        var i :| 0 <= i < n && ts[..n][i].event == v.event;
        assert ts[i].event != ts[n].event;
      }
      LineDistinct(ts[n]);
      NewKeys(order, l, |l.stages|);
      assert Keys(l)[..|l.stages|] == Keys(l);
    }
  }

  lemma {:induction false} GraphInOrder(ts: seq<Trace>, g: CausalGraph)
    requires UniqueEvents(ts) && SoundGraph(ts, g)
    ensures g.order == ChainByChain(ts)
  {
    NodesInOrder(ts);
  }

  /** A proposal that is deferred becomes four nodes in a row. */
  lemma {:induction false} DeferredTrace(ts: seq<Trace>, g: CausalGraph, i: nat, t: Trace, p: seq<NodeId>)
    requires ChainGraph(ts, g) && i < |ts| && t == ts[i]
    requires t.preflightValid && t.p4Verdict == Defer && t.finalStatus.P4Status? && |p| == 4
    requires p[0] == NodeId(t.event, HostEvent) && p[1] == NodeId(t.event, Proposal)
    requires p[2] == NodeId(t.event, Blocked) && p[3] == NodeId(t.event, Outcome)
    ensures IsPathToOutcome(g, NodeId(t.event, HostEvent), p)
  {
    DeferredStages(t);
    SamePath(p, Keys(t.AsLine()));
    PathFromHostIsChain(ts, g, i, p);
  }

  lemma {:induction false} DeferredStages(t: Trace)
    requires t.preflightValid && t.p4Verdict == Defer && t.finalStatus.P4Status?
    ensures var s := t.AsLine().stages;
      |s| == 4 && s[0] == HostEvent && s[1] == Proposal && s[2] == Blocked && s[3] == Outcome
    ensures Decision !in t.AsLine().stages
  {
  }

  lemma {:induction false} SamePath(p: seq<NodeId>, q: seq<NodeId>)
    requires |p| == 4 && |q| == 4 && p[0] == q[0] && p[1] == q[1] && p[2] == q[2] && p[3] == q[3]
    ensures p == q
  {
  }
}
