/**
 What builder and integrity engine say about each other: on a built graph only impossible transitions
 can be reported, and they single out exactly the traces that skipped a stage.
 */
module CausalHealth {
  import opened Common
  import opened Digraph
  import opened CausalGraphs
  import opened CausalBuilder
  import opened CausalIntegrity

  /** The trace was blocked, or passed preflight, got a verdict and was executed. */
  predicate Complete(t: Trace) {
    t.IsBlocked() || (t.preflightValid && !t.p4Verdict.UnknownVerdict? && !t.executionStatus.UnknownStatus?)
  }

  lemma {:induction false} Locate(ts: seq<Trace>, g: CausalGraph, v: NodeId) returns (i: nat, j: nat)
    requires ChainGraph(ts, g) && v in g.nodes
    ensures i < |ts| && j < |ts[i].AsLine().stages| && v == ts[i].AsLine().Key(j)
    ensures g.nodes[v] == ts[i].AsLine().NodeAt(j, true)
  {
    assert OnChain(ts, v);
    i :| 0 <= i < |ts| && v.event == ts[i].event && v.stage in ts[i].AsLine().stages;
    var l := ts[i].AsLine();
    j :| 0 <= j < |l.stages| && l.stages[j] == v.stage;
    assert Chained(l, g.nodes);
    assert l.Has(g.nodes, j, true);
  }

  lemma {:induction false} KeyIsNode(ts: seq<Trace>, g: CausalGraph, i: nat, j: nat)
    requires ChainGraph(ts, g) && i < |ts| && j < |ts[i].AsLine().stages|
    ensures ts[i].AsLine().Key(j) in g.nodes
    ensures g.nodes[ts[i].AsLine().Key(j)] == ts[i].AsLine().NodeAt(j, true)
  {
    assert Chained(ts[i].AsLine(), g.nodes);
    assert ts[i].AsLine().Has(g.nodes, j, true);
  }

  lemma {:induction false} OnlyOutcomeIsLast(t: Trace, j: nat)
    requires j < |t.AsLine().stages|
    ensures t.AsLine().stages[j] == Outcome <==> j + 1 == |t.AsLine().stages|
  {
    var stages := t.AsLine().stages;
    assert stages[|stages| - 1] == Outcome;
  }

  lemma {:induction false} KindIsStage(ts: seq<Trace>, g: CausalGraph, v: NodeId)
    requires SoundGraph(ts, g) && v in g.nodes
    ensures g.nodes[v].kind == v.stage
  {
    assert SoundNode(v, g.nodes[v], g.edges);
  }

  /** Every node of a built graph is joined to its parent, and left towards a node of the graph. */
  lemma {:induction false} NodeIsSound(ts: seq<Trace>, g: CausalGraph, v: NodeId)
    requires SoundGraph(ts, g) && v in g.nodes
    ensures !IsOrphan(g, v) && !LacksParentEdge(g, v) && !IsDeadEnd(g, v)
  {
    assert SoundNode(v, g.nodes[v], g.edges);
    var i :| 0 <= i < |ts| && v.event == ts[i].event && v.stage in ts[i].AsLine().stages;
    var l := ts[i].AsLine();
    var j :| 0 <= j < |l.stages| && l.stages[j] == v.stage;
    OnlyOutcomeIsLast(ts[i], j);
    if j + 1 < |l.stages| {
      EdgeListed(ts, i, j);
      EdgeEndsOnChain(ts, l.EdgeAt(j));
      assert l.EdgeAt(j).source == v;
    }
  }

  function Rank(k: Kind): nat {
    match k
    case HostEvent => 0
    case Proposal => 1
    case Decision => 2
    case Execution => 3
    case Blocked => 4
    case Outcome => 5
  }

  lemma {:induction false} StagesClimb(t: Trace, j: nat)
    requires j + 1 < |t.AsLine().stages|
    ensures Rank(t.AsLine().stages[j]) < Rank(t.AsLine().stages[j + 1])
  {
  }

  lemma {:induction false} ChildClimbs(ts: seq<Trace>, g: CausalGraph, u: NodeId, v: NodeId)
    requires SoundGraph(ts, g) && HasEdge(g.Children(), u, v)
    ensures v in g.nodes && Rank(u.stage) < Rank(v.stage)
  {
    assert SoundNode(u, g.nodes[u], g.edges);
    var e :| e in g.edges && e.source == u && e.target == v;
    EdgeEndsOnChain(ts, e);
    var i, j := EdgeOrigin(ts, e);
    StagesClimb(ts[i], j);
  }

  lemma {:induction false} ClimbingIsAcyclic(g: CausalGraph)
    requires forall u, v :: HasEdge(g.Children(), u, v) ==> v in g.nodes && Rank(u.stage) < Rank(v.stage)
    ensures Acyclic(g.Children())
  {
    var h: map<NodeId, nat> := map v | v in g.nodes :: 5 - Rank(v.stage);
    HeightForbidsCycles(g.Children(), h);
  }

  lemma {:induction false} BuiltIsAcyclic(ts: seq<Trace>, g: CausalGraph)
    requires SoundGraph(ts, g)
    ensures Acyclic(g.Children())
  {
    forall u, v | HasEdge(g.Children(), u, v)
      ensures v in g.nodes && Rank(u.stage) < Rank(v.stage)
    {
      ChildClimbs(ts, g, u, v);
    }
    ClimbingIsAcyclic(g);
  }

  /** A trace takes only allowed transitions exactly if it is complete. */
  lemma {:induction false} LegalIffComplete(t: Trace)
    ensures Complete(t) <==>
      forall j :: 0 <= j < |t.AsLine().stages| - 1 ==> t.AsLine().stages[j + 1] in Expected(t.AsLine().stages[j])
  {
    var stages := t.AsLine().stages;
    if !Complete(t) {
      var j := if !t.preflightValid then 0 else if t.p4Verdict.UnknownVerdict? then 1 else 2;
      assert stages[j + 1] !in Expected(stages[j]);
    }
  }

  ghost function EventsOf(ts: seq<Trace>): set<EventId> {
    set i | 0 <= i < |ts| :: ts[i].event
  }

  ghost function Incomplete(ts: seq<Trace>): set<nat> {
    set i: nat | i < |ts| && !Complete(ts[i])
  }

  lemma {:induction false} IllegalEdge(ts: seq<Trace>, g: CausalGraph, i: nat, j: nat)
    requires SoundGraph(ts, g) && i < |ts| && j + 1 < |ts[i].AsLine().stages|
    ensures IsIllegal(g, ts[i].AsLine().EdgeAt(j)) <==>
      ts[i].AsLine().stages[j + 1] !in Expected(ts[i].AsLine().stages[j])
  {
    var e := ts[i].AsLine().EdgeAt(j);
    EdgeListed(ts, i, j);
    EdgeEndsOnChain(ts, e);
    KindIsStage(ts, g, e.source);
    KindIsStage(ts, g, e.target);
  }

  lemma {:induction false} IllegalEventsAreIncomplete(ts: seq<Trace>, g: CausalGraph)
    requires SoundGraph(ts, g)
    ensures IllegalEvents(g, g.edges) == set i | i in Incomplete(ts) :: ts[i].event
  {
    var bad := set i | i in Incomplete(ts) :: ts[i].event;
    forall e | e in g.edges && IsIllegal(g, e)
      ensures e.source.event in bad && e.target.event in bad
    {
      var i, j := EdgeOrigin(ts, e);
      IllegalEdge(ts, g, i, j);
      LegalIffComplete(ts[i]);
      assert i in Incomplete(ts);
    }
    forall i | i in Incomplete(ts)
      ensures ts[i].event in IllegalEvents(g, g.edges)
    {
      LegalIffComplete(ts[i]);
      var stages := ts[i].AsLine().stages;
      var j :| 0 <= j < |stages| - 1 && stages[j + 1] !in Expected(stages[j]);
      IllegalEdge(ts, g, i, j);
      EdgeListed(ts, i, j);
      assert ts[i].AsLine().EdgeAt(j).source.event == ts[i].event;
    }
  }

  lemma {:induction false} EventsOfBuilt(ts: seq<Trace>, g: CausalGraph)
    requires SoundGraph(ts, g)
    ensures Events(g) == EventsOf(ts)
  {
    forall i | 0 <= i < |ts|
      ensures ts[i].event in Events(g)
    {
      var host := ts[i].AsLine().Key(0);
      assert OnChain(ts, host) && host in g.nodes;
    }
    forall v | v in g.nodes
      ensures v.event in EventsOf(ts)
    {
      assert OnChain(ts, v);
    }
  }

  lemma {:induction false} ImageSize(ts: seq<Trace>, s: set<nat>)
    requires UniqueEvents(ts) && forall i :: i in s ==> i < |ts|
    ensures |set i | i in s :: ts[i].event| == |s|
  {
    var image := set i | i in s :: ts[i].event;
    if s == {} {
      assert image == {};
    } else {
      var k :| k in s;
      ImageSize(ts, s - {k});
      var rest := set i | i in s - {k} :: ts[i].event;
      assert image == rest + {ts[k].event};
      assert ts[k].event !in rest;
    }
  }

  ghost function Upto(n: nat): (s: set<nat>)
    ensures |s| == n && forall i: nat :: i in s <==> i < n
  {
    if n == 0 then {} else Upto(n - 1) + {n - 1}
  }

  lemma {:induction false} SoundLists(ts: seq<Trace>, g: CausalGraph)
    requires SoundGraph(ts, g)
    ensures OrphanIssues(g, g.order) == [] && MissingIssues(g, g.order) == []
    ensures IllegalIssues(g, g.edges) == [] <==> Incomplete(ts) == {}
  {
    forall v | v in g.order
      ensures !IsOrphan(g, v) && !LacksParentEdge(g, v) && !IsDeadEnd(g, v)
    {
      assert v in Elements(g.order);
      NodeIsSound(ts, g, v);
    }
    OrphanIssuesEmpty(g, g.order);
    MissingIssuesEmpty(g, g.order);
    IllegalIssuesTell(g, g.edges);
    IllegalEventsAreIncomplete(ts, g);
    if Incomplete(ts) != {} {
      var i :| i in Incomplete(ts);
      assert ts[i].event in IllegalEvents(g, g.edges);
    }
    if exists e :: e in g.edges && IsIllegal(g, e) {
      var e :| e in g.edges && IsIllegal(g, e);
      assert e.source.event in IllegalEvents(g, g.edges);
    }
  }

  /** The traces that went through every stage, by position. */
  ghost function CompleteOnes(ts: seq<Trace>): set<nat> {
    set i: nat | i < |ts| && Complete(ts[i])
  }

  lemma {:induction false} SplitTraces(ts: seq<Trace>)
    ensures |CompleteOnes(ts)| + |Incomplete(ts)| == |ts|
  {
    assert Upto(|ts|) == CompleteOnes(ts) + Incomplete(ts);
  }

  lemma {:induction false} EventsAreImage(ts: seq<Trace>)
    requires UniqueEvents(ts)
    ensures |EventsOf(ts)| == |ts|
  {
    ImageSize(ts, Upto(|ts|));
    assert EventsOf(ts) == set i | i in Upto(|ts|) :: ts[i].event;
  }

  /** The events all of whose traces are complete. */
  ghost function HealthyEvents(ts: seq<Trace>): set<EventId> {
    set e | e in EventsOf(ts) && forall i :: 0 <= i < |ts| && ts[i].event == e ==> Complete(ts[i])
  }

  lemma {:induction false} HealthyOrNot(ts: seq<Trace>)
    ensures |HealthyEvents(ts)| == |EventsOf(ts)| - |set i | i in Incomplete(ts) :: ts[i].event|
  {
    var bad := set i | i in Incomplete(ts) :: ts[i].event;
    assert bad <= EventsOf(ts);
    assert HealthyEvents(ts) == EventsOf(ts) - bad;
    assert EventsOf(ts) == HealthyEvents(ts) + bad;
  }

  /** With one trace for each event, counting events is counting traces. */
  lemma {:induction false} HealthyEventsAreTraces(ts: seq<Trace>)
    requires UniqueEvents(ts)
    ensures |EventsOf(ts)| == |ts| && |HealthyEvents(ts)| == |CompleteOnes(ts)|
  {
    EventsAreImage(ts);
    HealthyOrNot(ts);
    ImageSize(ts, Incomplete(ts));
    SplitTraces(ts);
  }

  lemma {:induction false} NoneIncomplete(ts: seq<Trace>)
    ensures Incomplete(ts) == {} <==> forall t :: t in ts ==>
      || t.finalStatus == BlockedByPreflight
      || (t.finalStatus.P4Status? && (t.p4Verdict == Block || t.p4Verdict == Defer || t.p4Verdict == Review))
      || (t.preflightValid && t.p4Verdict != UnknownVerdict && t.executionStatus != UnknownStatus)
  {
    if exists t :: t in ts && !Complete(t) {
      var i :| 0 <= i < |ts| && !Complete(ts[i]);
      assert i in Incomplete(ts);
    }
  }

  /**
   Building and validating any traces: no orphan, no missing edge and no cycle is ever reported, the
   graph is healthy exactly if every trace is complete, and the healthy events are those all of whose
   traces are. With unique events the graph is a set of disjoint chains.
   */
  method BuildAndValidate(ts: seq<Trace>) returns (g: CausalGraph, r: Report)
    ensures UniqueEvents(ts) ==> ChainGraph(ts, g)
    ensures r.orphans == 0 && r.missing == 0 && r.cycles == 0
    ensures r.healthy <==> forall t :: t in ts ==>
      || t.finalStatus == BlockedByPreflight
      || (t.finalStatus.P4Status? && (t.p4Verdict == Block || t.p4Verdict == Defer || t.p4Verdict == Review))
      || (t.preflightValid && t.p4Verdict != UnknownVerdict && t.executionStatus != UnknownStatus)
    ensures r.totalEvents == |EventsOf(ts)| && r.healthyEvents == |HealthyEvents(ts)|
  {
    g := Build(ts);
    var report, cycles := Validate(g);
    r := report;
    SoundLists(ts, g);
    BuiltIsAcyclic(ts, g);
    AcyclicEventsNamed(g, r.issues, cycles);
    EventsOfBuilt(ts, g);
    IllegalEventsAreIncomplete(ts, g);
    HealthyOrNot(ts);
    NoneIncomplete(ts);
  }

  ghost function Keys(l: Line): (ks: seq<NodeId>)
    ensures |ks| == |l.stages| && forall j :: 0 <= j < |l.stages| ==> ks[j] == l.Key(j)
  {
    seq(|l.stages|, j requires 0 <= j < |l.stages| => l.Key(j))
  }

  /** The nodes of a chain, one after the other: each has the next as its only child. */
  ghost predicate IsChain(g: CausalGraph, ks: seq<NodeId>) {
    && ks != []
    && (forall j :: 0 <= j < |ks| ==> ks[j] in g.nodes && (g.nodes[ks[j]].kind == Outcome <==> j + 1 == |ks|))
    && (forall j :: 0 <= j < |ks| - 1 ==> g.nodes[ks[j]].children == [ks[j + 1]])
  }

  lemma {:induction false} KeysAreChain(ts: seq<Trace>, g: CausalGraph, i: nat)
    requires ChainGraph(ts, g) && i < |ts|
    ensures IsChain(g, Keys(ts[i].AsLine())) && Keys(ts[i].AsLine())[0] == NodeId(ts[i].event, HostEvent)
  {
    var ks := Keys(ts[i].AsLine());
    forall j | 0 <= j < |ks|
      ensures ks[j] in g.nodes && (g.nodes[ks[j]].kind == Outcome <==> j + 1 == |ks|)
      ensures j + 1 < |ks| ==> g.nodes[ks[j]].children == [ks[j + 1]]
    {
      KeyIsNode(ts, g, i, j);
      OnlyOutcomeIsLast(ts[i], j);
    }
  }

  lemma {:induction false} ChainIsPath(g: CausalGraph, ks: seq<NodeId>)
    requires IsChain(g, ks)
    ensures IsPathToOutcome(g, ks[0], ks)
  {
  }

  /** From the host event of a trace there is one path to an outcome, and it is the whole chain. */
  lemma {:induction false} PathFromHostIsChain(ts: seq<Trace>, g: CausalGraph, i: nat, p: seq<NodeId>)
    requires ChainGraph(ts, g) && i < |ts|
    ensures IsPathToOutcome(g, NodeId(ts[i].event, HostEvent), p) <==> p == Keys(ts[i].AsLine())
  {
    KeysAreChain(ts, g, i);
    ChainIsPath(g, Keys(ts[i].AsLine()));
    if IsPathToOutcome(g, NodeId(ts[i].event, HostEvent), p) {
      FollowsChain(g, Keys(ts[i].AsLine()), p, |p|);
    }
  }

  lemma {:induction false} FollowsChain(g: CausalGraph, ks: seq<NodeId>, p: seq<NodeId>, n: nat)
    requires IsChain(g, ks) && IsPathToOutcome(g, ks[0], p) && 0 < n <= |p|
    ensures n <= |ks| && p[..n] == ks[..n] && (n == |p| ==> p == ks)
  {
    if n > 1 {
      FollowsChain(g, ks, p, n - 1);
      assert p[n - 2] == p[..n - 1][n - 2] == ks[n - 2];
      assert HasEdge(g.Children(), p[n - 2], p[n - 1]);
    }
  }
}
