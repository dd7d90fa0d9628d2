/**
 The plan graph: nodes and edges that are added step by step, a queue-driven topological sort and a
 three-colour search for cycles. Both searches are proved against the walks of Digraph.
 */
module ExecutionGraphs {
  import opened Common
  import opened Digraph
  import opened CycleSearch

  /** The textual identifier of a node. */
  datatype Id = Id(text: string)

  datatype ActionType = ModifyFile | RunCommand | ReadAnalysis | Validate | NetworkCall

  datatype NodeStatus = Pending | Running | Success | Failed | RolledBack | Skipped

  datatype EdgeType = Sequential | ParallelSafe | DataDependency

  datatype Edge = Edge(source: Id, target: Id, kind: EdgeType)

  datatype BuildError = UnknownNode(source: Id, target: Id) | ContainsCycle

  datatype PlanError =
    | CyclesDetected(cycles: seq<seq<Id>>)
    | NoRollback(id: Id)
    | NoTimeout(id: Id)

  class ExecutionNode {
    const id: Id
    const action: string
    const actionType: ActionType
    const hasRollback: bool
    const timeoutMs: int
    var status: NodeStatus

    constructor (id: Id, action: string, actionType: ActionType,
                 hasRollback: bool := false, timeoutMs: int := 10000)
      ensures this.id == id && this.action == action && this.actionType == actionType
      ensures this.hasRollback == hasRollback && this.timeoutMs == timeoutMs
      ensures status == Pending
    {
      this.id, this.action, this.actionType := id, action, actionType;
      this.hasRollback, this.timeoutMs := hasRollback, timeoutMs;
      status := Pending;
    }

    /** The node may run: a mutating action needs a rollback, and the timeout must be positive. */
    predicate Runnable() {
      (hasRollback || (actionType != ModifyFile && actionType != RunCommand)) && timeoutMs > 0
    }
  }

  /** What is wrong with the nodes, in their order. */
  ghost function NodeErrors(order: seq<Id>, nodes: map<Id, ExecutionNode>): seq<PlanError> {
    if order == [] then []
    else
      var id := order[|order| - 1];
      NodeErrors(order[..|order| - 1], nodes) + if id !in nodes then [] else ErrorsOf(id, nodes[id])
  }

  ghost function ErrorsOf(id: Id, n: ExecutionNode): (es: seq<PlanError>)
    ensures es == [] <==> n.Runnable()
  {
    (if !n.hasRollback && (n.actionType == ModifyFile || n.actionType == RunCommand) then [NoRollback(id)] else [])
    + (if n.timeoutMs <= 0 then [NoTimeout(id)] else [])
  }

  lemma {:induction false} NodeErrorsGrow(order: seq<Id>, i: nat, nodes: map<Id, ExecutionNode>)
    requires i < |order| && order[i] in nodes
    ensures NodeErrors(order[..i + 1], nodes) == NodeErrors(order[..i], nodes) + ErrorsOf(order[i], nodes[order[i]])
  {
    assert order[..i + 1][..i] == order[..i];
  }

  lemma {:induction false} NoNodeErrors(order: seq<Id>, nodes: map<Id, ExecutionNode>)
    ensures NodeErrors(order, nodes) == [] <==> forall id :: id in order && id in nodes ==> nodes[id].Runnable()
  {
    if order != [] {
      var n := |order| - 1;
      NoNodeErrors(order[..n], nodes);
      assert order == order[..n] + [order[n]];
    }
  }

  function Ids(ns: seq<ExecutionNode>): (ids: seq<Id>)
    ensures |ids| == |ns|
    ensures forall i :: 0 <= i < |ns| ==> ids[i] == ns[i].id
  {
    seq(|ns|, i requires 0 <= i < |ns| => ns[i].id)
  }

  /** The targets of the edges that leave u, in insertion order. */
  function Targets(es: seq<Edge>, u: Id): seq<Id> {
    if es == [] then []
    else
      var e := es[|es| - 1];
      Targets(es[..|es| - 1], u) + if e.source == u then [e.target] else []
  }

  /** How many edges into v still come from vertices that are not done. */
  ghost function Unmet(es: seq<Edge>, done: set<Id>, v: Id): nat {
    if es == [] then 0
    else
      var e := es[|es| - 1];
      Unmet(es[..|es| - 1], done, v) + if e.target == v && e.source !in done then 1 else 0
  }

  ghost function Table(vertices: set<Id>, es: seq<Edge>): Adjacency<Id> {
    map u | u in vertices :: Targets(es, u)
  }

  lemma {:induction false} TargetsAreEdges(es: seq<Edge>, u: Id, v: Id)
    ensures v in Targets(es, u) <==> exists i :: 0 <= i < |es| && es[i].source == u && es[i].target == v
  {
    if es != [] {
      var n := |es| - 1;
      TargetsAreEdges(es[..n], u, v);
      assert forall i :: 0 <= i < n ==> es[..n][i] == es[i];
    }
  }

  lemma {:induction false} UnmetZero(es: seq<Edge>, done: set<Id>, v: Id)
    ensures Unmet(es, done, v) == 0
            <==> forall i :: 0 <= i < |es| && es[i].target == v ==> es[i].source in done
  {
    if es != [] {
      var n := |es| - 1;
      UnmetZero(es[..n], done, v);
      assert forall i :: 0 <= i < n ==> es[..n][i] == es[i];
    }
  }

  /** Finishing u meets exactly the dependencies listed in its targets. */
  lemma {:induction false} UnmetAfter(es: seq<Edge>, done: set<Id>, u: Id, v: Id)
    requires u !in done
    ensures Unmet(es, done + {u}, v) + multiset(Targets(es, u))[v] == Unmet(es, done, v)
  {
    if es != [] {
      UnmetAfter(es[..|es| - 1], done, u, v);
    }
  }

  /** Every listed vertex comes after all of its predecessors, which are listed too. */
  ghost predicate PredecessorsFirst(es: seq<Edge>, s: seq<Id>) {
    forall i, j :: 0 <= i < |es| && 0 <= j < |s| && es[i].target == s[j] ==> es[i].source in s[..j]
  }

  /** A schedule lists every vertex exactly once, each after everything it depends on. */
  ghost predicate Schedule(vertices: set<Id>, es: seq<Edge>, s: seq<Id>) {
    Distinct(s) && Elements(s) == vertices && PredecessorsFirst(es, s)
  }

  lemma {:induction false} ScheduleMeansAcyclic(vertices: set<Id>, es: seq<Edge>, s: seq<Id>)
    requires Schedule(vertices, es, s)
    requires forall i :: 0 <= i < |es| ==> es[i].target in vertices
    ensures Acyclic(Table(vertices, es))
  {
    var g := Table(vertices, es);
    var h: map<Id, nat> := map v | v in s :: |s| - IndexOf(s, v);
    forall u, v | HasEdge(g, u, v) && u in h
      ensures v in h && h[v] < h[u]
    {
      TargetsAreEdges(es, u, v);
      var i :| 0 <= i < |es| && es[i].source == u && es[i].target == v;
      assert v in s;
      assert u in s[..IndexOf(s, v)];
    }
    assert g.Keys == h.Keys;
    HeightForbidsCycles(g, h);
  }

  /** The vertices sorted or queued so far are, once each, those without an unmet dependency. */
  ghost predicate Ready(ready: seq<Id>, inDegree: map<Id, int>) {
    forall v :: multiset(ready)[v] == if v in inDegree && inDegree[v] == 0 then 1 else 0
  }

  lemma {:induction false} ReadyMeans(ready: seq<Id>, inDegree: map<Id, int>)
    requires Ready(ready, inDegree)
    ensures Distinct(ready)
    ensures forall v :: v in ready <==> v in inDegree && inDegree[v] == 0
  {
    assert forall v :: v in ready <==> v in multiset(ready);
    CountedOnceIsDistinct(ready);
  }

  /** What is left after the sort stalls feeds itself, so there is a cycle among it. */
  lemma {:induction false} StalledMeansCycle(vertices: set<Id>, es: seq<Edge>, done: set<Id>, v: Id)
    requires v in vertices - done
    requires forall i :: 0 <= i < |es| ==> es[i].source in vertices
    requires forall x :: x in vertices - done ==> Unmet(es, done, x) != 0
    ensures DownstreamOfCycle(Table(vertices, es), v) && !Acyclic(Table(vertices, es))
  {
    var g := Table(vertices, es);
    var stuck := vertices - done;
    forall x | x in stuck
      ensures HasPredecessorIn(g, stuck, x)
    {
      UnmetZero(es, done, x);
      var i :| 0 <= i < |es| && es[i].target == x && es[i].source !in done;
      TargetsAreEdges(es, es[i].source, x);
      assert HasEdge(g, es[i].source, x);
    }
    NoSourceMeansCycle(g, stuck, v);
  }

  lemma {:induction false} ReadyAfterMeeting(ready: seq<Id>, inDegree: map<Id, int>, dep: Id)
    requires Ready(ready, inDegree) && dep in inDegree && inDegree[dep] >= 1
    ensures Ready(if inDegree[dep] == 1 then ready + [dep] else ready, inDegree[dep := inDegree[dep] - 1])
  {
  }

  lemma {:induction false} OneTargetMore(targets: seq<Id>, k: nat)
    requires k < |targets|
    ensures multiset(targets[..k + 1]) == multiset(targets[..k]) + multiset{targets[k]}
    ensures multiset(targets[..k])[targets[k]] < multiset(targets)[targets[k]]
  {
    assert targets == targets[..k] + [targets[k]] + targets[k + 1..];
    assert targets[..k + 1] == targets[..k] + [targets[k]];
  }

  /** Each degree went down by the number of dependencies met. */
  ghost predicate Lowered(before: map<Id, int>, after: map<Id, int>, met: multiset<Id>) {
    after.Keys == before.Keys && forall v :: v in before ==> after[v] == before[v] - met[v]
  }

  lemma {:induction false} LoweredOnce(before: map<Id, int>, after: map<Id, int>, met: multiset<Id>, dep: Id)
    requires Lowered(before, after, met) && dep in before
    ensures Lowered(before, after[dep := after[dep] - 1], met + multiset{dep})
  {
  }

  // The order among vertices that may run: first freed, first run

  ghost predicate Earlier(s: seq<Id>, x: Id, y: Id) {
    exists i, j :: 0 <= i < j < |s| && s[i] == x && s[j] == y
  }

  /** No edge leads into the vertex. */
  ghost predicate Free(es: seq<Edge>, v: Id) {
    forall a :: 0 <= a < |es| ==> es[a].target != v
  }

  ghost predicate Sourced(es: seq<Edge>, s: seq<Id>, v: Id) {
    forall a :: 0 <= a < |es| && es[a].target == v ==> es[a].source in s
  }

  /** Every edge into v is followed before the b-th edge: it leaves an earlier vertex, or the same one as an older
      edge. */
  ghost predicate FollowedBefore(es: seq<Edge>, s: seq<Id>, v: Id, b: nat)
    requires b < |es|
  {
    forall a :: 0 <= a < |es| && es[a].target == v ==>
      Earlier(s, es[a].source, es[b].source) || (es[a].source == es[b].source && a < b)
  }

  /** Vertices without dependencies come in the order of the table; any other is freed by the last edge into it,
      and comes after what was freed before. */
  ghost predicate FreedBefore(order: seq<Id>, es: seq<Edge>, s: seq<Id>, v: Id, w: Id) {
    if Free(es, w) then Free(es, v) && Earlier(order, v, w)
    else exists b: nat :: b < |es| && es[b].target == w && FollowedBefore(es, s, v, b)
  }

  /** The ready vertices stand in the order in which they were freed, when those in s ran one after the other. */
  ghost predicate InFreedOrder(order: seq<Id>, es: seq<Edge>, s: seq<Id>, ready: seq<Id>) {
    forall i, j :: 0 <= i < j < |ready| ==> FreedBefore(order, es, s, ready[i], ready[j])
  }

  lemma {:induction false} EarlierGrows(s: seq<Id>, x: Id, y: Id, z: Id)
    requires Earlier(s, x, y)
    ensures Earlier(s + [z], x, y)
  {
    var i, j :| 0 <= i < j < |s| && s[i] == x && s[j] == y;
    assert (s + [z])[i] == x && (s + [z])[j] == y;
  }

  lemma {:induction false} FreedGrows(order: seq<Id>, es: seq<Edge>, s: seq<Id>, v: Id, w: Id, z: Id)
    requires FreedBefore(order, es, s, v, w)
    ensures FreedBefore(order, es, s + [z], v, w)
  {
    if !Free(es, w) {
      var b: nat :| b < |es| && es[b].target == w && FollowedBefore(es, s, v, b);
      forall a | 0 <= a < |es| && es[a].target == v
        ensures Earlier(s + [z], es[a].source, es[b].source) || (es[a].source == es[b].source && a < b)
      {
        if Earlier(s, es[a].source, es[b].source) {
          EarlierGrows(s, es[a].source, es[b].source, z);
        }
      }
      assert FollowedBefore(es, s + [z], v, b);
    }
  }

  /** Each freed vertex is the target at some place behind which no vertex freed earlier is met again. */
  ghost predicate InTurn(targets: seq<Id>, freed: seq<Id>) {
    forall j {:trigger TakesTurn(targets, freed, j)} :: 0 <= j < |freed| ==> TakesTurn(targets, freed, j)
  }

  ghost predicate TakesTurn(targets: seq<Id>, freed: seq<Id>, j: nat)
    requires j < |freed|
  {
    exists q: nat :: q < |targets| && targets[q] == freed[j] && forall i :: 0 <= i < j ==> freed[i] !in targets[q..]
  }

  lemma {:induction false} TurnComes(targets: seq<Id>, freed: seq<Id>, k: nat)
    requires k < |targets| && InTurn(targets, freed) && forall v :: v in freed ==> v !in targets[k..]
    ensures InTurn(targets, freed + [targets[k]])
  {
    var freed' := freed + [targets[k]];
    forall j | 0 <= j < |freed'|
      ensures TakesTurn(targets, freed', j)
    {
      if j < |freed| {
        assert TakesTurn(targets, freed, j);
        var q: nat :| q < |targets| && targets[q] == freed[j] && forall i :: 0 <= i < j ==> freed[i] !in targets[q..];
        assert forall i :: 0 <= i < j ==> freed'[i] == freed[i];
      } else {
        assert targets[k] == freed'[j];
      }
    }
  }

  /** The edge behind a target, and where the younger edges of the same vertex are found. */
  lemma {:induction false} EdgeOfTarget(es: seq<Edge>, u: Id, q: nat) returns (b: nat)
    requires q < |Targets(es, u)|
    ensures b < |es| && es[b].source == u && es[b].target == Targets(es, u)[q]
    ensures forall a :: b <= a < |es| && es[a].source == u ==> es[a].target in Targets(es, u)[q..]
  {
    var n := |es| - 1;
    var before := Targets(es[..n], u);
    if q < |before| {
      b := EdgeOfTarget(es[..n], u, q);
      assert forall a :: 0 <= a < n ==> es[..n][a] == es[a];
      assert Targets(es, u)[q..] == before[q..] + if es[n].source == u then [es[n].target] else [];
    } else {
      b := n;
    }
  }

  /** What the vertex frees comes after all that was ready before, and in the order of its own edges. */
  lemma {:induction false} FreedJoin(order: seq<Id>, es: seq<Edge>, sorted: seq<Id>, id: Id, v: Id, w: Id, q: nat)
    requires q < |Targets(es, id)| && Targets(es, id)[q] == w && id !in sorted
    requires Sourced(es, sorted, v) || (Sourced(es, sorted + [id], v) && v !in Targets(es, id)[q..])
    ensures FreedBefore(order, es, sorted + [id], v, w)
  {
    var b := EdgeOfTarget(es, id, q);
    var s := sorted + [id];
    forall a | 0 <= a < |es| && es[a].target == v
      ensures Earlier(s, es[a].source, id) || (es[a].source == id && a < b)
    {
      if es[a].source != id {
        assert es[a].source in s;
        var i :| 0 <= i < |s| && s[i] == es[a].source;
        assert s[|sorted|] == id && i < |sorted|;
      }
    }
    assert FollowedBefore(es, s, v, b);
  }

  lemma {:induction false} FreedOrderKept(order: seq<Id>, es: seq<Edge>, sorted: seq<Id>, id: Id, ready: seq<Id>,
                                          freed: seq<Id>)
    requires InFreedOrder(order, es, sorted, ready) && InTurn(Targets(es, id), freed) && id !in sorted
    requires forall v :: v in ready ==> Sourced(es, sorted, v)
    requires forall v :: v in freed ==> Sourced(es, sorted + [id], v)
    ensures InFreedOrder(order, es, sorted + [id], ready + freed)
  {
    var all, n := ready + freed, |ready|;
    forall i, j | 0 <= i < j < |all|
      ensures FreedBefore(order, es, sorted + [id], all[i], all[j])
    {
      if j < n {
        FreedGrows(order, es, sorted, ready[i], ready[j], id);
      } else {
        assert TakesTurn(Targets(es, id), freed, j - n);
        var q: nat :| q < |Targets(es, id)| && Targets(es, id)[q] == freed[j - n]
                      && forall k :: 0 <= k < j - n ==> freed[k] !in Targets(es, id)[q..];
        if i < n {
          assert all[i] == ready[i] && ready[i] in ready;
        } else {
          assert all[i] == freed[i - n] && freed[i - n] in freed;
        }
        FreedJoin(order, es, sorted, id, all[i], all[j], q);
      }
    }
  }

  lemma {:induction false} SourceJoins(order: seq<Id>, i: nat, queue: seq<Id>)
    requires i < |order| && forall v :: v in queue ==> v in order[..i]
    requires forall j, k :: 0 <= j < k < |queue| ==> Earlier(order, queue[j], queue[k])
    ensures var q := queue + [order[i]]; forall j, k :: 0 <= j < k < |q| ==> Earlier(order, q[j], q[k])
  {
    var q := queue + [order[i]];
    forall j, k | 0 <= j < k < |q|
      ensures Earlier(order, q[j], q[k])
    {
      if k == |queue| {
        assert queue[j] in queue;
        var p :| 0 <= p < i && order[p] == queue[j];
      } else {
        assert Earlier(order, queue[j], queue[k]);
      }
    }
  }

  lemma {:induction false} SourcesInOrder(order: seq<Id>, es: seq<Edge>, queue: seq<Id>, inDegree: map<Id, int>)
    requires Ready(queue, inDegree) && forall i, j :: 0 <= i < j < |queue| ==> Earlier(order, queue[i], queue[j])
    requires forall v :: v in inDegree ==> inDegree[v] == Unmet(es, {}, v)
    ensures InFreedOrder(order, es, [], queue)
  {
    ReadyMeans(queue, inDegree);
    forall v | v in queue
      ensures Free(es, v)
    {
      UnmetZero(es, {}, v);
    }
  }

  /** All that a ready vertex depends on is sorted. */
  lemma {:induction false} ReadySources(es: seq<Edge>, sorted: seq<Id>, ready: seq<Id>, inDegree: map<Id, int>)
    requires Ready(ready, inDegree)
    requires forall v :: v in inDegree ==> inDegree[v] == Unmet(es, Elements(sorted), v)
    ensures forall v :: v in ready ==> Sourced(es, sorted, v)
  {
    ReadyMeans(ready, inDegree);
    forall v | v in ready
      ensures Sourced(es, sorted, v)
    {
      UnmetZero(es, Elements(sorted), v);
    }
  }

  lemma {:induction false} LastMention(targets: seq<Id>, k: nat)
    requires k < |targets| && multiset(targets[..k + 1])[targets[k]] >= multiset(targets)[targets[k]]
    ensures targets[k] !in targets[k + 1..]
  {
    assert targets == targets[..k + 1] + targets[k + 1..];
    assert multiset(targets) == multiset(targets[..k + 1]) + multiset(targets[k + 1..]);
    assert multiset(targets[k + 1..])[targets[k]] == 0;
  }

  /** The state of the inner loop after k targets: degrees lowered, and the freed ones at the end of the queue. */
  ghost predicate Meeting(targets: seq<Id>, k: nat, sorted: seq<Id>, queue: seq<Id>, inDegree: map<Id, int>,
                          queue': seq<Id>, inDegree': map<Id, int>, freed: seq<Id>) {
    && k <= |targets|
    && Lowered(inDegree, inDegree', multiset(targets[..k])) && Ready(sorted + queue', inDegree')
    && queue' == queue + freed && InTurn(targets, freed)
    && forall v :: v in freed ==> v !in targets[k..]
  }

  lemma {:induction false} MeetOne(targets: seq<Id>, k: nat, sorted: seq<Id>, queue: seq<Id>,
                                   inDegree: map<Id, int>, queue': seq<Id>, inDegree': map<Id, int>,
                                   freed: seq<Id>, dep: Id)
    requires k < |targets| && dep == targets[k] && dep in inDegree && inDegree[dep] >= multiset(targets)[dep]
    requires Meeting(targets, k, sorted, queue, inDegree, queue', inDegree', freed)
    ensures dep in inDegree' && inDegree'[dep] >= 1
    ensures var last := if inDegree'[dep] == 1 then [dep] else [];
      Meeting(targets, k + 1, sorted, queue, inDegree, queue' + last, inDegree'[dep := inDegree'[dep] - 1],
              freed + last)
  {
    CountOne(targets, k, inDegree, inDegree', dep);
    ReadyAfterMeeting(sorted + queue', inDegree', dep);
    var last := if inDegree'[dep] == 1 then [dep] else [];
    Regrouped(sorted, queue', last);
    Regrouped(queue, freed, last);
    FreeOne(targets, k, freed, last);
  }

  lemma {:induction false} Regrouped(a: seq<Id>, b: seq<Id>, c: seq<Id>)
    ensures (a + b) + c == a + (b + c)
  {
  }

  lemma {:induction false} CountOne(targets: seq<Id>, k: nat, inDegree: map<Id, int>, inDegree': map<Id, int>, dep: Id)
    requires k < |targets| && dep == targets[k] && dep in inDegree && inDegree[dep] >= multiset(targets)[dep]
    requires Lowered(inDegree, inDegree', multiset(targets[..k]))
    ensures dep in inDegree' && inDegree'[dep] >= 1
    ensures Lowered(inDegree, inDegree'[dep := inDegree'[dep] - 1], multiset(targets[..k + 1]))
    ensures inDegree'[dep] == 1 ==> multiset(targets[..k + 1])[dep] >= multiset(targets)[dep]
  {
    OneTargetMore(targets, k);
    LoweredOnce(inDegree, inDegree', multiset(targets[..k]), dep);
  }

  lemma {:induction false} FreeOne(targets: seq<Id>, k: nat, freed: seq<Id>, last: seq<Id>)
    requires k < |targets| && InTurn(targets, freed) && forall v :: v in freed ==> v !in targets[k..]
    requires last == [] || last == [targets[k]]
    requires last != [] ==> multiset(targets[..k + 1])[targets[k]] >= multiset(targets)[targets[k]]
    ensures InTurn(targets, freed + last) && forall v :: v in freed + last ==> v !in targets[k + 1..]
  {
    assert forall v :: v in targets[k + 1..] ==> v in targets[k..];
    if last == [] {
      assert freed + last == freed;
    } else {
      LastMention(targets, k);
      TurnComes(targets, freed, k);
    }
  }

  /** The inner loop of the sort: each target has one dependency less, and joins the queue at zero. */
  method MeetDependencies(targets: seq<Id>, queue: seq<Id>, inDegree: map<Id, int>,
                          ghost sorted: seq<Id>)
    returns (queue': seq<Id>, inDegree': map<Id, int>, ghost freed: seq<Id>)
    requires forall v :: v in targets ==> v in inDegree
    requires forall v :: v in inDegree ==> inDegree[v] >= multiset(targets)[v]
    requires Ready(sorted + queue, inDegree)
    ensures inDegree'.Keys == inDegree.Keys && Ready(sorted + queue', inDegree')
    ensures forall v :: v in inDegree ==> inDegree'[v] == inDegree[v] - multiset(targets)[v]
    ensures queue' == queue + freed && InTurn(targets, freed)
  {
    queue', inDegree', freed := queue, inDegree, [];
    for k := 0 to |targets|
      invariant Meeting(targets, k, sorted, queue, inDegree, queue', inDegree', freed)
    {
      var dep := targets[k];
      MeetOne(targets, k, sorted, queue, inDegree, queue', inDegree', freed, dep);
      inDegree' := inDegree'[dep := inDegree'[dep] - 1];
      if inDegree'[dep] == 0 {
        queue', freed := queue' + [dep], freed + [dep];
      }
    }
    assert targets[..|targets|] == targets;
  }

  lemma {:induction false} PredecessorsFirstGrows(es: seq<Edge>, s: seq<Id>, v: Id)
    requires PredecessorsFirst(es, s)
    requires forall i :: 0 <= i < |es| && es[i].target == v ==> es[i].source in s
    ensures PredecessorsFirst(es, s + [v])
  {
    var s' := s + [v];
    forall i, j | 0 <= i < |es| && 0 <= j < |s'| && es[i].target == s'[j]
      ensures es[i].source in s'[..j]
    {
      assert s'[..j] == s[..j];
    }
  }

  lemma {:induction false} DistinctFits(s: seq<Id>, order: seq<Id>)
    requires Distinct(s) && forall v :: v in s ==> v in order
    ensures |s| <= |order|
  {
    DistinctSize(s);
    SubsetSize(Elements(s), Elements(order));
    ElementsBound(order);
  }

  lemma {:induction false} TargetsAreVertices(vertices: set<Id>, es: seq<Edge>, u: Id)
    requires forall i :: 0 <= i < |es| ==> es[i].target in vertices
    ensures forall v :: v in Targets(es, u) ==> v in vertices
  {
    forall v | v in Targets(es, u)
      ensures v in vertices
    {
      TargetsAreEdges(es, u, v);
    }
  }

  lemma {:induction false} EdgesStayInside(vertices: set<Id>, es: seq<Edge>)
    requires forall i :: 0 <= i < |es| ==> es[i].target in vertices
    ensures forall u, v :: HasEdge(Table(vertices, es), u, v) ==> v in vertices
  {
    forall u, v | HasEdge(Table(vertices, es), u, v)
      ensures v in vertices
    {
      TargetsAreEdges(es, u, v);
    }
  }

  /** The vertex at the front of the queue is new, and all it depends on is sorted. */
  lemma {:induction false} NextInSort(order: seq<Id>, es: seq<Edge>, sorted: seq<Id>, queue: seq<Id>,
                                      inDegree: map<Id, int>)
    requires queue != [] && Elements(order) == inDegree.Keys
    requires Ready(sorted + queue, inDegree) && PredecessorsFirst(es, sorted)
    requires forall v :: v in inDegree ==> inDegree[v] == Unmet(es, Elements(sorted), v)
    ensures queue[0] in inDegree && queue[0] !in sorted && |sorted| < |order|
    ensures sorted + queue == (sorted + [queue[0]]) + queue[1..]
    ensures Elements(sorted + [queue[0]]) == Elements(sorted) + {queue[0]}
    ensures PredecessorsFirst(es, sorted + [queue[0]])
    ensures forall v :: v in inDegree ==>
      inDegree[v] - multiset(Targets(es, queue[0]))[v] == Unmet(es, Elements(sorted) + {queue[0]}, v)
  {
    var id := queue[0];
    FrontIsNew(sorted, queue, inDegree);
    NextFits(order, sorted, id);
    UnmetZero(es, Elements(sorted), id);
    PredecessorsFirstGrows(es, sorted, id);
    forall v | v in inDegree
      ensures inDegree[v] - multiset(Targets(es, id))[v] == Unmet(es, Elements(sorted) + {id}, v)
    {
      UnmetAfter(es, Elements(sorted), id, v);
    }
  }

  lemma {:induction false} NextFits(order: seq<Id>, sorted: seq<Id>, id: Id)
    requires Distinct(sorted + [id]) && forall v :: v in sorted + [id] ==> v in Elements(order)
    ensures id !in sorted && |sorted| < |order|
    ensures Elements(sorted + [id]) == Elements(sorted) + {id}
  {
    var next := sorted + [id];
    assert next[|sorted|] == id;
    assert forall k :: 0 <= k < |sorted| ==> next[k] == sorted[k];
    assert forall v :: v in next ==> v in order;
    DistinctFits(next, order);
  }

  lemma {:induction false} FrontIsNew(sorted: seq<Id>, queue: seq<Id>, inDegree: map<Id, int>)
    requires queue != [] && Ready(sorted + queue, inDegree)
    ensures queue[0] in inDegree && inDegree[queue[0]] == 0
    ensures Distinct(sorted + [queue[0]])
    ensures forall v :: v in sorted + [queue[0]] ==> v in inDegree
  {
    var ready := sorted + queue;
    ReadyMeans(ready, inDegree);
    var next := sorted + [queue[0]];
    assert forall k :: 0 <= k < |next| ==> next[k] == ready[k];
  }

  /** What is sorted or queued has no unmet dependency, in the order in which it was freed. */
  ghost predicate SortState(order: seq<Id>, es: seq<Edge>, sorted: seq<Id>, queue: seq<Id>, inDegree: map<Id, int>) {
    && Elements(order) == inDegree.Keys && Ready(sorted + queue, inDegree)
    && PredecessorsFirst(es, sorted) && InFreedOrder(order, es, sorted, sorted + queue)
    && forall v :: v in inDegree ==> inDegree[v] == Unmet(es, Elements(sorted), v)
  }

  lemma {:induction false} SortOne(order: seq<Id>, es: seq<Edge>, sorted: seq<Id>, queue: seq<Id>,
                                   inDegree: map<Id, int>, queue': seq<Id>, inDegree': map<Id, int>, freed: seq<Id>)
    requires SortState(order, es, sorted, queue, inDegree) && queue != []
    requires inDegree'.Keys == inDegree.Keys && Ready((sorted + [queue[0]]) + queue', inDegree')
    requires forall v :: v in inDegree ==> inDegree'[v] == inDegree[v] - multiset(Targets(es, queue[0]))[v]
    requires queue' == queue[1..] + freed && InTurn(Targets(es, queue[0]), freed)
    ensures SortState(order, es, sorted + [queue[0]], queue', inDegree')
  {
    var id, ready := queue[0], sorted + queue;
    NextInSort(order, es, sorted, queue, inDegree);
    FrontMoves(sorted, queue, queue', freed);
    DegreesAfter(es, sorted, id, inDegree, inDegree');
    FreedNext(order, es, sorted, id, ready, inDegree, freed, inDegree');
  }

  lemma {:induction false} FrontMoves(sorted: seq<Id>, queue: seq<Id>, queue': seq<Id>, freed: seq<Id>)
    requires queue != [] && queue' == queue[1..] + freed
    ensures (sorted + [queue[0]]) + queue' == (sorted + queue) + freed
  {
  }

  lemma {:induction false} DegreesAfter(es: seq<Edge>, sorted: seq<Id>, id: Id, inDegree: map<Id, int>,
                                        inDegree': map<Id, int>)
    requires inDegree'.Keys == inDegree.Keys && Elements(sorted + [id]) == Elements(sorted) + {id}
    requires forall v :: v in inDegree ==> inDegree'[v] == inDegree[v] - multiset(Targets(es, id))[v]
    requires forall v :: v in inDegree ==>
      inDegree[v] - multiset(Targets(es, id))[v] == Unmet(es, Elements(sorted) + {id}, v)
    ensures forall v :: v in inDegree' ==> inDegree'[v] == Unmet(es, Elements(sorted + [id]), v)
  {
  }

  lemma {:induction false} FreedNext(order: seq<Id>, es: seq<Edge>, sorted: seq<Id>, id: Id, ready: seq<Id>,
                                     inDegree: map<Id, int>, freed: seq<Id>, inDegree': map<Id, int>)
    requires InFreedOrder(order, es, sorted, ready) && InTurn(Targets(es, id), freed) && id !in sorted
    requires Ready(ready, inDegree) && Ready(ready + freed, inDegree')
    requires forall v :: v in inDegree ==> inDegree[v] == Unmet(es, Elements(sorted), v)
    requires forall v :: v in inDegree' ==> inDegree'[v] == Unmet(es, Elements(sorted + [id]), v)
    ensures InFreedOrder(order, es, sorted + [id], ready + freed)
  {
    ReadySources(es, sorted, ready, inDegree);
    ReadySources(es, sorted + [id], ready + freed, inDegree');
    assert forall v :: v in freed ==> v in ready + freed;
    FreedOrderKept(order, es, sorted, id, ready, freed);
  }

  /** The queue-driven loop: what is sorted has no unmet dependency, and nothing else is without one. */
  method SortIds(ghost order: seq<Id>, ghost es: seq<Edge>, adjacency: Adjacency<Id>, queue0: seq<Id>,
                 inDegree0: map<Id, int>)
    returns (sorted: seq<Id>, inDegree: map<Id, int>)
    requires Elements(order) == inDegree0.Keys && Ready(queue0, inDegree0)
    requires adjacency == Table(inDegree0.Keys, es)
    requires forall i :: 0 <= i < |es| ==> es[i].target in inDegree0
    requires forall v :: v in inDegree0 ==> inDegree0[v] == Unmet(es, {}, v)
    requires InFreedOrder(order, es, [], queue0)
    ensures inDegree.Keys == inDegree0.Keys && Ready(sorted, inDegree)
    ensures PredecessorsFirst(es, sorted) && InFreedOrder(order, es, sorted, sorted)
    ensures forall v :: v in inDegree ==> inDegree[v] == Unmet(es, Elements(sorted), v)
  {
    var queue := queue0;
    sorted, inDegree := [], inDegree0;
    assert Elements(sorted) == {} && sorted + queue == queue;
    while queue != []
      invariant inDegree.Keys == inDegree0.Keys && SortState(order, es, sorted, queue, inDegree)
      decreases |order| - |sorted|
    {
      var id, rest := queue[0], queue[1..];
      NextInSort(order, es, sorted, queue, inDegree);
      TargetsAreVertices(inDegree.Keys, es, id);
      ghost var freed;
      var queue', inDegree';
      queue', inDegree', freed := MeetDependencies(adjacency[id], rest, inDegree, sorted + [id]);
      SortOne(order, es, sorted, queue, inDegree, queue', inDegree', freed);
      sorted, queue, inDegree := sorted + [id], queue', inDegree';
    }
    assert sorted + queue == sorted;
  }

  /** With an empty queue, the sort has listed everything exactly when there is no cycle. */
  lemma {:induction false} SortVerdict(vertices: set<Id>, order: seq<Id>, es: seq<Edge>, sorted: seq<Id>,
                    inDegree: map<Id, int>)
    requires Distinct(order) && Elements(order) == vertices
    requires forall i :: 0 <= i < |es| ==> es[i].source in vertices && es[i].target in vertices
    requires inDegree.Keys == vertices && Ready(sorted, inDegree) && PredecessorsFirst(es, sorted)
    requires forall v :: v in vertices ==> inDegree[v] == Unmet(es, Elements(sorted), v)
    ensures |sorted| == |order| <==> Acyclic(Table(vertices, es))
    ensures |sorted| == |order| ==> Schedule(vertices, es, sorted)
  {
    ReadyMeans(sorted, inDegree);
    DistinctSize(sorted);
    DistinctSize(order);
    var done := Elements(sorted);
    assert done <= vertices;
    if |sorted| == |order| {
      SubsetSize(done, vertices);
      ScheduleMeansAcyclic(vertices, es, sorted);
    } else {
      var v := Missing(done, vertices);
      StalledMeansCycle(vertices, es, done, v);
    }
  }

  class ExecutionGraph {
    var order: seq<Id>
    var nodes: map<Id, ExecutionNode>
    var edges: seq<Edge>

    ghost predicate Valid()
      reads this
    {
      && Distinct(order)
      && Elements(order) == nodes.Keys
      && (forall v :: v in nodes ==> nodes[v].id == v)
      && (forall i :: 0 <= i < |edges| ==> edges[i].source in nodes && edges[i].target in nodes)
    }

    ghost function Graph(): Adjacency<Id>
      reads this
    {
      Table(nodes.Keys, edges)
    }

    constructor ()
      ensures Valid() && order == [] && nodes == map[] && edges == []
    {
      order, nodes, edges := [], map[], [];
    }

    /** A node with a known id replaces the old one and keeps its place in the order. */
    method AddNode(node: ExecutionNode)
      requires Valid()
      modifies this
      ensures Valid()
      ensures nodes == old(nodes)[node.id := node] && edges == old(edges)
      ensures order == if node.id in old(nodes) then old(order) else old(order) + [node.id]
    {
      if node.id !in nodes {
        order := order + [node.id];
      }
      nodes := nodes[node.id := node];
    }

    method AddEdge(source: Id, target: Id, kind: EdgeType := Sequential)
      returns (r: Result<(), BuildError>)
      requires Valid()
      modifies this
      ensures Valid() && order == old(order) && nodes == old(nodes)
      ensures r.Ok? <==> source in nodes && target in nodes
      ensures r.Ok? ==> edges == old(edges) + [Edge(source, target, kind)]
      ensures r.Err? ==> edges == old(edges) && r.error == UnknownNode(source, target)
    {
      if source !in nodes || target !in nodes {
        return Err(UnknownNode(source, target));
      }
      edges := edges + [Edge(source, target, kind)];
      return Ok(());
    }

    method Adjacent() returns (adjacency: Adjacency<Id>)
      requires Valid()
      ensures adjacency == Graph()
    {
      adjacency := map v | v in nodes :: [];
      for i := 0 to |edges|
        invariant adjacency == Table(nodes.Keys, edges[..i])
      {
        var e := edges[i];
        adjacency := adjacency[e.source := adjacency[e.source] + [e.target]];
        assert edges[..i + 1][..i] == edges[..i];
        assert forall u :: u in nodes ==> adjacency[u] == Targets(edges[..i + 1], u);
      }
      assert edges[..|edges|] == edges;
    }

    method InDegrees() returns (inDegree: map<Id, int>)
      requires Valid()
      ensures inDegree.Keys == nodes.Keys
      ensures forall v :: v in nodes ==> inDegree[v] == Unmet(edges, {}, v)
    {
      inDegree := map v | v in nodes :: 0;
      for i := 0 to |edges|
        invariant inDegree.Keys == nodes.Keys
        invariant forall v :: v in nodes ==> inDegree[v] == Unmet(edges[..i], {}, v)
      {
        var e := edges[i];
        inDegree := inDegree[e.target := inDegree[e.target] + 1];
        assert edges[..i + 1][..i] == edges[..i];
      }
      assert edges[..|edges|] == edges;
    }

    method Sources(inDegree: map<Id, int>) returns (queue: seq<Id>)
      requires Valid() && inDegree.Keys == nodes.Keys
      ensures Ready(queue, inDegree) && forall i, j :: 0 <= i < j < |queue| ==> Earlier(order, queue[i], queue[j])
    {
      queue := [];
      for i := 0 to |order|
        invariant forall j, k :: 0 <= j < k < |queue| ==> Earlier(order, queue[j], queue[k])
        invariant forall v :: multiset(queue)[v] == if v in order[..i] && inDegree[v] == 0 then 1 else 0
      {
        if inDegree[order[i]] == 0 {
          assert forall v :: v in queue ==> multiset(queue)[v] > 0;
          SourceJoins(order, i, queue);
          queue := queue + [order[i]];
        }
      }
    }

    /** The ids in dependency order, or nothing when there is a cycle. */
    method SortVertices() returns (sorted: Option<seq<Id>>)
      requires Valid()
      ensures sorted.Some? <==> Acyclic(Graph())
      ensures sorted.Some? ==> Schedule(nodes.Keys, edges, sorted.value)
      ensures sorted.Some? ==> InFreedOrder(order, edges, sorted.value, sorted.value)
    {
      var adjacency := Adjacent();
      var inDegree := InDegrees();
      var queue := Sources(inDegree);
      SourcesInOrder(order, edges, queue, inDegree);
      var ids;
      ids, inDegree := SortIds(order, edges, adjacency, queue, inDegree);
      SortVerdict(nodes.Keys, order, edges, ids, inDegree);
      return if |ids| == |order| then Some(ids) else None;
    }

    method TopologicalSort() returns (r: Result<seq<ExecutionNode>, BuildError>)
      requires Valid()
      ensures r.Ok? <==> Acyclic(Graph())
      ensures r.Err? ==> r.error == ContainsCycle
      ensures r.Ok? ==> Schedule(nodes.Keys, edges, Ids(r.value))
      ensures r.Ok? ==> InFreedOrder(order, edges, Ids(r.value), Ids(r.value))
      ensures r.Ok? ==> forall n :: n in r.value ==> n.id in nodes && nodes[n.id] == n
    {
      var sorted := SortVertices();
      if sorted == None {
        return Err(ContainsCycle);
      }
      var ids := sorted.value;
      var ns := seq(|ids|, i requires 0 <= i < |ids| && ids[i] in nodes reads this => nodes[ids[i]]);
      assert Ids(ns) == ids;
      return Ok(ns);
    }

    /** Every reported list is a simple cycle of the graph, and something is reported if there is one. */
    method DetectCycles() returns (cycles: seq<seq<Id>>)
      requires Valid()
      ensures cycles == [] <==> Acyclic(Graph())
      ensures forall c :: c in cycles ==> SimpleCycle(Graph(), c)
    {
      var adjacency := Adjacent();
      EdgesStayInside(nodes.Keys, edges);
      var finder := new CycleFinder(adjacency);
      assert forall v :: v in order <==> v in Elements(order);
      finder.Run(order);
      cycles := finder.cycles;
    }

    /** One report for all cycles, if any, and then everything that is wrong with the nodes. */
    method ValidatePlan() returns (errors: seq<PlanError>)
      requires Valid()
      ensures errors == [] <==> Acyclic(Graph()) && forall v :: v in nodes ==>
        nodes[v].timeoutMs > 0
        && (nodes[v].hasRollback || (nodes[v].actionType != ModifyFile && nodes[v].actionType != RunCommand))
      ensures Acyclic(Graph()) ==> errors == NodeErrors(order, nodes)
      ensures !Acyclic(Graph()) ==> errors != [] && errors[1..] == NodeErrors(order, nodes)
      ensures !Acyclic(Graph()) ==>
        && errors[0].CyclesDetected? && errors[0].cycles != []
        && forall c :: c in errors[0].cycles ==> SimpleCycle(Graph(), c)
    {
      var cycles := DetectCycles();
      var more := CheckNodes();
      NoNodeErrors(order, nodes);
      assert forall v :: v in order <==> v in Elements(order);
      return (if cycles != [] then [CyclesDetected(cycles)] else []) + more;
    }

    method CheckNode(id: Id, node: ExecutionNode) returns (errors: seq<PlanError>)
      ensures errors == ErrorsOf(id, node)
    {
      errors := [];
      if !node.hasRollback && (node.actionType == ModifyFile || node.actionType == RunCommand) {
        errors := errors + [NoRollback(id)];
      }
      if node.timeoutMs <= 0 {
        errors := errors + [NoTimeout(id)];
      }
    }

    method CheckNodes() returns (errors: seq<PlanError>)
      requires Valid()
      ensures errors == NodeErrors(order, nodes)
    {
      errors := [];
      var ids, known := order, nodes;
      assert forall i :: 0 <= i < |ids| ==> ids[i] in Elements(ids);
      for i := 0 to |ids|
        invariant errors == NodeErrors(ids[..i], known)
      {
        NodeErrorsGrow(ids, i, known);
        var wrong := CheckNode(ids[i], known[ids[i]]);
        errors := errors + wrong;
      }
      assert ids[..|ids|] == ids;
    }
  }
}
