/**
 The part of the orchestrator that turns a submitted plan into a graph and runs it: a plan is accepted
 exactly when it is well formed and acyclic, and an accepted plan runs every node once, in order.
 */
module Orchestrator {
  import opened Common
  import opened Digraph
  import opened ExecutionGraphs
  import RuntimeStates

  /** A step of a plan; id and action type are None when their keys are missing. */
  datatype Step = Step(id: Option<string>, action: string, actionType: Option<string>)

  /** A dependency of the plan; an end is None when its key is missing. */
  datatype Dependency = Dependency(source: Option<string>, target: Option<string>)

  datatype Report = Report(success: bool, completed: seq<Id>)

  function Decimal(n: nat): string {
    (if n < 10 then "" else Decimal(n / 10)) + [('0' as int + n % 10) as char]
  }

  /** A step without an id is numbered after the nodes present so far. */
  function StepId(step: Step, count: nat): Id {
    match step.id
    case Some(text) => Id(text)
    case None => Id("step-" + Decimal(count + 1))
  }

  /** The upper-case form, as far as it consists of the letters that names are made of; any other character
      stands for itself, and no name contains it. */
  function UpperChar(c: char): string {
    if 'a' <= c <= 'z' then [(c as int - 'a' as int + 'A' as int) as char]
    else
      match c
      case '\U{DF}' => "SS"
      case '\U{131}' => "I"
      case '\U{17F}' => "S"
      case '\U{FB00}' => "FF"
      case '\U{FB01}' => "FI"
      case '\U{FB02}' => "FL"
      case '\U{FB03}' => "FFI"
      case '\U{FB04}' => "FFL"
      case '\U{FB05}' => "ST"
      case '\U{FB06}' => "ST"
      case _ => [c]
  }

  function Upper(s: string): string {
    if s == [] then [] else UpperChar(s[0]) + Upper(s[1..])
  }

  function NameOf(t: ActionType): string {
    match t
    case ModifyFile => "MODIFY_FILE"
    case RunCommand => "RUN_COMMAND"
    case ReadAnalysis => "READ_ANALYSIS"
    case Validate => "VALIDATE"
    case NetworkCall => "NETWORK_CALL"
  }

  function Named(name: string): Option<ActionType> {
    if name == NameOf(ModifyFile) then Some(ModifyFile)
    else if name == NameOf(RunCommand) then Some(RunCommand)
    else if name == NameOf(ReadAnalysis) then Some(ReadAnalysis)
    else if name == NameOf(Validate) then Some(Validate)
    else if name == NameOf(NetworkCall) then Some(NetworkCall)
    else None
  }

  /** A name is looked up in any spelling; without one the step only reads. */
  function ActionOf(step: Step): Option<ActionType> {
    if step.actionType == None then Some(ReadAnalysis) else Named(Upper(step.actionType.value))
  }

  lemma {:induction false} NamedIff(name: string, t: ActionType)
    ensures Named(name) == Some(t) <==> name == NameOf(t)
  {
    assert NameOf(ModifyFile)[0] == 'M' && NameOf(RunCommand)[1] == 'U' && NameOf(ReadAnalysis)[1] == 'E';
    assert NameOf(Validate)[0] == 'V' && NameOf(NetworkCall)[0] == 'N' && NameOf(RunCommand)[0] == 'R';
  }

  lemma {:induction false} UpperOfSum(a: string, b: string)
    ensures Upper(a + b) == Upper(a) + Upper(b)
    decreases |a|
  {
    if a == [] {
      assert a + b == b;
    } else {
      assert (a + b)[1..] == a[1..] + b;
      UpperOfSum(a[1..], b);
    }
  }

  lemma {:induction false} UpperStays(u: string)
    requires forall i :: 0 <= i < |u| ==> UpperChar(u[i]) == [u[i]]
    ensures Upper(u) == u
  {
    if u != [] {
      UpperStays(u[1..]);
      assert u == [u[0]] + u[1..];
    }
  }

  lemma {:induction false} UpperOfChar(c: char)
    ensures Upper(UpperChar(c)) == UpperChar(c)
  {
    var u := UpperChar(c);
    assert forall i :: 0 <= i < |u| ==> UpperChar(u[i]) == [u[i]];
    UpperStays(u);
  }

  /** The spelling of a name makes no difference. */
  lemma {:induction false} SpellingIsFree(a: Step, b: Step)
    requires a.actionType.Some? && b.actionType.Some?
    requires b.actionType.value == Upper(a.actionType.value)
    ensures ActionOf(a) == ActionOf(b)
  {
    UpperTwice(a.actionType.value);
  }

  lemma {:induction false} UpperTwice(s: string)
    ensures Upper(Upper(s)) == Upper(s)
  {
    if s != [] {
      UpperTwice(s[1..]);
      UpperOfChar(s[0]);
      UpperOfSum(UpperChar(s[0]), Upper(s[1..]));
    }
  }

  /** The ids of the plan, in the order in which they first occur. */
  ghost function PlanOrder(steps: seq<Step>): seq<Id> {
    if steps == [] then []
    else
      var before := PlanOrder(steps[..|steps| - 1]);
      var id := StepId(steps[|steps| - 1], |before|);
      if id in before then before else before + [id]
  }

  /** The step that each id ends up with: a later step replaces an earlier one. */
  ghost function PlanSteps(steps: seq<Step>): map<Id, Step> {
    if steps == [] then map[]
    else
      var n := |steps| - 1;
      PlanSteps(steps[..n])[StepId(steps[n], |PlanOrder(steps[..n])|) := steps[n]]
  }

  ghost function PlanEdges(deps: seq<Dependency>): seq<Edge>
    requires forall d :: d in deps ==> d.source.Some? && d.target.Some?
  {
    seq(|deps|, i requires 0 <= i < |deps| => Edge(Id(deps[i].source.value), Id(deps[i].target.value), Sequential))
  }

  /** The step changes nothing: the nodes of a plan have no rollback, so a step that changes something fails. */
  ghost predicate OnlyReads(step: Step) {
    ActionOf(step) != Some(ModifyFile) && ActionOf(step) != Some(RunCommand)
  }

  ghost predicate KnownActions(steps: seq<Step>) {
    forall s :: s in steps ==> ActionOf(s).Some?
  }

  ghost predicate KnownEnds(ids: seq<Id>, deps: seq<Dependency>) {
    forall d :: d in deps ==>
      d.source.Some? && d.target.Some? && Id(d.source.value) in ids && Id(d.target.value) in ids
  }

  /** What a plan must satisfy to be run, said without building anything. */
  ghost predicate Acceptable(steps: seq<Step>, deps: seq<Dependency>) {
    && KnownActions(steps)
    && KnownEnds(PlanOrder(steps), deps)
    && (forall id :: id in PlanSteps(steps) ==> OnlyReads(PlanSteps(steps)[id]))
    && Acyclic(Table(Elements(PlanOrder(steps)), PlanEdges(deps)))
  }

  /** The plan's nodes, each made from the last step that names it. */
  ghost predicate MadeFrom(steps: seq<Step>, order: seq<Id>, nodes: map<Id, ExecutionNode>) {
    && order == PlanOrder(steps)
    && nodes.Keys == PlanSteps(steps).Keys
    && forall id :: id in nodes ==>
         && nodes[id].action == PlanSteps(steps)[id].action
         && Some(nodes[id].actionType) == ActionOf(PlanSteps(steps)[id])
         && nodes[id].timeoutMs == 10000
         && !nodes[id].hasRollback
  }

  ghost predicate HoldsSteps(graph: ExecutionGraph, steps: seq<Step>)
    reads graph
  {
    graph.Valid() && MadeFrom(steps, graph.order, graph.nodes)
  }

  lemma {:induction false} OneStepMore(steps: seq<Step>, i: nat)
    requires i < |steps|
    ensures var before, after := steps[..i], steps[..i + 1];
      var id := StepId(steps[i], |PlanOrder(before)|);
      && PlanOrder(after) == (if id in PlanOrder(before) then PlanOrder(before) else PlanOrder(before) + [id])
      && PlanSteps(after) == PlanSteps(before)[id := steps[i]]
      && (KnownActions(after) <==> KnownActions(before) && ActionOf(steps[i]).Some?)
  {
    assert steps[..i + 1][..i] == steps[..i];
    assert forall s :: s in steps[..i + 1] <==> s in steps[..i] || s == steps[i];
  }

  lemma {:induction false} NodeMade(steps: seq<Step>, i: nat, order: seq<Id>, nodes: map<Id, ExecutionNode>,
                                    node: ExecutionNode)
    requires i < |steps| && MadeFrom(steps[..i], order, nodes) && forall v :: v in order <==> v in nodes
    requires node.id == StepId(steps[i], |order|) && node.action == steps[i].action
    requires Some(node.actionType) == ActionOf(steps[i]) && node.timeoutMs == 10000 && !node.hasRollback
    ensures MadeFrom(steps[..i + 1], if node.id in nodes then order else order + [node.id], nodes[node.id := node])
  {
    OneStepMore(steps, i);
  }

  lemma {:induction false} NothingMade(steps: seq<Step>, order: seq<Id>, nodes: map<Id, ExecutionNode>)
    requires |steps| == |order| == |nodes| == 0
    ensures MadeFrom(steps, order, nodes) && KnownActions(steps)
  {
  }

  method AddSteps(graph: ExecutionGraph, steps: seq<Step>) returns (ok: bool)
    requires graph.Valid() && graph.order == [] && graph.nodes == map[] && graph.edges == []
    modifies graph
    ensures ok <==> KnownActions(steps)
    ensures ok ==> HoldsSteps(graph, steps) && graph.edges == []
    ensures ok ==> forall id :: id in graph.nodes ==> fresh(graph.nodes[id])
  {
    NothingMade(steps[..0], graph.order, graph.nodes);
    for i := 0 to |steps|
      invariant KnownActions(steps[..i])
      invariant HoldsSteps(graph, steps[..i]) && graph.edges == []
      invariant forall id :: id in graph.nodes ==> fresh(graph.nodes[id])
    {
      var step := steps[i];
      OneStepMore(steps, i);
      var kind := ActionOf(step);
      if kind == None {
        assert step in steps;
        return false;
      }
      assert forall v :: v in graph.order <==> v in Elements(graph.order);
      var node := new ExecutionNode(StepId(step, |graph.order|), step.action, kind.value);
      NodeMade(steps, i, graph.order, graph.nodes, node);
      graph.AddNode(node);
    }
    assert steps[..|steps|] == steps;
    return true;
  }

  method AddDependencies(graph: ExecutionGraph, deps: seq<Dependency>) returns (ok: bool)
    requires graph.Valid() && graph.edges == []
    modifies graph
    ensures graph.Valid() && graph.order == old(graph.order) && graph.nodes == old(graph.nodes)
    ensures ok <==> KnownEnds(graph.order, deps)
    ensures ok ==> graph.edges == PlanEdges(deps)
  {
    assert forall v :: v in graph.nodes <==> v in Elements(graph.order);
    for i := 0 to |deps|
      invariant graph.Valid() && graph.order == old(graph.order) && graph.nodes == old(graph.nodes)
      invariant KnownEnds(graph.order, deps[..i]) && graph.edges == PlanEdges(deps[..i])
    {
      var dep := deps[i];
      assert forall d :: d in deps[..i + 1] <==> d in deps[..i] || d == dep;
      if dep.source == None || dep.target == None {
        return false;
      }
      var added := graph.AddEdge(Id(dep.source.value), Id(dep.target.value));
      if added.Err? {
        return false;
      }
    }
    assert deps[..|deps|] == deps;
    return true;
  }

  /** Once steps and dependencies are placed, the graph validates exactly when the plan is acceptable. */
  lemma {:induction false} PlacedPlan(graph: ExecutionGraph, steps: seq<Step>, deps: seq<Dependency>)
    requires HoldsSteps(graph, steps) && KnownActions(steps) && KnownEnds(graph.order, deps)
    requires graph.edges == PlanEdges(deps)
    ensures Acyclic(graph.Graph()) && (forall id :: id in graph.nodes ==> graph.nodes[id].Runnable()) <==>
      Acceptable(steps, deps)
  {
    assert graph.nodes.Keys == Elements(PlanOrder(steps));
    forall id | id in graph.nodes
      ensures graph.nodes[id].Runnable() <==> OnlyReads(PlanSteps(steps)[id])
    {
    }
  }

  /** Null exactly when the plan is not acceptable; otherwise the graph of the plan. */
  method BuildExecutionGraph(steps: seq<Step>, deps: seq<Dependency>) returns (graph: ExecutionGraph?)
    ensures graph != null <==> Acceptable(steps, deps)
    ensures graph != null ==> fresh(graph) && HoldsSteps(graph, steps) && graph.edges == PlanEdges(deps)
    ensures graph != null ==> forall id :: id in graph.nodes ==> fresh(graph.nodes[id])
  {
    var g := new ExecutionGraph();
    var known := AddSteps(g, steps);
    if !known {
      return null;
    }
    var connected := AddDependencies(g, deps);
    if !connected {
      return null;
    }
    PlacedPlan(g, steps, deps);
    var errors := g.ValidatePlan();
    if errors != [] {
      return null;
    }
    return g;
  }

  /** Runs the nodes in dependency order and marks each one; a cyclic graph is left as it was. */
  method ExecuteGraph(graph: ExecutionGraph) returns (report: Report)
    requires graph.Valid()
    modifies graph.nodes.Values
    ensures report.success <==> Acyclic(graph.Graph())
    ensures report.success ==> Schedule(graph.nodes.Keys, graph.edges, report.completed)
    ensures report.success ==> InFreedOrder(graph.order, graph.edges, report.completed, report.completed)
    ensures report.success ==> forall id :: id in graph.nodes ==> graph.nodes[id].status == Success
    ensures !report.success ==> report.completed == []
    ensures !report.success ==> forall id :: id in graph.nodes ==> graph.nodes[id].status == old(graph.nodes[id].status)
  {
    var sorted := graph.TopologicalSort();
    if sorted.Err? {
      return Report(false, []);
    }
    var completed := RunNodes(sorted.value);
    forall id | id in graph.nodes
      ensures graph.nodes[id] in sorted.value
    {
      assert id in Elements(Ids(sorted.value));
    }
    return Report(true, completed);
  }

  method RunNodes(ns: seq<ExecutionNode>) returns (completed: seq<Id>)
    modifies set n | n in ns
    ensures completed == Ids(ns)
    ensures forall n :: n in ns ==> n.status == Success
  {
    completed := [];
    for i := 0 to |ns|
      invariant completed == Ids(ns)[..i]
      invariant forall j :: 0 <= j < i ==> ns[j].status == Success
    {
      ns[i].status := Running;
      ns[i].status := Success;
      completed := completed + [ns[i].id];
    }
  }

  class CentralOrchestrator {
    const context: RuntimeStates.StateContext

    constructor (context: RuntimeStates.StateContext)
      ensures this.context == context
    {
      this.context := context;
    }

    /**
     A plan runs if and only if it is acceptable, and then every id once, after its dependencies and in the order
     in which they freed it. The state of the runtime is asked to follow, but what it answers does not matter. A
     graph that was built never fails to run.
     */
    method HandleExecutionPlan(steps: seq<Step>, deps: seq<Dependency>, clock: RuntimeStates.Clock)
      returns (r: Option<Report>)
      requires context.Valid()
      modifies context
      ensures r.Some? <==> Acceptable(steps, deps)
      ensures r.Some? ==>
        r.value.success && Schedule(Elements(PlanOrder(steps)), PlanEdges(deps), r.value.completed)
      ensures r.Some? ==> InFreedOrder(PlanOrder(steps), PlanEdges(deps), r.value.completed, r.value.completed)
      ensures context.Valid()
      ensures context.AsMachine()
        == RuntimeStates.AfterPlan(old(context.AsMachine()), RuntimeStates.Plan(Acceptable(steps, deps), clock))
    {
      var _ := context.Transition(RuntimeStates.Planning, clock.received);
      var graph := BuildExecutionGraph(steps, deps);
      if graph == null {
        var _ := context.Transition(RuntimeStates.Failed, clock.built);
        return None;
      }
      var _ := context.Transition(RuntimeStates.Executing, clock.built);
      var report := ExecuteGraph(graph);
      var _ := context.Transition(RuntimeStates.Verifying, clock.executed);
      assert report.success;
      var _ := context.Transition(RuntimeStates.Completed, clock.checked);
      return Some(report);
    }
  }
}
