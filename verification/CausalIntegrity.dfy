/**
 The integrity engine: four detectors over any causal graph, and what they say about the graphs that
 the builder makes.
 */
module CausalIntegrity {
  import opened Common
  import opened Digraph
  import opened CycleSearch
  import opened CausalGraphs
  import opened GridArithmetic

  datatype Severity = Warning | Critical

  datatype IssueType = Orphan | MissingEdge | Cycle | ImpossibleTransition

  datatype Issue = Issue(kind: IssueType, severity: Severity, nodes: seq<NodeId>)

  datatype Report = Report(healthy: bool, orphans: nat, missing: nat, cycles: nat, impossible: nat,
                           issues: seq<Issue>, healthyEvents: int, totalEvents: nat, continuity: int)

  /** The kinds that may follow each kind. */
  function Expected(k: Kind): set<Kind> {
    match k
    case HostEvent => {Proposal, Blocked}
    case Proposal => {Decision, Blocked}
    case Decision => {Execution, Blocked}
    case Execution => {Outcome}
    case Blocked => {Outcome}
    case Outcome => {}
  }

  ghost predicate Touched(g: CausalGraph, v: NodeId) {
    exists e :: e in g.edges && (e.source == v || e.target == v)
  }

  /** A node that names a parent but has no children and no edge at all. */
  ghost predicate IsOrphan(g: CausalGraph, v: NodeId) {
    v in g.nodes && g.nodes[v].parent.Some? && g.nodes[v].children == [] && !Touched(g, v)
  }

  ghost predicate LacksParentEdge(g: CausalGraph, v: NodeId) {
    v in g.nodes && g.nodes[v].parent.Some? && !Linked(g.edges, g.nodes[v].parent.value, v)
  }

  /** A node other than an outcome that is entered but never left towards a node of the graph. */
  ghost predicate IsDeadEnd(g: CausalGraph, v: NodeId) {
    && v in g.nodes && !LacksParentEdge(g, v)
    && g.nodes[v].kind != Outcome
    && (exists e :: e in g.edges && e.target == v)
    && (forall e :: e in g.edges && e.source == v ==> e.target !in g.nodes)
  }

  ghost predicate IsIllegal(g: CausalGraph, e: Edge) {
    e.source in g.nodes && e.target in g.nodes && g.nodes[e.target].kind !in Expected(g.nodes[e.source].kind)
  }

  ghost function OrphanIssues(g: CausalGraph, vs: seq<NodeId>): seq<Issue> {
    if vs == [] then []
    else
      var v := vs[|vs| - 1];
      OrphanIssues(g, vs[..|vs| - 1]) + if IsOrphan(g, v) then [Issue(Orphan, Warning, [v])] else []
  }

  ghost function MissingIssues(g: CausalGraph, vs: seq<NodeId>): seq<Issue> {
    if vs == [] then []
    else
      var v := vs[|vs| - 1];
      MissingIssues(g, vs[..|vs| - 1])
      + if LacksParentEdge(g, v) then [Issue(MissingEdge, Warning, [v, g.nodes[v].parent.value])]
        else if IsDeadEnd(g, v) then [Issue(MissingEdge, Warning, [v])]
        else []
  }

  ghost function IllegalIssues(g: CausalGraph, es: seq<Edge>): seq<Issue> {
    if es == [] then []
    else
      var e := es[|es| - 1];
      IllegalIssues(g, es[..|es| - 1])
      + if IsIllegal(g, e) then [Issue(ImpossibleTransition, Critical, [e.source, e.target])] else []
  }

  lemma {:induction false} OrphanIssuesEmpty(g: CausalGraph, vs: seq<NodeId>)
    ensures OrphanIssues(g, vs) == [] <==> forall v :: v in vs ==> !IsOrphan(g, v)
    ensures forall x :: x in OrphanIssues(g, vs) ==> x.kind == Orphan && x.severity == Warning
  {
    if vs != [] {
      OrphanIssuesEmpty(g, vs[..|vs| - 1]);
      assert vs == vs[..|vs| - 1] + [vs[|vs| - 1]];
    }
  }

  lemma {:induction false} MissingIssuesEmpty(g: CausalGraph, vs: seq<NodeId>)
    ensures MissingIssues(g, vs) == [] <==> forall v :: v in vs ==> !LacksParentEdge(g, v) && !IsDeadEnd(g, v)
    ensures forall x :: x in MissingIssues(g, vs) ==> x.kind == MissingEdge && x.severity == Warning
  {
    if vs != [] {
      MissingIssuesEmpty(g, vs[..|vs| - 1]);
      assert vs == vs[..|vs| - 1] + [vs[|vs| - 1]];
    }
  }

  /** The events at the ends of impossible transitions. */
  ghost function IllegalEvents(g: CausalGraph, es: seq<Edge>): set<EventId> {
    (set e | e in es && IsIllegal(g, e) :: e.source.event) + (set e | e in es && IsIllegal(g, e) :: e.target.event)
  }

  lemma {:induction false} IllegalIssuesTell(g: CausalGraph, es: seq<Edge>)
    ensures IllegalIssues(g, es) == [] <==> forall e :: e in es ==> !IsIllegal(g, e)
    ensures forall x :: x in IllegalIssues(g, es) <==>
      exists e :: e in es && IsIllegal(g, e) && x == Issue(ImpossibleTransition, Critical, [e.source, e.target])
  {
    if es != [] {
      IllegalIssuesTell(g, es[..|es| - 1]);
      assert es == es[..|es| - 1] + [es[|es| - 1]];
    }
  }

  method DetectOrphans(g: CausalGraph) returns (issues: seq<Issue>)
    requires g.Valid()
    ensures issues == OrphanIssues(g, g.order)
  {
    issues := [];
    for i := 0 to |g.order|
      invariant issues == OrphanIssues(g, g.order[..i])
    {
      var v := g.order[i];
      assert v in Elements(g.order);
      var node := g.nodes[v];
      var connects := exists k :: 0 <= k < |g.edges| && (g.edges[k].source == v || g.edges[k].target == v);
      assert connects <==> Touched(g, v);
      assert g.order[..i + 1][..i] == g.order[..i];
      if !(node.parent == None && node.children == [] && !connects) {
        if node.children == [] && !connects && node.parent != None {
          issues := issues + [Issue(Orphan, Warning, [v])];
        }
      }
    }
    assert g.order[..|g.order|] == g.order;
  }

  method DetectMissingEdges(g: CausalGraph) returns (issues: seq<Issue>)
    requires g.Valid()
    ensures issues == MissingIssues(g, g.order)
  {
    issues := [];
    for i := 0 to |g.order|
      invariant issues == MissingIssues(g, g.order[..i])
    {
      var v := g.order[i];
      assert v in Elements(g.order);
      assert g.order[..i + 1][..i] == g.order[..i];
      var found := MissingAt(g, v);
      issues := issues + found;
    }
    assert g.order[..|g.order|] == g.order;
  }

  /** The checks on one node; the kinds that may follow play no part once nothing leaves the node. */
  method MissingAt(g: CausalGraph, v: NodeId) returns (issues: seq<Issue>)
    requires v in g.nodes
    ensures issues == if LacksParentEdge(g, v) then [Issue(MissingEdge, Warning, [v, g.nodes[v].parent.value])]
                      else if IsDeadEnd(g, v) then [Issue(MissingEdge, Warning, [v])]
                      else []
  {
    var node := g.nodes[v];
    if node.parent.Some? {
      var linked := exists k :: 0 <= k < |g.edges| && g.edges[k].source == node.parent.value && g.edges[k].target == v;
      assert linked <==> Linked(g.edges, node.parent.value, v);
      if !linked {
        return [Issue(MissingEdge, Warning, [v, node.parent.value])];
      }
    }
    var expected := Expected(node.kind);
    if expected == {} {
      return [];
    }
    var outgoing := set e | e in g.edges && e.source == v && e.target in g.nodes :: g.nodes[e.target].kind;
    var entered := exists k :: 0 <= k < |g.edges| && g.edges[k].target == v;
    assert entered <==> exists e :: e in g.edges && e.target == v;
    assert outgoing == {} <==> forall e :: e in g.edges && e.source == v ==> e.target !in g.nodes by {
      assert forall e :: e in g.edges && e.source == v && e.target in g.nodes ==> g.nodes[e.target].kind in outgoing;
    }
    var hasValidTransition := expected * outgoing != {};
    if !hasValidTransition && node.kind != Outcome && outgoing == {} && entered {
      return [Issue(MissingEdge, Warning, [v])];
    }
    return [];
  }

  method DetectImpossibleTransitions(g: CausalGraph) returns (issues: seq<Issue>)
    ensures issues == IllegalIssues(g, g.edges)
  {
    issues := [];
    for i := 0 to |g.edges|
      invariant issues == IllegalIssues(g, g.edges[..i])
    {
      var e := g.edges[i];
      assert g.edges[..i + 1][..i] == g.edges[..i];
      if e.source in g.nodes && e.target in g.nodes {
        if g.nodes[e.target].kind !in Expected(g.nodes[e.source].kind) {
          issues := issues + [Issue(ImpossibleTransition, Critical, [e.source, e.target])];
        }
      }
    }
    assert g.edges[..|g.edges|] == g.edges;
  }

  /** A reported list goes round: it repeats nothing, and its last vertex leads back to its first. */
  ghost predicate GoesRound(g: Adjacency<NodeId>, c: seq<NodeId>) {
    c != [] && SimpleCycle(g, c + [c[0]])
  }

  lemma {:induction false} TakeBack(path: seq<NodeId>, id: NodeId)
    ensures (path + [id])[..|path|] == path
  {
  }

  /** The depth-first search of the engine: it tests the path on entry, and follows dangling children. */
  class CycleScan {
    const graph: CausalGraph
    var visited: set<NodeId>
    var path: seq<NodeId>
    var cycles: seq<seq<NodeId>>
    ghost var finished: seq<NodeId>

    ghost predicate Valid()
      reads this
    {
      && (forall v :: v in path ==> v in visited)
      && (forall v :: v in finished <==> v in visited && v !in path)
      && Distinct(path)
      && Walk(graph.Children(), path)
      && (forall c :: c in cycles ==> GoesRound(graph.Children(), c))
      && (cycles == [] ==> FinishOrder(graph.Children(), finished))
    }

    constructor (graph: CausalGraph)
      ensures Valid() && this.graph == graph && path == [] && visited == {} && cycles == []
    {
      this.graph, visited, path, cycles, finished := graph, {}, [], [], [];
    }

    method Enter(id: NodeId)
      requires Valid() && id !in visited
      requires path != [] ==> HasEdge(graph.Children(), path[|path| - 1], id)
      modifies `visited, `path
      ensures Valid() && path == old(path) + [id] && visited == old(visited) + {id}
    {
      ExtendWalk(graph.Children(), path, id);
      visited, path := visited + {id}, path + [id];
    }

    method Leave()
      requires Valid() && path != []
      requires cycles == [] ==>
        forall w :: HasEdge(graph.Children(), path[|path| - 1], w) ==> w in visited && w !in path
      modifies `path, `finished
      ensures Valid() && path == old(path)[..|old(path)| - 1]
    {
      var n := |path| - 1;
      ghost var node := path[n];
      if cycles == [] {
        assert node in graph.nodes ==>
          forall w :: w in graph.Children()[node] ==> HasEdge(graph.Children(), node, w);
        FinishOrderGrows(graph.Children(), finished, node);
      }
      SliceWalk(graph.Children(), path, 0, n);
      assert path == path[..n] + [node];
      path, finished := path[..n], finished + [node];
    }

    method Close(id: NodeId)
      requires Valid() && id in path && HasEdge(graph.Children(), path[|path| - 1], id)
      modifies `cycles
      ensures Valid() && cycles != [] && old(cycles) <= cycles
    {
      PathCloses(graph.Children(), path, id);
      var start := IndexOf(path, id);
      cycles := cycles + [path[start..]];
    }

    method Dfs(id: NodeId)
      requires Valid() && (path != [] ==> HasEdge(graph.Children(), path[|path| - 1], id))
      modifies this
      ensures Valid() && path == old(path) && old(cycles) <= cycles && old(visited) <= visited
      ensures id in visited && (cycles == [] ==> id !in path)
      decreases graph.nodes.Keys - visited, 1
    {
      if id in path {
        Close(id);
      } else if id !in visited {
        Visit(id);
      }
    }

    method Visit(id: NodeId)
      requires Valid() && id !in visited && (path != [] ==> HasEdge(graph.Children(), path[|path| - 1], id))
      modifies this
      ensures Valid() && path == old(path) && old(cycles) <= cycles && old(visited) + {id} <= visited
      decreases graph.nodes.Keys - visited, 0
    {
      ghost var before := path;
      Enter(id);
      if id in graph.nodes {
        FollowChildren(graph.nodes[id].children);
      }
      Leave();
      TakeBack(before, id);
    }

    method FollowChildren(children: seq<NodeId>)
      requires Valid() && path != [] && path[|path| - 1] in graph.nodes
      requires children == graph.nodes[path[|path| - 1]].children
      modifies this
      ensures Valid() && path == old(path) && old(cycles) <= cycles && old(visited) <= visited
      ensures cycles == [] ==> forall w :: w in children ==> w in visited && w !in path
      decreases graph.nodes.Keys - visited, 2
    {
      for k := 0 to |children|
        invariant Valid() && path == old(path) && old(cycles) <= cycles && old(visited) <= visited
        invariant cycles == [] ==> forall j :: 0 <= j < k ==> children[j] in visited && children[j] !in path
      {
        ghost var quiet := cycles == [];
        assert HasEdge(graph.Children(), path[|path| - 1], children[k]);
        Dfs(children[k]);
        assert cycles == [] ==> quiet;
      }
    }
  }

  /** On any graph, something is reported exactly if the child links go round somewhere. */
  method DetectCycles(g: CausalGraph) returns (issues: seq<Issue>)
    requires g.Valid()
    ensures issues == [] <==> Acyclic(g.Children())
    ensures forall x :: x in issues ==> TellsCycle(g, x)
  {
    var scan := new CycleScan(g);
    for i := 0 to |g.order|
      invariant scan.Valid() && scan.path == []
      invariant forall j :: 0 <= j < i ==> g.order[j] in scan.visited
    {
      if g.order[i] !in scan.visited {
        scan.Dfs(g.order[i]);
      }
    }
    issues := seq(|scan.cycles|, i requires 0 <= i < |scan.cycles| reads scan =>
                    Issue(Cycle, Critical, scan.cycles[i]));
    if scan.cycles == [] {
      assert forall v :: v in g.Children() ==> v in Elements(g.order);
      FinishOrderMeansAcyclic(g.Children(), scan.finished);
    } else {
      assert GoesRound(g.Children(), scan.cycles[0]);
    }
  }

  ghost function CountOf(issues: seq<Issue>, kind: IssueType): nat {
    if issues == [] then 0
    else CountOf(issues[..|issues| - 1], kind) + if issues[|issues| - 1].kind == kind then 1 else 0
  }

  lemma {:induction false} CountOfAppend(a: seq<Issue>, b: seq<Issue>, kind: IssueType)
    ensures CountOf(a + b, kind) == CountOf(a, kind) + CountOf(b, kind)
  {
    if b == [] {
      assert a + b == a;
    } else {
      CountOfAppend(a, b[..|b| - 1], kind);
      assert (a + b)[..|a + b| - 1] == a + b[..|b| - 1];
    }
  }

  lemma {:induction false} CountOfUniform(issues: seq<Issue>, kind: IssueType, k: IssueType)
    requires forall x :: x in issues ==> x.kind == kind
    ensures CountOf(issues, k) == if k == kind then |issues| else 0
  {
    if issues != [] {
      CountOfUniform(issues[..|issues| - 1], kind, k);
    }
  }

  function Counted(counts: map<IssueType, nat>, kind: IssueType): nat {
    if kind in counts then counts[kind] else 0
  }

  method CountByType(issues: seq<Issue>) returns (counts: map<IssueType, nat>)
    ensures forall k :: Counted(counts, k) == CountOf(issues, k)
  {
    counts := map[];
    for i := 0 to |issues|
      invariant forall k :: (if k in counts then counts[k] else 0) == CountOf(issues[..i], k)
    {
      var k := issues[i].kind;
      assert issues[..i + 1][..i] == issues[..i];
      counts := counts[k := (if k in counts then counts[k] else 0) + 1];
    }
    assert issues[..|issues|] == issues;
  }

  /** The events of the nodes that critical issues point at. */
  ghost function EventsNamed(g: CausalGraph, issues: seq<Issue>): set<EventId> {
    set x, v | x in issues && x.severity == Critical && v in x.nodes && v in g.nodes :: v.event
  }

  method CriticalEvents(g: CausalGraph, issues: seq<Issue>) returns (events: set<EventId>)
    ensures events == EventsNamed(g, issues)
  {
    events := {};
    for i := 0 to |issues|
      invariant events == EventsNamed(g, issues[..i])
    {
      var x := issues[i];
      var here := if x.severity == Critical then set v | v in x.nodes && v in g.nodes :: v.event else {};
      EventsNamedGrow(g, issues[..i], issues[i]);
      assert issues[..i + 1] == issues[..i] + [issues[i]];
      events := events + here;
    }
    assert issues[..|issues|] == issues;
  }

  lemma {:induction false} EventsNamedGrow(g: CausalGraph, issues: seq<Issue>, x: Issue)
    ensures EventsNamed(g, issues + [x]) == EventsNamed(g, issues)
      + if x.severity == Critical then set v | v in x.nodes && v in g.nodes :: v.event else {}
  {
    forall e | e in EventsNamed(g, issues)
      ensures e in EventsNamed(g, issues + [x])
    {
      var y, v :| y in issues && y.severity == Critical && v in y.nodes && v in g.nodes && v.event == e;
      assert y in issues + [x];
    }
    assert x in issues + [x];
  }

  ghost function Events(g: CausalGraph): set<EventId> {
    set v | v in g.nodes :: v.event
  }

  /** A cycle is reported by nodes that go round. */
  ghost predicate TellsCycle(g: CausalGraph, x: Issue) {
    x.kind == Cycle && x.severity == Critical && GoesRound(g.Children(), x.nodes)
  }

  /** The issues in the order of the detectors; only the choice of the reported cycles is left to the search. */
  ghost predicate IssueList(g: CausalGraph, issues: seq<Issue>, cycles: seq<Issue>) {
    && issues == OrphanIssues(g, g.order) + MissingIssues(g, g.order) + cycles + IllegalIssues(g, g.edges)
    && (cycles == [] <==> Acyclic(g.Children()))
    && forall x :: x in cycles ==> TellsCycle(g, x)
  }

  lemma {:induction false} CountsAre(g: CausalGraph, issues: seq<Issue>, cycles: seq<Issue>, k: IssueType)
    requires IssueList(g, issues, cycles)
    ensures CountOf(issues, k)
      == (if k == Orphan then |OrphanIssues(g, g.order)| else 0)
       + (if k == MissingEdge then |MissingIssues(g, g.order)| else 0)
       + (if k == Cycle then |cycles| else 0)
       + (if k == ImpossibleTransition then |IllegalIssues(g, g.edges)| else 0)
  {
    var orphans, missing, impossible := OrphanIssues(g, g.order), MissingIssues(g, g.order), IllegalIssues(g, g.edges);
    OrphanIssuesEmpty(g, g.order);
    MissingIssuesEmpty(g, g.order);
    IllegalIssuesTell(g, g.edges);
    CountOfAppend(orphans + missing + cycles, impossible, k);
    CountOfAppend(orphans + missing, cycles, k);
    CountOfAppend(orphans, missing, k);
    CountOfUniform(orphans, Orphan, k);
    CountOfUniform(missing, MissingEdge, k);
    assert forall x :: x in cycles ==> TellsCycle(g, x);
    CountOfUniform(cycles, Cycle, k);
    CountOfUniform(impossible, ImpossibleTransition, k);
  }

  lemma {:induction false} FourCounts(g: CausalGraph, issues: seq<Issue>, cycles: seq<Issue>)
    requires IssueList(g, issues, cycles)
    ensures CountOf(issues, Orphan) == |OrphanIssues(g, g.order)|
    ensures CountOf(issues, MissingEdge) == |MissingIssues(g, g.order)|
    ensures CountOf(issues, Cycle) == |cycles|
    ensures CountOf(issues, ImpossibleTransition) == |IllegalIssues(g, g.edges)|
  {
    CountsAre(g, issues, cycles, Orphan);
    CountsAre(g, issues, cycles, MissingEdge);
    CountsAre(g, issues, cycles, Cycle);
    CountsAre(g, issues, cycles, ImpossibleTransition);
  }

  /** The share of healthy events in units of 1/10000. */
  function Continuity(healthy: int, total: nat): int {
    Round(ONE * (healthy as real / (if total == 0 then 1 else total) as real))
  }

  /** All issues, and which of them report cycles. */
  method FindIssues(g: CausalGraph) returns (issues: seq<Issue>, ghost cycles: seq<Issue>)
    requires g.Valid()
    ensures IssueList(g, issues, cycles)
  {
    var orphans := DetectOrphans(g);
    var missing := DetectMissingEdges(g);
    var found := DetectCycles(g);
    var impossible := DetectImpossibleTransitions(g);
    issues, cycles := orphans + missing + found + impossible, found;
  }

  lemma {:induction false} NoIssuesIff(g: CausalGraph, issues: seq<Issue>, cycles: seq<Issue>)
    requires IssueList(g, issues, cycles)
    ensures issues == []
      <==> OrphanIssues(g, g.order) == [] && MissingIssues(g, g.order) == [] && cycles == []
           && IllegalIssues(g, g.edges) == []
  {
  }

  method Validate(g: CausalGraph) returns (r: Report, ghost cycles: seq<Issue>)
    requires g.Valid()
    ensures IssueList(g, r.issues, cycles) && r.cycles == |cycles|
    ensures r.orphans == |OrphanIssues(g, g.order)| && r.missing == |MissingIssues(g, g.order)|
    ensures r.impossible == |IllegalIssues(g, g.edges)|
    ensures r.cycles == 0 <==> Acyclic(g.Children())
    ensures r.healthy <==> r.orphans == 0 && r.missing == 0 && r.cycles == 0 && r.impossible == 0
    ensures r.totalEvents == |Events(g)| && r.healthyEvents == |Events(g)| - |EventsNamed(g, r.issues)|
    ensures r.continuity == Continuity(r.healthyEvents, r.totalEvents)
  {
    var issues;
    issues, cycles := FindIssues(g);
    var counts := CountByType(issues);
    FourCounts(g, issues, cycles);
    NoIssuesIff(g, issues, cycles);
    var critical := CriticalEvents(g, issues);
    var total := |set v | v in g.nodes :: v.event|;
    r := Report(issues == [], Counted(counts, Orphan), Counted(counts, MissingEdge), Counted(counts, Cycle),
                Counted(counts, ImpossibleTransition), issues,
                total - |critical|, total, Continuity(total - |critical|, total));
  }

  /** The events of the nodes on reported cycles. */
  ghost function CycleEvents(g: CausalGraph, cycles: seq<Issue>): set<EventId> {
    set x, v | x in cycles && v in x.nodes && v in g.nodes :: v.event
  }

  lemma {:induction false} IllegalIsNamed(g: CausalGraph, issues: seq<Issue>)
    requires forall x :: x in IllegalIssues(g, g.edges) ==> x in issues
    ensures IllegalEvents(g, g.edges) <= EventsNamed(g, issues)
  {
    IllegalIssuesTell(g, g.edges);
    forall e | e in IllegalEvents(g, g.edges)
      ensures e in EventsNamed(g, issues)
    {
      var d :| d in g.edges && IsIllegal(g, d) && (d.source.event == e || d.target.event == e);
      var x := Issue(ImpossibleTransition, Critical, [d.source, d.target]);
      assert x in IllegalIssues(g, g.edges);
      assert d.source in x.nodes && d.target in x.nodes;
    }
  }

  lemma {:induction false} CycleIsNamed(g: CausalGraph, issues: seq<Issue>, cycles: seq<Issue>)
    requires forall x :: x in cycles ==> x in issues && TellsCycle(g, x)
    ensures CycleEvents(g, cycles) <= EventsNamed(g, issues)
  {
    forall e | e in CycleEvents(g, cycles)
      ensures e in EventsNamed(g, issues)
    {
      var x, v :| x in cycles && v in x.nodes && v in g.nodes && v.event == e;
      assert TellsCycle(g, x);
    }
  }

  lemma {:induction false} CriticalOnes(g: CausalGraph, issues: seq<Issue>, cycles: seq<Issue>, x: Issue)
    requires IssueList(g, issues, cycles)
    ensures x in issues && x.severity == Critical ==> x in cycles || x in IllegalIssues(g, g.edges)
    ensures x in cycles || x in IllegalIssues(g, g.edges) ==> x in issues
  {
    OrphanIssuesEmpty(g, g.order);
    MissingIssuesEmpty(g, g.order);
  }

  lemma {:induction false} NothingElseIsNamed(g: CausalGraph, issues: seq<Issue>, cycles: seq<Issue>)
    requires IssueList(g, issues, cycles)
    ensures EventsNamed(g, issues) <= IllegalEvents(g, g.edges) + CycleEvents(g, cycles)
  {
    IllegalIssuesTell(g, g.edges);
    forall e | e in EventsNamed(g, issues)
      ensures e in IllegalEvents(g, g.edges) + CycleEvents(g, cycles)
    {
      var x, v :| x in issues && x.severity == Critical && v in x.nodes && v in g.nodes && v.event == e;
      CriticalOnes(g, issues, cycles, x);
      if x !in cycles {
        var d :| d in g.edges && IsIllegal(g, d) && x == Issue(ImpossibleTransition, Critical, [d.source, d.target]);
      }
    }
  }

  /** An event is unhealthy for one of two reasons: an impossible transition, or a node on a reported cycle. */
  lemma {:induction false} EventsNamedAre(g: CausalGraph, issues: seq<Issue>, cycles: seq<Issue>)
    requires IssueList(g, issues, cycles)
    ensures EventsNamed(g, issues) == IllegalEvents(g, g.edges) + CycleEvents(g, cycles)
  {
    NothingElseIsNamed(g, issues, cycles);
    forall x
      ensures x in cycles || x in IllegalIssues(g, g.edges) ==> x in issues
    {
      CriticalOnes(g, issues, cycles, x);
    }
    IllegalIsNamed(g, issues);
    assert forall x :: x in cycles ==> TellsCycle(g, x);
    CycleIsNamed(g, issues, cycles);
  }

  /** Without cycles, exactly the events at impossible transitions are unhealthy. */
  lemma {:induction false} AcyclicEventsNamed(g: CausalGraph, issues: seq<Issue>, cycles: seq<Issue>)
    requires IssueList(g, issues, cycles)
    ensures Acyclic(g.Children()) ==> EventsNamed(g, issues) == IllegalEvents(g, g.edges)
  {
    EventsNamedAre(g, issues, cycles);
    assert cycles == [] ==> CycleEvents(g, cycles) == {};
  }

  lemma {:induction false} Share(unhealthy: nat, total: nat)
    requires unhealthy <= total && 0 < total
    ensures 0.0 <= (total - unhealthy) as real / total as real <= 1.0
    ensures ONE - 0.5 <= ONE * ((total - unhealthy) as real / total as real) <==> 20000 * unhealthy <= total
  {
    var t := total as real;
    var share := (total - unhealthy) as real / t;
    assert share * t == t - unhealthy as real;
    var above := ONE * share - (ONE - 0.5);
    assert above * t == ONE * (share * t) - (ONE - 0.5) * t == 0.5 * t - ONE * unhealthy as real;
    assert (total - 20000 * unhealthy) as real == 2.0 * (above * t);
    if above >= 0.0 {
      assert above * t >= 0.0;
    } else {
      assert above * t < 0.0;
    }
  }

  lemma {:induction false} RoundsToFull(x: real)
    requires 0.0 <= x <= ONE
    ensures Round(x) == 10000 <==> ONE - 0.5 <= x
  {
    if x < ONE {
      assert x.Floor <= 9999;
    }
  }

  /** With rounding, the score is full although some events are unhealthy once there are 20000 events for each
      of them; and an empty graph is healthy but scores nothing. */
  lemma {:induction false} FullScoreIff(unhealthy: nat, total: nat)
    requires unhealthy <= total
    ensures 0 <= Continuity(total - unhealthy, total) <= 10000
    ensures Continuity(total - unhealthy, total) == 10000 <==> 0 < total && 20000 * unhealthy <= total
    ensures Continuity(0, 0) == 0
    ensures 0 < total ==>
      var share := (total - unhealthy) as real / total as real;
      -0.5 <= Continuity(total - unhealthy, total) as real - 10000.0 * share <= 0.5
  {
    RoundWhole(0);
    if total > 0 {
      Share(unhealthy, total);
      var x := ONE * ((total - unhealthy) as real / total as real);
      RoundBetween(x, 0, 10000);
      RoundsToFull(x);
    }
  }
}
