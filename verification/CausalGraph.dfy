/**
 Causal graphs: the query that looks for a path to an outcome on any graph, and the builder that turns
 each execution trace into one chain of nodes.
 */
module CausalGraphs {
  import opened Common
  import opened Digraph

  datatype EventId = EventId(text: string)

  datatype Kind = HostEvent | Proposal | Decision | Execution | Blocked | Outcome

  datatype EdgeKind = Proposes | Decides | Executes | Results | Blocks

  /** The textual id is the event id followed by the stage; the pair is the same information. */
  datatype NodeId = NodeId(event: EventId, stage: Kind)

  datatype Node = Node(id: NodeId, correlation: string, kind: Kind, parent: Option<NodeId>, children: seq<NodeId>)

  datatype Edge = Edge(source: NodeId, target: NodeId, kind: EdgeKind)

  datatype CausalGraph = CausalGraph(order: seq<NodeId>, nodes: map<NodeId, Node>, edges: seq<Edge>) {
    ghost predicate Valid() {
      Distinct(order) && Elements(order) == nodes.Keys && forall v :: v in nodes ==> nodes[v].id == v
    }

    ghost function Children(): Adjacency<NodeId> {
      map v | v in nodes :: nodes[v].children
    }
  }

  /** Some edge leads from u to v. */
  ghost predicate Linked(es: seq<Edge>, u: NodeId, v: NodeId) {
    exists e :: e in es && e.source == u && e.target == v
  }

  ghost predicate OutcomeReachable(g: CausalGraph, start: NodeId) {
    exists p :: IsPathToOutcome(g, start, p)
  }

  /** A path along child links from the start to an outcome, with no outcome on the way. */
  ghost predicate IsPathToOutcome(g: CausalGraph, start: NodeId, p: seq<NodeId>) {
    && p != [] && p[0] == start && Walk(g.Children(), p)
    && (forall v :: v in p ==> v in g.nodes)
    && g.nodes[p[|p| - 1]].kind == Outcome
    && (forall i :: 0 <= i < |p| - 1 ==> g.nodes[p[i]].kind != Outcome)
  }

  /** The backtracking search behind path_to_outcome. */
  class PathFinder {
    const graph: CausalGraph
    var visited: set<NodeId>
    var result: seq<Node>
    ghost var trail: seq<NodeId>

    /** The result is the walk taken so far. */
    ghost predicate OnTrail()
      reads this
    {
      && |result| == |trail|
      && (forall i :: 0 <= i < |trail| ==> trail[i] in graph.nodes && result[i] == graph.nodes[trail[i]])
      && (forall v :: v in trail ==> v in visited)
      && Distinct(trail)
      && Walk(graph.Children(), trail)
    }

    /** Whatever was visited and given up is no outcome, and leads only to visited nodes. */
    ghost predicate DeadEndsAreClosed()
      reads this
    {
      && (forall v :: v in visited && v in graph.nodes ==> graph.nodes[v].kind != Outcome)
      && (forall v, w :: v in visited && v !in trail && HasEdge(graph.Children(), v, w) ==> w in visited)
    }

    constructor (graph: CausalGraph)
      ensures this.graph == graph && visited == {} && result == [] && trail == []
    {
      this.graph, visited, result, trail := graph, {}, [], [];
    }

    /** The end of the trail is an outcome, and the only one on it. */
    ghost predicate Found()
      reads this
    {
      && OnTrail() && trail != []
      && graph.nodes[trail[|trail| - 1]].kind == Outcome
      && forall i :: 0 <= i < |trail| - 1 ==> graph.nodes[trail[i]].kind != Outcome
    }

    method Push(id: NodeId)
      requires OnTrail() && DeadEndsAreClosed() && id !in visited && id in graph.nodes
      requires trail != [] ==> HasEdge(graph.Children(), trail[|trail| - 1], id)
      modifies this
      ensures OnTrail() && trail == old(trail) + [id] && visited == old(visited) + {id}
      ensures graph.nodes[id].kind == Outcome ==> Found()
      ensures graph.nodes[id].kind != Outcome ==> DeadEndsAreClosed()
    {
      ExtendWalk(graph.Children(), trail, id);
      visited, result, trail := visited + {id}, result + [graph.nodes[id]], trail + [id];
      assert forall i :: 0 <= i < |trail| - 1 ==> trail[i] in old(trail);
    }

    method Pop()
      requires OnTrail() && DeadEndsAreClosed() && trail != []
      requires forall w :: w in graph.nodes[trail[|trail| - 1]].children ==> w in visited
      modifies `result, `trail
      ensures OnTrail() && DeadEndsAreClosed() && trail == old(trail)[..|old(trail)| - 1]
    {
      var n := |result| - 1;
      SliceWalk(graph.Children(), trail, 0, n);
      assert trail == trail[..n] + [trail[n]];
      result, trail := result[..n], trail[..n];
    }

    method Dfs(id: NodeId) returns (found: bool)
      requires OnTrail() && DeadEndsAreClosed()
      requires trail != [] ==> HasEdge(graph.Children(), trail[|trail| - 1], id)
      modifies this
      ensures id in visited && old(visited) <= visited
      ensures found ==> Found() && old(trail) + [id] <= trail
      ensures !found ==> OnTrail() && DeadEndsAreClosed() && trail == old(trail)
      decreases graph.nodes.Keys - visited, 0
    {
      if id in visited {
        return false;
      }
      if id !in graph.nodes {
        visited := visited + {id};
        return false;
      }
      var node := graph.nodes[id];
      Push(id);
      if node.kind == Outcome {
        return true;
      }
      found := TryChildren(node.children);
      if found {
        return true;
      }
      Pop();
      return false;
    }

    method TryChildren(children: seq<NodeId>) returns (found: bool)
      requires OnTrail() && DeadEndsAreClosed() && trail != []
      requires children == graph.nodes[trail[|trail| - 1]].children
      modifies this
      ensures old(visited) <= visited
      ensures found ==> Found() && old(trail) <= trail
      ensures !found ==> OnTrail() && DeadEndsAreClosed() && trail == old(trail)
      ensures !found ==> forall w :: w in children ==> w in visited
      decreases graph.nodes.Keys - visited, 1
    {
      for k := 0 to |children|
        invariant OnTrail() && DeadEndsAreClosed() && trail == old(trail)
        invariant old(visited) <= visited
        invariant forall j :: 0 <= j < k ==> children[j] in visited
      {
        found := Dfs(children[k]);
        if found {
          return true;
        }
      }
      return false;
    }
  }

  /** Nothing outside a visited set that is closed under children can be reached from inside it. */
  lemma {:induction false} ClosedSetHoldsWalk(g: CausalGraph, visited: set<NodeId>, p: seq<NodeId>)
    requires forall v, w :: v in visited && HasEdge(g.Children(), v, w) ==> w in visited
    requires p != [] && Walk(g.Children(), p) && p[0] in visited
    ensures forall v :: v in p ==> v in visited
  {
    if |p| > 1 {
      var n := |p| - 1;
      SliceWalk(g.Children(), p, 0, n);
      ClosedSetHoldsWalk(g, visited, p[..n]);
      assert HasEdge(g.Children(), p[n - 1], p[n]);
      assert p[n - 1] in p[..n];
      assert p == p[..n] + [p[n]];
    }
  }

  /**
   On any graph the search ends, and answers with a simple path of child links to an outcome if there
   is one, and with nothing exactly if there is none.
   */
  method PathToOutcome(g: CausalGraph, id: NodeId) returns (path: seq<Node>, ghost trail: seq<NodeId>)
    ensures |path| == |trail| && forall i :: 0 <= i < |trail| ==> trail[i] in g.nodes && path[i] == g.nodes[trail[i]]
    ensures path == [] <==> !OutcomeReachable(g, id)
    ensures path != [] ==> IsPathToOutcome(g, id, trail) && Distinct(trail)
  {
    if id !in g.nodes {
      return [], [];
    }
    var finder := new PathFinder(g);
    var found := finder.Dfs(id);
    path, trail := finder.result, finder.trail;
    if found {
      assert IsPathToOutcome(g, id, trail);
    } else {
      forall p | IsPathToOutcome(g, id, p)
        ensures false
      {
        ClosedSetHoldsWalk(g, finder.visited, p);
      }
    }
  }
}
