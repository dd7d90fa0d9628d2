/**
 Depth-first search in three colours. A vertex is unseen (0), on the current path (1) or finished (2);
 an edge back to the current path closes a cycle.
 */
module CycleSearch {
  import opened Common
  import opened Digraph

  /** Every finished vertex has all its successors finished before it. */
  ghost predicate FinishOrder<T>(g: Adjacency<T>, s: seq<T>) {
    forall i :: 0 <= i < |s| && s[i] in g ==> forall v :: v in g[s[i]] ==> v in s[..i]
  }

  lemma {:induction false} FinishOrderGrows<T>(g: Adjacency<T>, s: seq<T>, u: T)
    requires FinishOrder(g, s) && (u in g ==> forall v :: v in g[u] ==> v in s)
    ensures FinishOrder(g, s + [u])
  {
    var s' := s + [u];
    forall i | 0 <= i < |s'| && s'[i] in g
      ensures forall v :: v in g[s'[i]] ==> v in s'[..i]
    {
      assert s'[..i] == s[..i];
    }
  }

  lemma {:induction false} FinishOrderMeansAcyclic<T(!new)>(g: Adjacency<T>, s: seq<T>)
    requires FinishOrder(g, s) && forall v :: v in g ==> v in s
    ensures Acyclic(g)
  {
    var h: map<T, nat> := map v | v in s :: IndexOf(s, v);
    forall u, v | HasEdge(g, u, v) && u in h
      ensures v in h && h[v] < h[u]
    {
      var before := s[..IndexOf(s, u)];
      assert v in before;
      var k := IndexOf(before, v);
      assert s[k] == v;
      assert forall j :: 0 <= j < h[v] ==> s[j] == s[..h[v]][j] != v;
    }
    assert g.Keys <= h.Keys;
    HeightForbidsCycles(g, h);
  }

  /** Closing the path at one of its own vertices gives a simple cycle. */
  lemma {:induction false} PathCloses<T>(g: Adjacency<T>, path: seq<T>, v: T)
    requires Distinct(path) && Walk(g, path) && v in path && HasEdge(g, path[|path| - 1], v)
    ensures SimpleCycle(g, path[IndexOf(path, v)..] + [v])
  {
    var start := IndexOf(path, v);
    var tail := path[start..];
    SliceWalk(g, path, start, |path|);
    ExtendWalk(g, tail, v);
    assert (tail + [v])[..|tail|] == tail;
  }

  class CycleFinder<T(==, !new)> {
    const adjacency: Adjacency<T>
    var visited: map<T, int>
    var path: seq<T>
    var cycles: seq<seq<T>>
    ghost var finished: seq<T>

    ghost predicate Valid()
      reads this
    {
      && visited.Keys == adjacency.Keys
      && (forall u, v :: HasEdge(adjacency, u, v) ==> v in adjacency)
      && (forall v :: v in visited ==> 0 <= visited[v] <= 2)
      && (forall v :: v in path <==> v in visited && visited[v] == 1)
      && (forall v :: v in finished <==> v in visited && visited[v] == 2)
      && Distinct(path)
      && Walk(adjacency, path)
      && (forall c :: c in cycles ==> SimpleCycle(adjacency, c))
      && (cycles == [] ==> FinishOrder(adjacency, finished))
    }

    ghost function Unseen(): set<T>
      reads this
    {
      set v | v in visited && visited[v] == 0
    }

    constructor (adjacency: Adjacency<T>)
      requires forall u, v :: HasEdge(adjacency, u, v) ==> v in adjacency
      ensures Valid() && this.adjacency == adjacency
      ensures path == [] && cycles == []
      ensures forall v :: v in adjacency ==> visited[v] == 0
    {
      this.adjacency := adjacency;
      visited := map v | v in adjacency :: 0;
      path, cycles, finished := [], [], [];
    }

    /** Colour the vertex and put it on the path. */
    method Enter(node: T)
      requires Valid() && node in visited && visited[node] == 0
      requires path != [] ==> HasEdge(adjacency, path[|path| - 1], node)
      modifies `visited, `path
      ensures Valid() && path == old(path) + [node] && visited == old(visited)[node := 1]
      ensures Unseen() < old(Unseen())
    {
      ExtendWalk(adjacency, path, node);
      assert node !in path;
      visited, path := visited[node := 1], path + [node];
      assert node in old(Unseen()) && node !in Unseen();
    }

    /** Take the last vertex off the path and colour it finished. */
    method Leave()
      requires Valid() && path != []
      requires cycles == [] ==>
        forall v :: HasEdge(adjacency, path[|path| - 1], v) ==> v in visited && visited[v] == 2
      modifies `visited, `path, `finished
      ensures Valid() && path == old(path)[..|old(path)| - 1]
      ensures visited == old(visited)[old(path)[|old(path)| - 1] := 2]
    {
      var n := |path| - 1;
      ghost var node := path[n];
      if cycles == [] {
        assert forall v :: v in adjacency[node] ==> HasEdge(adjacency, node, v);
        FinishOrderGrows(adjacency, finished, node);
      }
      SliceWalk(adjacency, path, 0, n);
      assert path == path[..n] + [node];
      visited, path, finished := visited[path[n] := 2], path[..n], finished + [node];
    }

    /** Report the part of the path that leads from the vertex back to it. */
    method Close(neighbor: T)
      requires Valid() && neighbor in path && HasEdge(adjacency, path[|path| - 1], neighbor)
      modifies `cycles
      ensures Valid() && cycles == old(cycles) + [path[IndexOf(path, neighbor)..] + [neighbor]]
    {
      PathCloses(adjacency, path, neighbor);
      var start := IndexOf(path, neighbor);
      cycles := cycles + [path[start..] + [neighbor]];
    }

    method Dfs(node: T)
      requires Valid() && node in visited && visited[node] == 0
      requires path != [] ==> HasEdge(adjacency, path[|path| - 1], node)
      modifies this
      ensures Valid() && path == old(path) && old(cycles) <= cycles
      ensures visited[node] == 2
      ensures forall v :: v in adjacency && old(visited[v]) != 0 ==> visited[v] == old(visited[v])
      decreases Unseen(), 0
    {
      Enter(node);
      VisitAll(adjacency[node]);
      Leave();
    }

    /** The neighbours of the vertex at the end of the path, in order. */
    method VisitAll(neighbors: seq<T>)
      requires Valid() && path != [] && path[|path| - 1] in adjacency
      requires neighbors == adjacency[path[|path| - 1]]
      modifies this
      ensures Valid() && path == old(path) && old(cycles) <= cycles
      ensures cycles == [] ==> forall v :: v in neighbors ==> v in visited && visited[v] == 2
      ensures forall v :: v in adjacency && old(visited[v]) != 0 ==> visited[v] == old(visited[v])
      decreases Unseen(), 2
    {
      for k := 0 to |neighbors|
        invariant Valid() && path == old(path) && old(cycles) <= cycles
        invariant cycles == [] ==>
          forall j :: 0 <= j < k ==> neighbors[j] in visited && visited[neighbors[j]] == 2
        invariant forall v :: v in adjacency && old(visited[v]) != 0 ==> visited[v] == old(visited[v])
        invariant Unseen() <= old(Unseen())
      {
        ghost var seen := visited;
        ghost var quiet := cycles == [];
        Visit(neighbors[k]);
        assert cycles == [] ==> quiet;
        if cycles == [] {
          forall j | 0 <= j <= k
            ensures neighbors[j] in visited && visited[neighbors[j]] == 2
          {
            assert j < k ==> seen[neighbors[j]] == 2;
            assert HasEdge(adjacency, path[|path|-1], neighbors[j]);
          }
        }
      }
    }

    /** One neighbour of the vertex at the end of the path. */
    method Visit(neighbor: T)
      requires Valid() && path != [] && HasEdge(adjacency, path[|path| - 1], neighbor)
      modifies this
      ensures Valid() && path == old(path) && old(cycles) <= cycles
      ensures cycles == [] ==> visited[neighbor] == 2
      ensures forall v :: v in adjacency && old(visited[v]) != 0 ==> visited[v] == old(visited[v])
      ensures Unseen() <= old(Unseen())
      decreases Unseen(), 1
    {
      if visited[neighbor] == 1 {
        Close(neighbor);
      } else if visited[neighbor] == 0 {
        Dfs(neighbor);
      }
    }

    /** The outer loop: start a search from every vertex that is still unseen. */
    method Run(order: seq<T>)
      requires Valid() && path == [] && forall v :: v in order <==> v in adjacency
      modifies this
      ensures Valid() && (cycles == [] <==> Acyclic(adjacency))
    {
      for i := 0 to |order|
        invariant Valid() && path == []
        invariant forall j :: 0 <= j < i ==> order[j] in visited && visited[order[j]] == 2
      {
        if visited[order[i]] == 0 {
          Dfs(order[i]);
        }
      }
      if cycles == [] {
        FinishOrderMeansAcyclic(adjacency, finished);
      } else {
        assert SimpleCycle(adjacency, cycles[0]);
      }
    }
  }
}
