/** The lineage graph of schema versions: parents are registered before their children. */
module EvolutionGraphs {
  import opened Common
  import opened OrderedDict
  import opened Versions

  datatype SchemaNode = SchemaNode(version: Version, parents: seq<Version>)

  datatype RegistrationError = AlreadyRegistered(version: Version) | ParentMissing(version: Version)

  type Registry = Dict<Version, SchemaNode>

  /** Every node stands under its own version, and its parents stand before it. */
  ghost predicate ParentsFirst(g: Registry) {
    && g.Valid()
    && (forall v :: v in g.values ==> g.values[v].version == v)
    && forall v, p :: v in g.values && p in g.values[v].parents ==> Before(g, p, v)
  }

  ghost predicate Before(g: Registry, p: Version, v: Version)
  {
    p in g.keys && v in g.keys && IndexOf(g.keys, p) < IndexOf(g.keys, v)
  }

  predicate IsRoot(g: Registry, v: Version)
    requires v in g.values
  {
    g.values[v].parents == []
  }

  /** The first parent, its first parent, and so on to a root. */
  ghost function Ancestors(g: Registry, v: Version): (r: seq<Version>)
    requires ParentsFirst(g)
    ensures forall a :: a in r ==> Before(g, a, v)
    decreases if v in g.keys then IndexOf(g.keys, v) else 0
  {
    if v !in g.values || IsRoot(g, v) then []
    else
      var p := g.values[v].parents[0];
      assert Before(g, p, v);
      [p] + Ancestors(g, p)
  }

  lemma {:induction false} FirstParentBefore(g: Registry, v: Version)
    requires ParentsFirst(g) && v in g.values && !IsRoot(g, v)
    ensures Before(g, g.values[v].parents[0], v)
    ensures Ancestors(g, v) == [g.values[v].parents[0]] + Ancestors(g, g.values[v].parents[0])
  {
  }

  /** A walk along first parents, without repetition, that ends at a root. */
  ghost predicate IsLineage(g: Registry, line: seq<Version>) {
    && line != [] && Distinct(line)
    && (forall i :: 0 <= i < |line| ==> line[i] in g.values)
    && (forall i :: 0 <= i < |line| - 1 ==> !IsRoot(g, line[i]) && line[i + 1] == g.values[line[i]].parents[0])
    && IsRoot(g, line[|line| - 1])
  }

  lemma {:induction false} LineageGrows(g: Registry, v: Version, rest: seq<Version>)
    requires IsLineage(g, rest) && v in g.values && v !in rest
    requires !IsRoot(g, v) && rest[0] == g.values[v].parents[0]
    ensures IsLineage(g, [v] + rest)
  {
    var line := [v] + rest;
    forall i | 0 <= i < |line| - 1
      ensures !IsRoot(g, line[i]) && line[i + 1] == g.values[line[i]].parents[0]
    {
      assert i > 0 ==> line[i] == rest[i - 1];
    }
  }

  lemma {:induction false} AncestorsFormLineage(g: Registry, v: Version)
    requires ParentsFirst(g) && v in g.values
    ensures IsLineage(g, [v] + Ancestors(g, v))
    decreases if v in g.keys then IndexOf(g.keys, v) else 0
  {
    if !IsRoot(g, v) {
      FirstParentBefore(g, v);
      var p := g.values[v].parents[0];
      AncestorsFormLineage(g, p);
      assert v !in Ancestors(g, v);
      LineageGrows(g, v, [p] + Ancestors(g, p));
    }
  }

  /** The ancestors of an ancestor are a suffix. */
  lemma {:induction false} AncestorsOfAncestor(g: Registry, v: Version, i: nat)
    requires ParentsFirst(g) && i < |Ancestors(g, v)|
    ensures Ancestors(g, v)[i + 1..] == Ancestors(g, Ancestors(g, v)[i])
    decreases i
  {
    FirstParentBefore(g, v);
    var p := g.values[v].parents[0];
    if i > 0 {
      AncestorsOfAncestor(g, p, i - 1);
      assert Ancestors(g, v)[i + 1..] == Ancestors(g, p)[i..];
    }
  }

  class EvolutionGraph {
    var nodes: Registry

    ghost predicate Valid()
      reads this
    {
      ParentsFirst(nodes)
    }

    constructor ()
      ensures Valid() && nodes.keys == []
    {
      nodes := Dict([], map[]);
    }

    /** A known version or an unknown parent is refused, and then nothing changes. */
    method RegisterNode(node: SchemaNode) returns (r: Result<(), RegistrationError>)
      requires Valid()
      modifies this
      ensures Valid()
      ensures r.Ok? <==> node.version !in old(nodes.values) && forall p :: p in node.parents ==> p in old(nodes.values)
      ensures r.Ok? ==> nodes == old(nodes).Put(node.version, node)
      ensures r.Err? ==> nodes == old(nodes)
      ensures r == Err(AlreadyRegistered(node.version)) <==> node.version in old(nodes.values)
      ensures r.Err? && r.error.ParentMissing? ==>
        r.error.version in node.parents && r.error.version !in old(nodes.values)
    {
      if node.version in nodes.values {
        return Err(AlreadyRegistered(node.version));
      }
      for i := 0 to |node.parents|
        invariant forall j :: 0 <= j < i ==> node.parents[j] in nodes.values
      {
        if node.parents[i] !in nodes.values {
          return Err(ParentMissing(node.parents[i]));
        }
      }
      RegisteredLast(nodes, node);
      nodes := nodes.Put(node.version, node);
      return Ok(());
    }

    /** Every registered version leads to a root. */
    method HasLineageToRoot(version: Version) returns (found: bool)
      requires Valid()
      ensures found <==> version in nodes.values
    {
      if version !in nodes.values {
        return false;
      }
      var visited: set<Version> := {};
      var current := version;
      while nodes.values[current].parents != []
        invariant current in nodes.values
        invariant forall v :: v in visited ==> Before(nodes, current, v)
        decreases IndexOf(nodes.keys, current)
      {
        if current in visited {
          return false;
        }
        visited := visited + {current};
        var parent := nodes.values[current].parents[0];
        FirstParentBefore(nodes, current);
        if parent !in nodes.values {
          return false;
        }
        current := parent;
      }
      return true;
    }

    method GetAncestors(version: Version) returns (result: seq<Version>)
      requires Valid()
      ensures result == Ancestors(nodes, version)
    {
      result := [];
      if version !in nodes.values {
        return;
      }
      var visited: set<Version> := {};
      var current := version;
      while nodes.values[current].parents != []
        invariant current in nodes.values
        invariant forall v :: v in visited ==> Before(nodes, current, v)
        invariant result + Ancestors(nodes, current) == Ancestors(nodes, version)
        decreases IndexOf(nodes.keys, current)
      {
        if current in visited {
          break;
        }
        visited := visited + {current};
        var parent := nodes.values[current].parents[0];
        FirstParentBefore(nodes, current);
        if parent !in nodes.values {
          break;
        }
        Reassociate(result, parent, Ancestors(nodes, parent));
        result := result + [parent];
        current := parent;
      }
    }

    method IsOrphan(version: Version) returns (orphan: bool)
      requires Valid()
      ensures !orphan
    {
      if version !in nodes.values {
        return false;
      }
      var found := HasLineageToRoot(version);
      return !found;
    }

    method DetectOrphans() returns (orphans: seq<Version>)
      requires Valid()
      ensures orphans == []
    {
      orphans := [];
      for i := 0 to |nodes.keys|
        invariant orphans == []
      {
        var v := nodes.keys[i];
        var orphan := IsOrphan(v);
        if orphan {
          orphans := orphans + [v];
        }
      }
    }
  }

  lemma {:induction false} Reassociate(result: seq<Version>, parent: Version, rest: seq<Version>)
    ensures result + ([parent] + rest) == (result + [parent]) + rest
  {
  }

  lemma {:induction false} RegisteredLast(g: Registry, node: SchemaNode)
    requires ParentsFirst(g) && node.version !in g.values
    requires forall p :: p in node.parents ==> p in g.values
    ensures ParentsFirst(g.Put(node.version, node))
  {
    var g' := g.Put(node.version, node);
    g.PutIsValid(node.version, node);
    forall v, p | v in g'.values && p in g'.values[v].parents
      ensures Before(g', p, v)
    {
      if v != node.version {
        assert Before(g, p, v);
        IndexInLonger(g.keys, node.version, v);
      } else {
        IndexInLonger(g.keys, node.version, p);
      }
      IndexInLonger(g.keys, node.version, p);
    }
  }

  lemma {:induction false} IndexInLonger<T>(s: seq<T>, x: T, y: T)
    requires y in s
    ensures y in s + [x] && IndexOf(s + [x], y) == IndexOf(s, y) < |s|
    ensures x !in s ==> IndexOf(s + [x], x) == |s|
  {
    var j := IndexOf(s, y);
    assert (s + [x])[..j] == s[..j];
    IndexIs(s + [x], y, j);
    if x !in s {
      assert (s + [x])[..|s|] == s;
      IndexIs(s + [x], x, |s|);
    }
  }
}
