/** The migration engine: plans by walking down from the target, and migrations of traces by registered transformers. */
module MigrationEngines {
  import opened Common
  import opened Versions
  import opened EvolutionGraphs
  import opened Migrations

  datatype Value = Float(number: real) | Whole(count: int) | Other(text: string)

  type Trace = map<string, Value>

  datatype Transformer = NormalizeRiskScore | AddExecutionConfidence

  /** Percentages become fractions; a missing confidence becomes full confidence. */
  function Apply(t: Transformer, trace: Trace): Trace {
    match t
    case NormalizeRiskScore =>
      if "risk_score" in trace && trace["risk_score"].Float? && trace["risk_score"].number > 1.0
      then trace["risk_score" := Float(trace["risk_score"].number / 100.0)] else trace
    case AddExecutionConfidence =>
      if "execution_confidence" !in trace then trace["execution_confidence" := Float(1.0)] else trace
  }

  type Transformers = map<Step, seq<Transformer>>

  const TRANSFORMERS: Transformers := map[
    Step(Version("1.0.0"), Version("1.1.0")) := [NormalizeRiskScore, AddExecutionConfidence]]

  datatype MigrationError = Unreadable(version: Version) | NoPath | NoTransformer(step: Step)

  function ApplyAll(ts: seq<Transformer>, trace: Trace): Trace {
    if ts == [] then trace else Apply(ts[|ts| - 1], ApplyAll(ts[..|ts| - 1], trace))
  }

  function ApplySteps(registry: Transformers, steps: seq<Step>, trace: Trace): Trace
    requires forall s :: s in steps ==> s in registry
  {
    if steps == [] then trace
    else
      var n := |steps| - 1;
      ApplyAll(registry[steps[n]], ApplySteps(registry, steps[..n], trace))
  }

  /** The first step without a transformer. */
  function FirstMissing(registry: Transformers, steps: seq<Step>): (r: Option<Step>)
    ensures r == None <==> forall s :: s in steps ==> s in registry
  {
    if steps == [] then None
    else if steps[0] !in registry then Some(steps[0])
    else FirstMissing(registry, steps[1..])
  }

  ghost function Migrated(g: Registry, registry: Transformers, trace: Trace, from: Version, to: Version)
    : Result<Trace, MigrationError>
    requires ParentsFirst(g)
  {
    match Planned(g, from, to)
    case Err(v) => Err(Unreadable(v))
    case Ok(plan) =>
      if !plan.supported then Err(NoPath)
      else if FirstMissing(registry, plan.steps).Some? then Err(NoTransformer(FirstMissing(registry, plan.steps).value))
      else Ok(ApplySteps(registry, plan.steps, trace))
  }

  /** The walk down from the target stands at v, with the given path above it. */
  ghost predicate WalkedTo(g: Registry, to: Version, from: Version, v: Version, path: seq<Version>)
    requires ParentsFirst(g)
  {
    && v in g.values
    && Climb(g, to, from) == Extended(Climb(g, v, from), StepsOf([v] + path))
  }

  lemma {:induction false} WalkOn(g: Registry, to: Version, from: Version, v: Version, path: seq<Version>)
    requires ParentsFirst(g) && WalkedTo(g, to, from, v, path) && v != from
    ensures HopFrom(g, v).Err? ==> Climb(g, to, from) == Err(HopFrom(g, v).error)
    ensures HopFrom(g, v) == Ok(None) ==> Climb(g, to, from) == Ok(None)
    ensures HopFrom(g, v).Ok? && HopFrom(g, v).value.Some? ==>
      var p := HopFrom(g, v).value.value;
      Before(g, p, v) && WalkedTo(g, to, from, p, [v] + path)
  {
    var hop := HopFrom(g, v);
    if hop.Ok? && hop.value.Some? {
      FirstParentBefore(g, v);
      OneHopDown(g, v, hop.value.value, from, path);
    }
  }

  lemma {:induction false} WalkEnds(g: Registry, to: Version, from: Version, path: seq<Version>)
    requires ParentsFirst(g) && WalkedTo(g, to, from, from, path)
    ensures Climb(g, to, from) == Ok(Some(StepsOf([from] + path)))
  {
    assert [] + StepsOf([from] + path) == StepsOf([from] + path);
  }

  class MigrationEngine {
    const graph: EvolutionGraph
    const registry: Transformers

    constructor (graph: EvolutionGraph, registry: Transformers := TRANSFORMERS)
      ensures this.graph == graph && this.registry == registry
    {
      this.graph := graph;
      this.registry := registry;
    }

    method BuildPath(from: Version, to: Version) returns (r: Result<Plan, Version>)
      requires graph.Valid()
      ensures r == Planned(graph.nodes, from, to)
    {
      if from == to {
        return Ok(Unsupported(from, to));
      }
      var f, t := Parse(from), Parse(to);
      if f == None {
        return Err(from);
      }
      if t == None {
        return Err(to);
      }
      if f.value.major != t.value.major {
        return Ok(Unsupported(from, to));
      }
      var ancestors := graph.GetAncestors(to);
      if from !in ancestors {
        return Ok(Unsupported(from, to));
      }
      r := WalkDown(from, to);
    }

    method WalkDown(from: Version, to: Version) returns (r: Result<Plan, Version>)
      requires graph.Valid() && from != to && from in Ancestors(graph.nodes, to)
      ensures r == PlanOf(Climb(graph.nodes, to, from), from, to)
    {
      var path: seq<Version> := [];
      var current := to;
      NothingAbove(Climb(graph.nodes, to, from));
      while current != from
        invariant WalkedTo(graph.nodes, to, from, current, path)
        decreases IndexOf(graph.nodes.keys, current)
      {
        WalkOn(graph.nodes, to, from, current, path);
        var hop := HopFrom(graph.nodes, current);
        if hop.Err? {
          return Err(hop.error);
        }
        if hop.value == None {
          return Ok(Unsupported(from, to));
        }
        path := [current] + path;
        current := hop.value.value;
      }
      WalkEnds(graph.nodes, to, from, path);
      return Ok(Plan(from, to, StepsOf([from] + path), true));
    }

    /** Either every step has its transformers, and all are applied in order, or the trace is refused. */
    method MigrateTrace(trace: Trace, from: Version, to: Version) returns (r: Result<Trace, MigrationError>)
      requires graph.Valid()
      ensures r == Migrated(graph.nodes, registry, trace, from, to)
    {
      var planned := BuildPath(from, to);
      if planned.Err? {
        return Err(Unreadable(planned.error));
      }
      var plan := planned.value;
      if !plan.supported {
        return Err(NoPath);
      }
      for i := 0 to |plan.steps|
        invariant FirstMissing(registry, plan.steps) == FirstMissing(registry, plan.steps[i..])
      {
        if plan.steps[i] !in registry {
          return Err(NoTransformer(plan.steps[i]));
        }
      }
      var data := trace;
      for i := 0 to |plan.steps|
        invariant data == ApplySteps(registry, plan.steps[..i], trace)
      {
        assert plan.steps[..i + 1][..i] == plan.steps[..i];
        data := TransformStep(registry[plan.steps[i]], data);
      }
      assert plan.steps[..|plan.steps|] == plan.steps;
      return Ok(data);
    }

    /** An object is read into a dictionary of its attributes, and takes back those that it has. */
    method MigrateObject(fields: Trace, from: Version, to: Version) returns (r: Result<Trace, MigrationError>)
      requires graph.Valid()
      ensures r == MigratedObject(graph.nodes, registry, fields, from, to)
    {
      var migrated := MigrateTrace(fields, from, to);
      if migrated.Err? {
        return migrated;
      }
      var data, result := migrated.value, fields;
      var left := data.Keys;
      while left != {}
        invariant left <= data.Keys && result.Keys == fields.Keys
        invariant forall k :: k in fields && k !in left && k in data ==> result[k] == data[k]
      {
        var k :| k in left;
        if k in fields {
          result := result[k := data[k]];
        }
        left := left - {k};
      }
      MigratedKeepsKeys(graph.nodes, registry, fields, from, to);
      assert result == Kept(data, fields.Keys);
      return Ok(result);
    }
  }

  function Kept(data: Trace, names: set<string>): Trace {
    map k | k in data && k in names :: data[k]
  }

  /** What an object with these attributes has in the end: no attribute more than before. */
  ghost function MigratedObject(g: Registry, registry: Transformers, fields: Trace, from: Version, to: Version)
    : Result<Trace, MigrationError>
    requires ParentsFirst(g)
  {
    var r := Migrated(g, registry, fields, from, to);
    if r.Ok? then Ok(Kept(r.value, fields.Keys)) else r
  }

  ghost predicate AgreeOn(a: Trace, b: Trace, names: set<string>) {
    forall k :: k in names ==> (k in a <==> k in b) && (k in a ==> a[k] == b[k])
  }

  /** No transformer looks at one field to change another, and none removes a field. */
  lemma {:induction false} ApplyIsLocal(t: Transformer, a: Trace, b: Trace, names: set<string>)
    requires AgreeOn(a, b, names)
    ensures AgreeOn(Apply(t, a), Apply(t, b), names) && a.Keys <= Apply(t, a).Keys
  {
  }

  lemma {:induction false} ApplyAllIsLocal(ts: seq<Transformer>, a: Trace, b: Trace, names: set<string>)
    requires AgreeOn(a, b, names)
    ensures AgreeOn(ApplyAll(ts, a), ApplyAll(ts, b), names) && a.Keys <= ApplyAll(ts, a).Keys
  {
    if ts != [] {
      var n := |ts| - 1;
      ApplyAllIsLocal(ts[..n], a, b, names);
      ApplyIsLocal(ts[n], ApplyAll(ts[..n], a), ApplyAll(ts[..n], b), names);
    }
  }

  lemma {:induction false} StepsAreLocal(registry: Transformers, steps: seq<Step>, a: Trace, b: Trace,
                                         names: set<string>)
    requires (forall s :: s in steps ==> s in registry) && AgreeOn(a, b, names)
    ensures AgreeOn(ApplySteps(registry, steps, a), ApplySteps(registry, steps, b), names)
    ensures a.Keys <= ApplySteps(registry, steps, a).Keys
  {
    if steps != [] {
      var n := |steps| - 1;
      StepsAreLocal(registry, steps[..n], a, b, names);
      ApplyAllIsLocal(registry[steps[n]], ApplySteps(registry, steps[..n], a), ApplySteps(registry, steps[..n], b),
                      names);
    }
  }

  /** What becomes of some fields depends on those fields only; whether it works, on none. */
  lemma {:induction false} MigratedIsLocal(g: Registry, registry: Transformers, a: Trace, b: Trace,
                                           names: set<string>, from: Version, to: Version)
    requires ParentsFirst(g) && AgreeOn(a, b, names)
    ensures var r, q := Migrated(g, registry, a, from, to), Migrated(g, registry, b, from, to);
      && (r.Err? ==> q == r) && (r.Ok? ==> q.Ok? && AgreeOn(r.value, q.value, names) && a.Keys <= r.value.Keys)
  {
    var planned := Planned(g, from, to);
    if planned.Ok? && planned.value.supported && FirstMissing(registry, planned.value.steps) == None {
      StepsAreLocal(registry, planned.value.steps, a, b, names);
    }
  }

  lemma {:induction false} MigratedKeepsKeys(g: Registry, registry: Transformers, trace: Trace,
                                             from: Version, to: Version)
    requires ParentsFirst(g)
    ensures var r := Migrated(g, registry, trace, from, to);
      r.Ok? ==> trace.Keys <= r.value.Keys && Kept(r.value, trace.Keys).Keys == trace.Keys
  {
    MigratedIsLocal(g, registry, trace, trace, {}, from, to);
  }

  method TransformStep(ts: seq<Transformer>, trace: Trace) returns (data: Trace)
    ensures data == ApplyAll(ts, trace)
  {
    data := trace;
    for i := 0 to |ts|
      invariant data == ApplyAll(ts[..i], trace)
    {
      assert ts[..i + 1][..i] == ts[..i];
      data := Apply(ts[i], data);
    }
    assert ts[..|ts|] == ts;
  }

  lemma {:induction false} NothingAbove(r: Result<Option<seq<Step>>, Version>)
    ensures Extended(r, []) == r
  {
    if r.Ok? && r.value.Some? {
      assert r.value.value + [] == r.value.value;
    }
  }

  lemma {:induction false} ApplyConcatenated(registry: Transformers, a: seq<Step>, b: seq<Step>, trace: Trace)
    requires forall s :: s in a + b ==> s in registry
    requires (forall s :: s in a ==> s in registry) && forall s :: s in b ==> s in registry
    ensures ApplySteps(registry, a + b, trace) == ApplySteps(registry, b, ApplySteps(registry, a, trace))
  {
    if b == [] {
      assert a + b == a;
    } else {
      var n := |b| - 1;
      assert (a + b)[..|a| + n] == a + b[..n];
      assert (a + b)[|a| + n] == b[n];
      ApplyConcatenated(registry, a, b[..n], trace);
    }
  }

  lemma {:induction false} MissingInConcatenated(registry: Transformers, a: seq<Step>, b: seq<Step>)
    ensures FirstMissing(registry, a + b)
      == if FirstMissing(registry, a).Some? then FirstMissing(registry, a) else FirstMissing(registry, b)
  {
    if a == [] {
      assert a + b == b;
    } else {
      assert (a + b)[1..] == a[1..] + b;
      MissingInConcatenated(registry, a[1..], b);
    }
  }

  /** Migrating through a version in between comes to the same as migrating at once, errors included. */
  lemma {:induction false} MigrationsCompose(g: Registry, registry: Transformers, trace: Trace,
                                             from: Version, mid: Version, to: Version)
    requires ParentsFirst(g) && Supported(g, from, mid) && Supported(g, mid, to)
    ensures var r := Migrated(g, registry, trace, from, mid);
      Migrated(g, registry, trace, from, to) == if r.Ok? then Migrated(g, registry, r.value, mid, to) else r
  {
    SupportedIff(g, from, mid);
    SupportedIff(g, mid, to);
    PlansCompose(g, from, mid, to);
    var a, b := Planned(g, from, mid).value.steps, Planned(g, mid, to).value.steps;
    MissingInConcatenated(registry, a, b);
    if FirstMissing(registry, a + b) == None {
      ApplyConcatenated(registry, a, b, trace);
    }
  }

  lemma {:induction false} KeptAgree(a: Trace, b: Trace, names: set<string>)
    requires AgreeOn(a, b, names)
    ensures Kept(a, names) == Kept(b, names)
  {
    assert Kept(a, names).Keys == Kept(b, names).Keys;
  }

  /** An object that has some of the fields of a dictionary keeps up with it on those fields. */
  lemma {:induction false} ObjectFollows(g: Registry, registry: Transformers, data: Trace, names: set<string>,
                                         from: Version, to: Version)
    requires ParentsFirst(g) && names <= data.Keys
    ensures var r := Migrated(g, registry, data, from, to);
      MigratedObject(g, registry, Kept(data, names), from, to) == if r.Ok? then Ok(Kept(r.value, names)) else r
  {
    MigratedIsLocal(g, registry, data, Kept(data, names), names, from, to);
    assert Kept(data, names).Keys == names;
    var r, q := Migrated(g, registry, data, from, to), Migrated(g, registry, Kept(data, names), from, to);
    if r.Ok? {
      KeptAgree(r.value, q.value, names);
    }
  }

  /** The same holds for objects, although an object forgets the fields it cannot take between two migrations. */
  lemma {:induction false} ObjectMigrationsCompose(g: Registry, registry: Transformers, fields: Trace,
                                                   from: Version, mid: Version, to: Version)
    requires ParentsFirst(g) && Supported(g, from, mid) && Supported(g, mid, to)
    ensures var r := MigratedObject(g, registry, fields, from, mid);
      && (r.Ok? ==> r.value.Keys == fields.Keys)
      && MigratedObject(g, registry, fields, from, to)
         == if r.Ok? then MigratedObject(g, registry, r.value, mid, to) else r
  {
    MigrationsCompose(g, registry, fields, from, mid, to);
    var first := Migrated(g, registry, fields, from, mid);
    if first.Ok? {
      MigratedKeepsKeys(g, registry, fields, from, mid);
      ObjectFollows(g, registry, first.value, fields.Keys, mid, to);
    }
  }

  // The one registered migration

  const V100 := Version("1.0.0")
  const V110 := Version("1.1.0")

  lemma {:induction false} StandardVersionsRead()
    ensures Parse(V100) == Some(Triple(1, 0, 0)) && Parse(V110) == Some(Triple(1, 1, 0))
  {
    RenderedReadsBack(Triple(1, 0, 0));
    RenderedReadsBack(Triple(1, 1, 0));
    assert Digits(0) == "0" && Digits(1) == "1";
    assert Render(Triple(1, 0, 0)).text == "1.0.0";
    assert Render(Triple(1, 1, 0)).text == "1.1.0";
  }

  predicate RiskIsFraction(trace: Trace) {
    "risk_score" in trace && trace["risk_score"].Float? ==> trace["risk_score"].number <= 1.0
  }

  /**
   Wherever 1.0.0 is the first parent of 1.1.0, every trace migrates; only the two fields can change, and the
   risk becomes a fraction exactly when it was a fraction or a percentage before.
   */
  lemma {:induction false} StandardMigration(g: Registry, trace: Trace)
    requires ParentsFirst(g) && V110 in g.values && g.values[V110].parents != [] && g.values[V110].parents[0] == V100
    ensures var r := Migrated(g, TRANSFORMERS, trace, V100, V110);
      && r.Ok?
      && r.value.Keys == trace.Keys + {"execution_confidence"}
      && (forall k :: k in trace && k != "risk_score" ==> r.value[k] == trace[k])
      && ("execution_confidence" !in trace ==> r.value["execution_confidence"] == Float(1.0))
      && ("risk_score" in trace && trace["risk_score"].Float? && trace["risk_score"].number > 1.0 ==>
            r.value["risk_score"] == Float(trace["risk_score"].number / 100.0))
      && ("risk_score" in trace && !(trace["risk_score"].Float? && trace["risk_score"].number > 1.0) ==>
            r.value["risk_score"] == trace["risk_score"])
      && (RiskIsFraction(r.value) <==>
            ("risk_score" in trace && trace["risk_score"].Float? ==> trace["risk_score"].number <= 100.0))
  {
    StandardPlan(g);
    StandardSteps(trace);
  }

  lemma {:induction false} StandardPlan(g: Registry)
    requires ParentsFirst(g) && V110 in g.values && g.values[V110].parents != [] && g.values[V110].parents[0] == V100
    ensures Planned(g, V100, V110) == Ok(Plan(V100, V110, [Step(V100, V110)], true))
  {
    StandardVersionsRead();
    FirstParentBefore(g, V110);
    IndexIs(Ancestors(g, V110), V100, 0);
    assert V100.text[2] != V110.text[2];
    assert HopAllowed(V100, V110);
    assert Segment(g, V110, V100) == [V110, V100];
    SupportedIff(g, V100, V110);
    assert Planned(g, V100, V110).value.steps == [Step(V100, V110)];
  }

  lemma {:induction false} StandardSteps(trace: Trace)
    ensures Step(V100, V110) in TRANSFORMERS && FirstMissing(TRANSFORMERS, [Step(V100, V110)]) == None
    ensures ApplySteps(TRANSFORMERS, [Step(V100, V110)], trace)
      == Apply(AddExecutionConfidence, Apply(NormalizeRiskScore, trace))
  {
    var steps := [Step(V100, V110)];
    var ts := TRANSFORMERS[steps[0]];
    assert ts == [NormalizeRiskScore, AddExecutionConfidence];
    assert ts[..1] == [NormalizeRiskScore] && ts[..1][..0] == [];
    assert steps[..0] == [];
    assert ApplyAll(ts[..1], trace) == Apply(NormalizeRiskScore, trace);
  }
}
