/** Migration plans along first parents, and the migration of traces by them. */
module Migrations {
  import opened Common
  import opened Versions
  import opened EvolutionGraphs

  datatype Step = Step(from: Version, to: Version)

  datatype Plan = Plan(from: Version, to: Version, steps: seq<Step>, supported: bool)

  /** Same major version, and at most one minor version apart. */
  predicate HopAllowed(parent: Version, child: Version) {
    Parse(parent).Some? && Parse(child).Some? &&
    var p, c := Parse(parent).value, Parse(child).value;
    p.major == c.major && Abs(c.minor - p.minor) <= MAX_SUPPORTED_DELTA
  }

  function Unsupported(from: Version, to: Version): Plan {
    Plan(from, to, [], false)
  }

  /** The first parent if the hop down to it is allowed; an error if one of the two texts is no version. */
  function HopFrom(g: Registry, v: Version): Result<Option<Version>, Version>
    requires v in g.values
  {
    if IsRoot(g, v) then Ok(None)
    else
      var p := g.values[v].parents[0];
      if Parse(p) == None then Err(p)
      else if Parse(v) == None then Err(v)
      else if HopAllowed(p, v) then Ok(Some(p)) else Ok(None)
  }

  /** The steps that lead from an ancestor up to v, found by hopping down from v. */
  ghost function Climb(g: Registry, v: Version, from: Version): Result<Option<seq<Step>>, Version>
    requires ParentsFirst(g)
    decreases if v in g.keys then IndexOf(g.keys, v) else 0
  {
    if v == from then Ok(Some([]))
    else if v !in g.values then Ok(None)
    else
      match HopFrom(g, v)
      case Err(u) => Err(u)
      case Ok(None) => Ok(None)
      case Ok(Some(p)) =>
        assert Before(g, p, v);
        Extended(Climb(g, p, from), [Step(p, v)])
  }

  ghost function Extended(r: Result<Option<seq<Step>>, Version>, tail: seq<Step>): Result<Option<seq<Step>>, Version> {
    match r
    case Ok(Some(steps)) => Ok(Some(steps + tail))
    case _ => r
  }

  ghost function Planned(g: Registry, from: Version, to: Version): Result<Plan, Version>
    requires ParentsFirst(g)
  {
    if from == to then Ok(Unsupported(from, to))
    else if Parse(from) == None then Err(from)
    else if Parse(to) == None then Err(to)
    else if Parse(from).value.major != Parse(to).value.major || from !in Ancestors(g, to) then Ok(Unsupported(from, to))
    else PlanOf(Climb(g, to, from), from, to)
  }

  function PlanOf(r: Result<Option<seq<Step>>, Version>, from: Version, to: Version): Result<Plan, Version> {
    match r
    case Err(v) => Err(v)
    case Ok(None) => Ok(Unsupported(from, to))
    case Ok(Some(steps)) => Ok(Plan(from, to, steps, true))
  }

  /** The steps between neighbours of a path. */
  function StepsOf(path: seq<Version>): seq<Step> {
    if |path| < 2 then [] else [Step(path[0], path[1])] + StepsOf(path[1..])
  }

  ghost predicate Climbs(g: Registry, v: Version, from: Version)
    requires ParentsFirst(g)
  {
    Climb(g, v, from).Ok? && Climb(g, v, from).value.Some?
  }

  ghost function ClimbSteps(g: Registry, v: Version, from: Version): seq<Step>
    requires ParentsFirst(g) && Climbs(g, v, from)
  {
    Climb(g, v, from).value.value
  }

  /** One hop of the walk. */
  lemma {:induction false} ClimbHop(g: Registry, v: Version, from: Version)
    requires ParentsFirst(g) && v in g.values && v != from && !IsRoot(g, v)
    ensures var p := g.values[v].parents[0];
      && (Climbs(g, v, from) <==> HopAllowed(p, v) && Climbs(g, p, from))
      && (Climbs(g, v, from) ==> ClimbSteps(g, v, from) == ClimbSteps(g, p, from) + [Step(p, v)])
  {
  }

  lemma {:induction false} ClimbHopRaises(g: Registry, v: Version, from: Version)
    requires ParentsFirst(g) && v in g.values && v != from && !IsRoot(g, v) && Parse(v).Some?
    ensures var p := g.values[v].parents[0];
      Climb(g, v, from).Err? <==> Parse(p) == None || (HopAllowed(p, v) && Climb(g, p, from).Err?)
  {
  }

  lemma {:induction false} ClimbNone(g: Registry, v: Version)
    requires ParentsFirst(g)
    ensures Climbs(g, v, v) && ClimbSteps(g, v, v) == []
  {
  }

  /** What a plan builder returns when the walk stands at v with the given path above it. */
  lemma {:induction false} OneHopDown(g: Registry, v: Version, p: Version, from: Version, path: seq<Version>)
    requires ParentsFirst(g) && v in g.values && v != from && HopFrom(g, v) == Ok(Some(p))
    ensures Extended(Climb(g, v, from), StepsOf([v] + path)) == Extended(Climb(g, p, from), StepsOf([p] + ([v] + path)))
  {
    assert ([p] + ([v] + path))[1..] == [v] + path;
    var r := Climb(g, p, from);
    if r.Ok? && r.value.Some? {
      var above := StepsOf([v] + path);
      assert (r.value.value + [Step(p, v)]) + above == r.value.value + ([Step(p, v)] + above);
    }
  }

  // When a plan is supported

  /** The sequence up to its first x. */
  function Through<T(==)>(s: seq<T>, x: T): seq<T>
    requires x in s
  {
    s[..IndexOf(s, x) + 1]
  }

  lemma {:induction false} ThroughGrows<T>(y: T, s: seq<T>, x: T)
    requires x in [y] + s
    ensures y == x ==> Through([y] + s, x) == [y]
    ensures y != x ==> x in s && Through([y] + s, x) == [y] + Through(s, x)
  {
    assert ([y] + s)[1..] == s;
  }

  /** From v down to one of its ancestors. */
  ghost function Segment(g: Registry, v: Version, from: Version): seq<Version>
    requires ParentsFirst(g) && (v == from || from in Ancestors(g, v))
  {
    if v == from then [v] else [v] + Through(Ancestors(g, v), from)
  }

  ghost predicate AllHopsAllowed(line: seq<Version>) {
    forall i :: 0 <= i < |line| - 1 ==> HopAllowed(line[i + 1], line[i])
  }

  /** The steps run down the segment from its far end. */
  ghost predicate StepsAlong(steps: seq<Step>, line: seq<Version>) {
    && |steps| == |line| - 1
    && forall i :: 0 <= i < |steps| ==> steps[i] == Step(line[|line| - 1 - i], line[|line| - 2 - i])
  }

  lemma {:induction false} SegmentGrows(g: Registry, v: Version, from: Version)
    requires ParentsFirst(g) && v in g.values && v != from && from in Ancestors(g, v)
    ensures !IsRoot(g, v)
    ensures var p := g.values[v].parents[0];
      && (p == from || from in Ancestors(g, p))
      && Segment(g, v, from) == [v] + Segment(g, p, from)
  {
    FirstParentBefore(g, v);
    var p := g.values[v].parents[0];
    ThroughGrows(p, Ancestors(g, p), from);
  }

  /** The walk succeeds exactly when every hop down to the ancestor is allowed, and then lists those hops. */
  lemma {:induction false} ClimbIff(g: Registry, v: Version, from: Version)
    requires ParentsFirst(g) && v in g.values && (v == from || from in Ancestors(g, v))
    ensures AllHopsAllowed(Segment(g, v, from)) <==> Climbs(g, v, from)
    ensures Climbs(g, v, from) ==> StepsAlong(ClimbSteps(g, v, from), Segment(g, v, from))
    decreases if v in g.keys then IndexOf(g.keys, v) else 0
  {
    if v == from {
      ClimbNone(g, v);
    } else {
      SegmentGrows(g, v, from);
      FirstParentBefore(g, v);
      ClimbHop(g, v, from);
      var p := g.values[v].parents[0];
      ClimbIff(g, p, from);
      var rest := Segment(g, p, from);
      HopsGrow(v, rest);
      if Climbs(g, v, from) {
        StepsGrow(ClimbSteps(g, p, from), v, rest);
      }
    }
  }

  lemma {:induction false} StepsGrow(steps: seq<Step>, v: Version, rest: seq<Version>)
    requires rest != [] && StepsAlong(steps, rest)
    ensures StepsAlong(steps + [Step(rest[0], v)], [v] + rest)
  {
    var line := [v] + rest;
    assert forall i :: 0 <= i < |rest| ==> line[i + 1] == rest[i];
  }

  lemma {:induction false} HopsGrow(v: Version, rest: seq<Version>)
    requires rest != []
    ensures AllHopsAllowed([v] + rest) <==> HopAllowed(rest[0], v) && AllHopsAllowed(rest)
  {
    var line := [v] + rest;
    assert line[1] == rest[0] && line[0] == v;
    assert forall i :: 0 <= i < |rest| ==> line[i + 1] == rest[i];
    if AllHopsAllowed(line) {
      forall i | 0 <= i < |rest| - 1
        ensures HopAllowed(rest[i + 1], rest[i])
      {
        assert HopAllowed(line[i + 2], line[i + 1]);
      }
    }
  }

  /** Allowed hops stay within one major version, and each covers at most one minor version. */
  lemma {:induction false} HopsBoundDistance(line: seq<Version>)
    requires |line| >= 2 && AllHopsAllowed(line)
    ensures HopAllowed(line[1], line[0]) && Parse(line[0]).Some? && Parse(line[|line| - 1]).Some?
    ensures Parse(line[0]).value.major == Parse(line[|line| - 1]).value.major
    ensures Abs(Parse(line[0]).value.minor - Parse(line[|line| - 1]).value.minor) <= |line| - 1
  {
    assert HopAllowed(line[0 + 1], line[0]);
    if |line| > 2 {
      HopsGrow(line[0], line[1..]);
      assert line == [line[0]] + line[1..];
      HopsBoundDistance(line[1..]);
    }
  }

  ghost predicate Supported(g: Registry, from: Version, to: Version)
    requires ParentsFirst(g)
  {
    Planned(g, from, to).Ok? && Planned(g, from, to).value.supported
  }

  /**
   A plan is supported exactly when the versions differ, the source lies on the first-parent chain of the target,
   and every hop between them keeps the major version and moves at most one minor version. Its steps are those
   hops in order, at least as many as there are minor versions between.
   */
  lemma {:induction false} SupportedIff(g: Registry, from: Version, to: Version)
    requires ParentsFirst(g)
    ensures Supported(g, from, to) <==>
      from != to && from in Ancestors(g, to) && AllHopsAllowed(Segment(g, to, from))
    ensures Supported(g, from, to) ==>
      && var plan := Planned(g, from, to).value;
      && plan.from == from && plan.to == to
      && StepsAlong(plan.steps, Segment(g, to, from))
      && |plan.steps| >= Abs(Parse(to).value.minor - Parse(from).value.minor)
  {
    if from != to && from in Ancestors(g, to) {
      ClimbIff(g, to, from);
      var line := Segment(g, to, from);
      assert |line| >= 2 && line[0] == to && line[|line| - 1] == from;
      if AllHopsAllowed(line) {
        HopsBoundDistance(line);
      }
    }
  }

  lemma {:induction false} SupportedIsClimb(g: Registry, from: Version, to: Version)
    requires ParentsFirst(g) && from in Ancestors(g, to)
    ensures Supported(g, from, to) <==> Climbs(g, to, from)
    ensures Supported(g, from, to) ==> Planned(g, from, to).value.steps == ClimbSteps(g, to, from)
  {
    assert Before(g, from, to);
    SupportedIff(g, from, to);
    ClimbIff(g, to, from);
  }

  /** The k-th hop from the top is the first that is not allowed, and its parent cannot be read. */
  ghost predicate FirstUnreadable(line: seq<Version>, k: nat) {
    && k < |line| - 1
    && (forall i :: 0 <= i < k ==> HopAllowed(line[i + 1], line[i]))
    && Parse(line[k + 1]) == None
  }

  lemma {:induction false} ClimbRaises(g: Registry, v: Version, from: Version)
    requires ParentsFirst(g) && v in g.values && (v == from || from in Ancestors(g, v)) && Parse(v).Some?
    ensures Climb(g, v, from).Err? <==> Unreadable(Segment(g, v, from))
    decreases if v in g.keys then IndexOf(g.keys, v) else 0
  {
    if v != from {
      SegmentGrows(g, v, from);
      FirstParentBefore(g, v);
      ClimbHopRaises(g, v, from);
      var p := g.values[v].parents[0];
      UnreadableGrows(v, Segment(g, p, from));
      if HopAllowed(p, v) {
        ClimbRaises(g, p, from);
      }
    }
  }

  ghost predicate Unreadable(line: seq<Version>) {
    exists k :: FirstUnreadable(line, k)
  }

  lemma {:induction false} UnreadableGrows(v: Version, rest: seq<Version>)
    requires rest != []
    ensures Unreadable([v] + rest) <==> Parse(rest[0]) == None || (HopAllowed(rest[0], v) && Unreadable(rest))
  {
    var line := [v] + rest;
    assert line[0] == v && line[0 + 1] == rest[0];
    if Parse(rest[0]) == None {
      assert FirstUnreadable(line, 0);
    } else if HopAllowed(rest[0], v) && Unreadable(rest) {
      var k: nat :| FirstUnreadable(rest, k);
      UnreadableAbove(line, rest, k);
    }
    if Unreadable(line) && Parse(rest[0]).Some? {
      var k: nat :| FirstUnreadable(line, k);
      assert k > 0;
      assert HopAllowed(line[0 + 1], line[0]);
      UnreadableBelow(line, rest, k);
    }
  }

  lemma {:induction false} UnreadableAbove(line: seq<Version>, rest: seq<Version>, k: nat)
    requires rest != [] && |line| == |rest| + 1 && (forall i :: 0 <= i < |rest| ==> line[i + 1] == rest[i])
    requires HopAllowed(rest[0], line[0]) && FirstUnreadable(rest, k)
    ensures FirstUnreadable(line, k + 1)
  {
    forall i | 0 <= i < k + 1
      ensures HopAllowed(line[i + 1], line[i])
    {
      assert line[i + 1] == rest[i];
      assert i > 0 ==> line[i] == rest[i - 1] && HopAllowed(rest[(i - 1) + 1], rest[i - 1]);
    }
  }

  lemma {:induction false} UnreadableBelow(line: seq<Version>, rest: seq<Version>, k: nat)
    requires |line| == |rest| + 1 && (forall i :: 0 <= i < |rest| ==> line[i + 1] == rest[i])
    requires 0 < k && FirstUnreadable(line, k)
    ensures FirstUnreadable(rest, k - 1)
  {
    forall i | 0 <= i < k - 1
      ensures HopAllowed(rest[i + 1], rest[i])
    {
      assert HopAllowed(line[(i + 1) + 1], line[i + 1]);
    }
  }

  /** A plan cannot be built at all exactly when one of the texts that are looked at on the way cannot be read. */
  lemma {:induction false} PlanRaisesIff(g: Registry, from: Version, to: Version)
    requires ParentsFirst(g)
    ensures Planned(g, from, to).Err? <==>
      && from != to
      && (Parse(from) == None || Parse(to) == None
          || (&& Parse(from).value.major == Parse(to).value.major && from in Ancestors(g, to)
              && Unreadable(Segment(g, to, from))))
  {
    if from != to && from in Ancestors(g, to) && Parse(to).Some? {
      ClimbRaises(g, to, from);
    }
  }

  /** A version between two others splits the walk between them. */
  lemma {:induction false} ClimbSplits(g: Registry, v: Version, mid: Version, from: Version)
    requires ParentsFirst(g) && v in g.values && mid in g.values
    requires from in Ancestors(g, mid) && (v == mid || mid in Ancestors(g, v))
    ensures v != from && from in Ancestors(g, v)
    ensures Climbs(g, v, from) <==> Climbs(g, mid, from) && Climbs(g, v, mid)
    ensures Climbs(g, v, from) ==> ClimbSteps(g, v, from) == ClimbSteps(g, mid, from) + ClimbSteps(g, v, mid)
    decreases if v in g.keys then IndexOf(g.keys, v) else 0
  {
    assert Before(g, from, mid);
    if v == mid {
      ClimbNone(g, mid);
    } else {
      assert Before(g, mid, v);
      FirstParentBefore(g, v);
      ClimbHop(g, v, from);
      ClimbHop(g, v, mid);
      ClimbSplits(g, g.values[v].parents[0], mid, from);
    }
  }

  /** Plans compose: through any version in between, support and steps are those of the two parts. */
  lemma {:induction false} PlansCompose(g: Registry, from: Version, mid: Version, to: Version)
    requires ParentsFirst(g) && from in Ancestors(g, mid) && mid in Ancestors(g, to)
    ensures Supported(g, from, to) <==> Supported(g, from, mid) && Supported(g, mid, to)
    ensures Supported(g, from, to) ==>
      Planned(g, from, to).value.steps == Planned(g, from, mid).value.steps + Planned(g, mid, to).value.steps
  {
    assert Before(g, from, mid) && Before(g, mid, to);
    ClimbSplits(g, to, mid, from);
    SupportedIsClimb(g, from, to);
    SupportedIsClimb(g, from, mid);
    SupportedIsClimb(g, mid, to);
  }
}
