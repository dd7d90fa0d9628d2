/** What a plan runs, and in which order: the order is settled by the plan alone, and unnamed steps are numbered. */
module PlanRuns {
  import opened Common
  import opened Digraph
  import opened ExecutionGraphs
  import opened Orchestrator

  // The order of a run

  lemma {:induction false} EarlierInPrefix(s: seq<Id>, t: seq<Id>, k: nat, x: Id, u: Id)
    requires Distinct(s) && k <= |s| && k <= |t| && s[..k] == t[..k] && u in s[..k] && Earlier(s, x, u)
    ensures Earlier(t, x, u)
  {
    var i, j :| 0 <= i < j < |s| && s[i] == x && s[j] == u;
    var m :| 0 <= m < k && s[m] == u;
    assert j == m;
    assert t[i] == t[..k][i] && s[i] == s[..k][i];
    assert t[j] == t[..k][j] && s[j] == s[..k][j];
  }

  /** Two vertices that both wait only for what has run cannot each come before the other. */
  lemma {:induction false} OneIsFreedFirst(order: seq<Id>, es: seq<Edge>, s: seq<Id>, t: seq<Id>, k: nat, v: Id, w: Id)
    requires Distinct(order) && Distinct(s) && k <= |s| && k <= |t| && s[..k] == t[..k]
    requires Distinct(t) && Sourced(es, t[..k], v) && Sourced(es, s[..k], w)
    requires FreedBefore(order, es, s, v, w)
    ensures !FreedBefore(order, es, t, w, v)
  {
    if FreedBefore(order, es, t, w, v) {
      if Free(es, w) {
        assert false;
      } else {
        var b: nat :| b < |es| && es[b].target == w && FollowedBefore(es, s, v, b);
        var a: nat :| a < |es| && es[a].target == v && FollowedBefore(es, t, w, a);
        assert es[a].source in t[..k] && es[b].source in s[..k];
        NotBothEarlier(s, t, k, es[a].source, es[b].source);
        assert false;
      }
    }
  }

  lemma {:induction false} NotBothEarlier(s: seq<Id>, t: seq<Id>, k: nat, x: Id, y: Id)
    requires Distinct(s) && Distinct(t) && k <= |s| && k <= |t| && s[..k] == t[..k] && x in s[..k] && y in s[..k]
    ensures !(Earlier(s, x, y) && Earlier(t, y, x)) && !Earlier(s, x, x) && !Earlier(t, x, x)
  {
    if Earlier(s, x, y) && Earlier(t, y, x) {
      EarlierInPrefix(s, t, k, x, y);
    }
  }

  lemma {:induction false} SourcedAt(es: seq<Edge>, s: seq<Id>, k: nat)
    requires PredecessorsFirst(es, s) && k < |s|
    ensures Sourced(es, s[..k], s[k])
  {
  }

  lemma {:induction false} PrefixAt(s: seq<Id>, t: seq<Id>, k: nat)
    requires k <= |s| && k <= |t| && s[..k] == t[..k]
    ensures forall m :: 0 <= m < k ==> s[m] == t[m]
  {
    assert forall m :: 0 <= m < k ==> s[..k][m] == t[..k][m];
  }

  lemma {:induction false} LaterInOther(s: seq<Id>, t: seq<Id>, k: nat) returns (j: nat)
    requires Distinct(s) && Elements(s) == Elements(t) && k < |s| && k < |t| && s[..k] == t[..k] && s[k] != t[k]
    requires Distinct(t)
    ensures k < j < |s| && s[j] == t[k]
  {
    assert t[k] in Elements(t);
    j :| 0 <= j < |s| && s[j] == t[k];
    PrefixAt(s, t, k);
  }

  lemma {:induction false} NextAgrees(order: seq<Id>, vertices: set<Id>, es: seq<Edge>, s: seq<Id>, t: seq<Id>, k: nat)
    requires Distinct(order) && Schedule(vertices, es, s) && Schedule(vertices, es, t)
    requires InFreedOrder(order, es, s, s) && InFreedOrder(order, es, t, t)
    requires k < |s| && k < |t| && s[..k] == t[..k]
    ensures s[k] == t[k]
  {
    if s[k] != t[k] {
      var j := LaterInOther(s, t, k);
      var j' := LaterInOther(t, s, k);
      SourcedAt(es, s, k);
      SourcedAt(es, t, k);
      assert FreedBefore(order, es, s, s[k], t[k]);
      assert FreedBefore(order, es, t, t[k], s[k]);
      OneIsFreedFirst(order, es, s, t, k, s[k], t[k]);
    }
  }

  lemma {:induction false} PrefixesAgree(order: seq<Id>, vertices: set<Id>, es: seq<Edge>, s: seq<Id>, t: seq<Id>,
                                         k: nat)
    requires Distinct(order) && Schedule(vertices, es, s) && Schedule(vertices, es, t)
    requires InFreedOrder(order, es, s, s) && InFreedOrder(order, es, t, t) && k <= |s| && k <= |t|
    ensures s[..k] == t[..k]
  {
    if k > 0 {
      PrefixesAgree(order, vertices, es, s, t, k - 1);
      NextAgrees(order, vertices, es, s, t, k - 1);
      assert s[..k] == s[..k - 1] + [s[k - 1]] && t[..k] == t[..k - 1] + [t[k - 1]];
    }
  }

  /** The order in which vertices run is settled: there is only one schedule that runs the first freed first. */
  lemma {:induction false} OrderIsSettled(order: seq<Id>, vertices: set<Id>, es: seq<Edge>, s: seq<Id>, t: seq<Id>)
    requires Distinct(order) && Schedule(vertices, es, s) && Schedule(vertices, es, t)
    requires InFreedOrder(order, es, s, s) && InFreedOrder(order, es, t, t)
    ensures s == t
  {
    DistinctSize(s);
    DistinctSize(t);
    PrefixesAgree(order, vertices, es, s, t, |s|);
    assert s[..|s|] == s && t[..|t|] == t;
  }

  /** A graph without edges runs its vertices in the order of the table. */
  lemma {:induction false} NoEdgesKeepOrder(order: seq<Id>, es: seq<Edge>, s: seq<Id>)
    requires Distinct(order) && es == [] && Schedule(Elements(order), es, s) && InFreedOrder(order, es, s, s)
    ensures s == order
  {
    forall i, j | 0 <= i < j < |order|
      ensures FreedBefore(order, es, order, order[i], order[j])
    {
    }
    OrderIsSettled(order, Elements(order), es, s, order);
  }

  /** A vertex that must run after another one does. */
  lemma {:induction false} RunsAfter(vertices: set<Id>, deps: seq<Dependency>, s: seq<Id>, d: Dependency)
    requires (forall e :: e in deps ==> e.source.Some? && e.target.Some?) && d in deps
    requires Schedule(vertices, PlanEdges(deps), s) && Id(d.target.value) in vertices
    ensures Earlier(s, Id(d.source.value), Id(d.target.value))
  {
    var i :| 0 <= i < |deps| && deps[i] == d;
    assert PlanEdges(deps)[i] == Edge(Id(d.source.value), Id(d.target.value), Sequential);
    assert Id(d.target.value) in Elements(s);
    var j :| 0 <= j < |s| && s[j] == Id(d.target.value);
    var k :| 0 <= k < j && s[k] == Id(d.source.value);
  }

  // The names of steps

  ghost predicate IsNumber(s: string) {
    s != [] && forall i :: 0 <= i < |s| ==> '0' <= s[i] <= '9'
  }

  /** The number that a list of digits stands for. */
  ghost function Reading(s: string): int {
    if s == [] then 0 else 10 * Reading(s[..|s| - 1]) + (s[|s| - 1] as int - '0' as int)
  }

  /** The text is "step-" and the number, written without leading zeros. */
  ghost predicate IsStepName(text: string, n: nat) {
    && |text| > 5 && text[..5] == "step-"
    && IsNumber(text[5..]) && (n > 0 ==> text[5] != '0') && Reading(text[5..]) == n
  }

  lemma {:induction false} DecimalReads(n: nat)
    requires n > 0
    ensures IsNumber(Decimal(n)) && Reading(Decimal(n)) == n && Decimal(n)[0] != '0'
  {
    var digit := ('0' as int + n % 10) as char;
    if n < 10 {
      AddDigit([], digit);
      assert Decimal(n) == [] + [digit];
    } else {
      DecimalReads(n / 10);
      AddDigit(Decimal(n / 10), digit);
    }
  }

  lemma {:induction false} AddDigit(front: string, digit: char)
    requires (front == [] || IsNumber(front)) && '0' <= digit <= '9'
    ensures IsNumber(front + [digit])
    ensures Reading(front + [digit]) == 10 * Reading(front) + (digit as int - '0' as int)
  {
    assert (front + [digit])[..|front|] == front;
  }

  lemma {:induction false} ReadingIsPositive(s: string)
    requires IsNumber(s) && s[0] != '0'
    ensures Reading(s) > 0
  {
    var n := |s| - 1;
    if n > 0 {
      ReadingIsPositive(s[..n]);
    } else {
      assert s[..n] == [] && Reading(s[..n]) == 0;
    }
  }

  lemma {:induction false} LastDigit(s: string)
    requires IsNumber(s)
    ensures Reading(s) % 10 == s[|s| - 1] as int - '0' as int && Reading(s) / 10 == Reading(s[..|s| - 1])
    ensures s[0] != '0' ==> (Reading(s) < 10 <==> |s| == 1)
  {
    var n := |s| - 1;
    if s[0] != '0' {
      if n > 0 {
        ReadingIsPositive(s[..n]);
      } else {
        assert s[..n] == [] && Reading(s[..n]) == 0;
      }
    }
  }

  lemma {:induction false} ReadsOnce(a: string, b: string)
    requires IsNumber(a) && IsNumber(b) && a[0] != '0' && b[0] != '0' && Reading(a) == Reading(b)
    ensures a == b
  {
    LastDigit(a);
    LastDigit(b);
    var m, n := |a| - 1, |b| - 1;
    if m > 0 {
      ReadsOnce(a[..m], b[..n]);
      assert a == a[..m] + [a[m]] && b == b[..n] + [b[n]];
    } else {
      assert a == [a[0]] && b == [b[0]];
    }
  }

  /** There is one name for each number. */
  lemma {:induction false} OneName(a: string, b: string, n: nat)
    requires n > 0 && IsStepName(a, n) && IsStepName(b, n)
    ensures a == b
  {
    ReadsOnce(a[5..], b[5..]);
    assert a == a[..5] + a[5..] && b == b[..5] + b[5..];
  }

  /** A step without an id, placed after `count` nodes, is named after the next number. */
  lemma {:induction false} UnnamedStep(step: Step, count: nat)
    requires step.id == None
    ensures IsStepName(StepId(step, count).text, count + 1)
  {
    DecimalReads(count + 1);
    var text := "step-" + Decimal(count + 1);
    assert text[..5] == "step-" && text[5..] == Decimal(count + 1);
  }

  ghost predicate AllUnnamed(steps: seq<Step>) {
    forall step :: step in steps ==> step.id == None
  }

  /** The ids are the names of the numbers from 1. */
  ghost predicate Numbered(ids: seq<Id>) {
    forall i :: 0 <= i < |ids| ==> IsStepName(ids[i].text, i + 1)
  }

  lemma {:induction false} NumberedIsDistinct(ids: seq<Id>)
    requires Numbered(ids)
    ensures Distinct(ids)
  {
  }

  lemma {:induction false} UnnamedAreNumbered(steps: seq<Step>)
    requires AllUnnamed(steps)
    ensures |PlanOrder(steps)| == |steps| && Numbered(PlanOrder(steps))
    ensures forall id :: id in PlanSteps(steps) ==> PlanSteps(steps)[id] in steps
  {
    if steps != [] {
      var n := |steps| - 1;
      UnnamedAreNumbered(steps[..n]);
      UnnamedStep(steps[n], n);
      NextNumber(PlanOrder(steps[..n]), StepId(steps[n], n));
    }
  }

  lemma {:induction false} NextNumber(ids: seq<Id>, id: Id)
    requires Numbered(ids) && IsStepName(id.text, |ids| + 1)
    ensures id !in ids && Numbered(ids + [id])
  {
  }

  /** Each dependency leads from one number to the next. */
  ghost predicate IsChain(deps: seq<Dependency>) {
    forall i {:trigger deps[i]} :: 0 <= i < |deps| ==>
      && deps[i].source.Some? && IsStepName(deps[i].source.value, i + 1)
      && deps[i].target.Some? && IsStepName(deps[i].target.value, i + 2)
  }

  lemma {:induction false} ChainLinks(ids: seq<Id>, deps: seq<Dependency>, i: nat)
    requires Numbered(ids) && IsChain(deps) && |ids| == |deps| + 1 && i < |deps|
    ensures deps[i].source.Some? && deps[i].target.Some?
    ensures Id(deps[i].source.value) == ids[i] && Id(deps[i].target.value) == ids[i + 1]
  {
    OneName(deps[i].source.value, ids[i].text, i + 1);
    OneName(deps[i].target.value, ids[i + 1].text, i + 2);
  }

  /** The edges lead from each vertex to the next one. */
  ghost predicate Linked(ids: seq<Id>, es: seq<Edge>) {
    |ids| == |es| + 1 && forall i :: 0 <= i < |es| ==> es[i].source == ids[i] && es[i].target == ids[i + 1]
  }

  lemma {:induction false} ChainIsSchedule(ids: seq<Id>, es: seq<Edge>)
    requires Distinct(ids) && Linked(ids, es)
    ensures Schedule(Elements(ids), es, ids) && Acyclic(Table(Elements(ids), es))
  {
    forall i, j | 0 <= i < |es| && 0 <= j < |ids| && es[i].target == ids[j]
      ensures es[i].source in ids[..j]
    {
      assert es[i].target == ids[i + 1] && j == i + 1;
      assert ids[..j][i] == es[i].source;
    }
    assert forall i :: 0 <= i < |es| ==> es[i].target == ids[i + 1] && ids[i + 1] in Elements(ids);
    ScheduleMeansAcyclic(Elements(ids), es, ids);
  }

  lemma {:induction false} ChainIsForced(ids: seq<Id>, es: seq<Edge>, s: seq<Id>, k: nat)
    requires Distinct(ids) && Linked(ids, es) && Schedule(Elements(ids), es, s) && k <= |ids| && |s| == |ids|
    ensures s[..k] == ids[..k]
  {
    if k > 0 {
      ChainIsForced(ids, es, s, k - 1);
      ChainNext(ids, es, s, k - 1);
      assert s[..k] == s[..k - 1] + [s[k - 1]] && ids[..k] == ids[..k - 1] + [ids[k - 1]];
    }
  }

  lemma {:induction false} LinkRan(ids: seq<Id>, es: seq<Edge>, s: seq<Id>, k: nat, m: nat)
    requires Linked(ids, es) && PredecessorsFirst(es, s) && k < |s| && 0 < m < |ids| && s[k] == ids[m]
    ensures ids[m - 1] in s[..k]
  {
    assert es[m - 1].target == s[k];
  }

  lemma {:induction false} ChainNext(ids: seq<Id>, es: seq<Edge>, s: seq<Id>, k: nat)
    requires Distinct(ids) && Linked(ids, es) && Schedule(Elements(ids), es, s) && k < |ids| && |s| == |ids|
    requires s[..k] == ids[..k]
    ensures s[k] == ids[k]
  {
    assert s[k] in Elements(ids);
    var m :| 0 <= m < |ids| && ids[m] == s[k];
    PrefixAt(s, ids, k);
    if m > 0 {
      LinkRan(ids, es, s, k, m);
    }
  }

  lemma {:induction false} ChainEdges(ids: seq<Id>, deps: seq<Dependency>)
    requires Numbered(ids) && IsChain(deps) && |ids| == |deps| + 1
    ensures KnownEnds(ids, deps) && Linked(ids, PlanEdges(deps))
  {
    forall d | d in deps
      ensures d.source.Some? && d.target.Some? && Id(d.source.value) in ids && Id(d.target.value) in ids
    {
      var i :| 0 <= i < |deps| && deps[i] == d;
      ChainLinks(ids, deps, i);
    }
    forall i | 0 <= i < |deps|
      ensures PlanEdges(deps)[i].source == ids[i] && PlanEdges(deps)[i].target == ids[i + 1]
    {
      ChainLinks(ids, deps, i);
    }
  }

  /** Any number of steps without ids that only read, each waiting for the one before by its number, are accepted,
      and every run of the plan lists the numbers in order. */
  lemma {:induction false} ChainRuns(steps: seq<Step>, deps: seq<Dependency>, completed: seq<Id>)
    requires AllUnnamed(steps) && KnownActions(steps) && forall step :: step in steps ==> OnlyReads(step)
    requires IsChain(deps) && |steps| == |deps| + 1
    ensures Acceptable(steps, deps)
    ensures Schedule(Elements(PlanOrder(steps)), PlanEdges(deps), completed) ==>
      |completed| == |steps| && Numbered(completed)
  {
    var ids := PlanOrder(steps);
    UnnamedAreNumbered(steps);
    NumberedIsDistinct(ids);
    ChainEdges(ids, deps);
    ChainIsSchedule(ids, PlanEdges(deps));
    if Schedule(Elements(ids), PlanEdges(deps), completed) {
      DistinctSize(ids);
      DistinctSize(completed);
      ChainIsForced(ids, PlanEdges(deps), completed, |ids|);
      assert completed[..|ids|] == completed && ids[..|ids|] == ids;
    }
  }

  /** Two such steps: the names are step-1 and step-2. */
  lemma {:induction false} TwoSteps(steps: seq<Step>, deps: seq<Dependency>, completed: seq<Id>)
    requires |steps| == 2 && AllUnnamed(steps) && forall step :: step in steps ==> step.actionType == None
    requires |deps| == 1 && deps[0] == Dependency(Some("step-1"), Some("step-2"))
    ensures Acceptable(steps, deps)
    ensures Schedule(Elements(PlanOrder(steps)), PlanEdges(deps), completed) ==>
      completed == [Id("step-1"), Id("step-2")]
  {
    OneAndTwo();
    ChainRuns(steps, deps, completed);
    if Schedule(Elements(PlanOrder(steps)), PlanEdges(deps), completed) {
      OneName(completed[0].text, "step-1", 1);
      OneName(completed[1].text, "step-2", 2);
    }
  }

  lemma {:induction false} OneAndTwo()
    ensures IsStepName("step-1", 1) && IsStepName("step-2", 2)
  {
    DigitReads('1');
    DigitReads('2');
    assert "step-1"[5..] == ['1'] && "step-2"[5..] == ['2'];
  }

  lemma {:induction false} DigitReads(c: char)
    requires '0' <= c <= '9'
    ensures IsNumber([c]) && Reading([c]) == c as int - '0' as int
  {
    assert [c][..0] == [];
  }

  /** Steps a, b and c, where c and then b wait for a: they run in the order of the dependencies, a, c, b. */
  lemma {:induction false} FanOut(steps: seq<Step>, deps: seq<Dependency>, order: seq<Id>, es: seq<Edge>,
                                  completed: seq<Id>, a: Id, b: Id, c: Id)
    requires a != b && b != c && a != c
    requires |steps| == 3 && steps[0].id == Some(a.text) && steps[1].id == Some(b.text) && steps[2].id == Some(c.text)
    requires |deps| == 2 && forall d :: d in deps ==> d.source.Some? && d.target.Some?
    requires deps[0] == Dependency(Some(a.text), Some(c.text)) && deps[1] == Dependency(Some(a.text), Some(b.text))
    requires order == PlanOrder(steps) && es == PlanEdges(deps)
    requires Schedule(Elements(order), es, completed) && InFreedOrder(order, es, completed, completed)
    ensures |completed| == 3 && completed[0] == a && completed[1] == c && completed[2] == b
  {
    ThreeIds(steps, a, b, c);
    TwoEdges(deps, a, b, c);
    FannedOut(order, es, completed, a, b, c);
  }

  lemma {:induction false} TwoEdges(deps: seq<Dependency>, a: Id, b: Id, c: Id)
    requires |deps| == 2 && forall d :: d in deps ==> d.source.Some? && d.target.Some?
    requires deps[0] == Dependency(Some(a.text), Some(c.text)) && deps[1] == Dependency(Some(a.text), Some(b.text))
    ensures |PlanEdges(deps)| == 2
    ensures PlanEdges(deps)[0] == Edge(a, c, Sequential) && PlanEdges(deps)[1] == Edge(a, b, Sequential)
  {
  }

  lemma {:induction false} FannedOut(order: seq<Id>, es: seq<Edge>, s: seq<Id>, a: Id, b: Id, c: Id)
    requires a != b && b != c && a != c && Elements(order) == {a, b, c}
    requires |es| == 2 && es[0] == Edge(a, c, Sequential) && es[1] == Edge(a, b, Sequential)
    requires Schedule(Elements(order), es, s) && InFreedOrder(order, es, s, s)
    ensures |s| == 3 && s[0] == a && s[1] == c && s[2] == b
  {
    DistinctSize(s);
    ThreeOf(Elements(s), a, b, c);
    assert b in Elements(s) && c in Elements(s);
    var j, k := IndexOf(s, b), IndexOf(s, c);
    assert es[0].target == s[k] && es[0].source in s[..k];
    SecondFreedIsLater(order, es, s, c, b, k, j);
    ThreeInLine(s, a, b, c, j, k);
  }

  lemma {:induction false} ThreeOf(s: set<Id>, a: Id, b: Id, c: Id)
    requires s == {a, b, c} && a != b && b != c && a != c
    ensures |s| == 3
  {
    assert s - {a} == {b, c};
    assert s - {a} - {b} == {c};
  }

  lemma {:induction false} ThreeInLine(s: seq<Id>, a: Id, b: Id, c: Id, j: nat, k: nat)
    requires |s| == 3 && k < j < 3 && s[j] == b && s[k] == c && a in s[..k]
    ensures s[0] == a && s[1] == c && s[2] == b
  {
  }

  lemma {:induction false} ThreeIds(steps: seq<Step>, a: Id, b: Id, c: Id)
    requires |steps| == 3 && steps[0].id == Some(a.text) && steps[1].id == Some(b.text) && steps[2].id == Some(c.text)
    requires a != b && b != c && a != c
    ensures Elements(PlanOrder(steps)) == {a, b, c}
  {
    NoSteps(steps[..2][..1][..0]);
    assert PlanOrder(steps[..2][..1]) == [a];
    assert PlanOrder(steps[..2]) == [a, b];
    assert PlanOrder(steps) == [a, b] + [c];
  }

  lemma {:induction false} NoSteps(steps: seq<Step>)
    requires |steps| == 0
    ensures PlanOrder(steps) == []
  {
  }

  /** Of two vertices freed by one vertex each, the same one, the second edge frees the later one. */
  lemma {:induction false} SecondFreedIsLater(order: seq<Id>, es: seq<Edge>, s: seq<Id>, v: Id, w: Id, k: nat, j: nat)
    requires |es| == 2 && es[0].source == es[1].source && es[0].target == v && es[1].target == w && v != w
    requires Distinct(s) && InFreedOrder(order, es, s, s) && k < |s| && j < |s| && s[k] == v && s[j] == w
    ensures k < j
  {
    NotFreedFirst(order, es, s, v, w);
  }

  lemma {:induction false} NotFreedFirst(order: seq<Id>, es: seq<Edge>, s: seq<Id>, v: Id, w: Id)
    requires |es| == 2 && es[0].source == es[1].source && es[0].target == v && es[1].target == w && v != w
    requires Distinct(s)
    ensures !FreedBefore(order, es, s, w, v)
  {
    if FreedBefore(order, es, s, w, v) {
      assert !Free(es, v);
      var b: nat :| b < |es| && es[b].target == v && FollowedBefore(es, s, w, b);
    }
  }
}
