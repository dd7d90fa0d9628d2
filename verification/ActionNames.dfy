/** Which texts name an action of a plan, and what a plan reports about its nodes, in literal names and numbers. */
module ActionNames {
  import opened Common
  import opened ExecutionGraphs
  import opened Orchestrator

  /** The text is the name, with any of its letters in lower case. */
  ghost predicate SpelledLike(text: string, name: string) {
    && |text| == |name|
    && forall i :: 0 <= i < |text| ==>
         text[i] == name[i] || ('a' <= text[i] <= 'z' && text[i] as int - 32 == name[i] as int)
  }

  ghost predicate IsPlain(text: string) {
    forall i :: 0 <= i < |text| ==> text[i] as int < 128
  }

  ghost predicate HasNoLowerCase(name: string) {
    forall i :: 0 <= i < |name| ==> !('a' <= name[i] <= 'z')
  }

  lemma {:induction false} UpperOfPlain(text: string, i: nat)
    requires IsPlain(text) && i < |text|
    ensures |Upper(text)| == |text|
    ensures Upper(text)[i] as int == if 'a' <= text[i] <= 'z' then text[i] as int - 32 else text[i] as int
  {
    assert forall j :: 0 <= j < |text| - 1 ==> text[1..][j] == text[j + 1];
    if |text| > 1 {
      UpperOfPlain(text[1..], if i > 0 then i - 1 else 0);
    }
  }

  lemma {:induction false} UpperIsName(text: string, name: string)
    requires IsPlain(text) && HasNoLowerCase(name)
    ensures Upper(text) == name <==> SpelledLike(text, name)
  {
    forall i | 0 <= i < |text|
      ensures |Upper(text)| == |text|
      ensures Upper(text)[i] as int == if 'a' <= text[i] <= 'z' then text[i] as int - 32 else text[i] as int
    {
      UpperOfPlain(text, i);
    }
    if SpelledLike(text, name) {
      SpelledUpper(text, name);
    }
  }

  lemma {:induction false} SpelledUpper(text: string, name: string)
    requires IsPlain(text) && HasNoLowerCase(name) && SpelledLike(text, name)
    ensures Upper(text) == name
  {
    if text != [] {
      forall i | 0 <= i < |text|
        ensures |Upper(text)| == |text| && Upper(text)[i] == name[i]
      {
        UpperOfPlain(text, i);
      }
    }
  }

  /** A step without an action type only reads. */
  lemma {:induction false} NoTypeReads(step: Step)
    requires step.actionType == None
    ensures ActionOf(step) == Some(ReadAnalysis) && OnlyReads(step)
  {
  }

  /** In plain text the five names count in any mixture of cases, and nothing else does. */
  lemma {:induction false} ActionsAreNamed(step: Step, text: string)
    requires step.actionType == Some(text) && IsPlain(text)
    ensures ActionOf(step) == Some(ModifyFile) <==> SpelledLike(text, "MODIFY_FILE")
    ensures ActionOf(step) == Some(RunCommand) <==> SpelledLike(text, "RUN_COMMAND")
    ensures ActionOf(step) == Some(ReadAnalysis) <==> SpelledLike(text, "READ_ANALYSIS")
    ensures ActionOf(step) == Some(Validate) <==> SpelledLike(text, "VALIDATE")
    ensures ActionOf(step) == Some(NetworkCall) <==> SpelledLike(text, "NETWORK_CALL")
  {
    UpperIsName(text, "MODIFY_FILE");
    UpperIsName(text, "RUN_COMMAND");
    UpperIsName(text, "READ_ANALYSIS");
    UpperIsName(text, "VALIDATE");
    UpperIsName(text, "NETWORK_CALL");
    NamedIff(Upper(text), ModifyFile);
    NamedIff(Upper(text), RunCommand);
    NamedIff(Upper(text), ReadAnalysis);
    NamedIff(Upper(text), Validate);
    NamedIff(Upper(text), NetworkCall);
  }

  /** The id that a step of a plan gets. */
  ghost function NameAt(steps: seq<Step>, k: nat): Id
    requires k < |steps|
  {
    StepId(steps[k], |PlanOrder(steps[..k])|)
  }

  lemma {:induction false} NameInPrefix(steps: seq<Step>, n: nat, k: nat)
    requires k < n <= |steps|
    ensures NameAt(steps[..n], k) == NameAt(steps, k)
  {
    assert steps[..n][..k] == steps[..k];
  }

  /** The step that counts for an id is the last one that names it. */
  lemma {:induction false} LastStepCounts(steps: seq<Step>, id: Id) returns (k: nat)
    requires id in PlanOrder(steps)
    ensures k < |steps| && NameAt(steps, k) == id && id in PlanSteps(steps) && PlanSteps(steps)[id] == steps[k]
    ensures forall j: nat :: k < j < |steps| ==> NameAt(steps, j) != id
  {
    var n := |steps| - 1;
    if NameAt(steps, n) == id {
      k := n;
    } else {
      k := LastStepCounts(steps[..n], id);
      NameInPrefix(steps, n, k);
      forall j: nat | k < j < n
        ensures NameAt(steps, j) != id
      {
        NameInPrefix(steps, n, j);
      }
    }
  }

  /** The ids of a plan are those that its steps get. */
  lemma {:induction false} EveryStepIsNamed(steps: seq<Step>, k: nat)
    requires k < |steps|
    ensures NameAt(steps, k) in PlanOrder(steps)
  {
    var n := |steps| - 1;
    if k < n {
      EveryStepIsNamed(steps[..n], k);
      NameInPrefix(steps, n, k);
    }
  }

  /** With distinct ids the order of a plan is the order of its steps. */
  lemma {:induction false} NamedInOrder(steps: seq<Step>)
    requires forall i :: 0 <= i < |steps| ==> steps[i].id.Some?
    requires forall i, j :: 0 <= i < j < |steps| ==> steps[i].id != steps[j].id
    ensures |PlanOrder(steps)| == |steps|
    ensures forall i :: 0 <= i < |steps| ==> PlanOrder(steps)[i] == Id(steps[i].id.value)
  {
    if steps != [] {
      var n := |steps| - 1;
      NamedInOrder(steps[..n]);
      assert Id(steps[n].id.value) !in PlanOrder(steps[..n]);
    }
  }

  /** A node is reported exactly if it changes something without a rollback, or has no time. */
  lemma {:induction false} ReportedNodes(order: seq<Id>, nodes: map<Id, ExecutionNode>, id: Id)
    ensures NoRollback(id) in NodeErrors(order, nodes) <==>
      && id in order && id in nodes && !nodes[id].hasRollback
      && (nodes[id].actionType == ModifyFile || nodes[id].actionType == RunCommand)
    ensures NoTimeout(id) in NodeErrors(order, nodes) <==> id in order && id in nodes && nodes[id].timeoutMs <= 0
  {
    if order != [] {
      var n := |order| - 1;
      ReportedNodes(order[..n], nodes, id);
      assert order == order[..n] + [order[n]];
      var last := order[n];
      var more := if last !in nodes then [] else ErrorsOf(last, nodes[last]);
      assert NodeErrors(order, nodes) == NodeErrors(order[..n], nodes) + more;
      assert forall e :: e in NodeErrors(order, nodes) <==> e in NodeErrors(order[..n], nodes) || e in more;
    }
  }
}
