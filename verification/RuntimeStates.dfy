/**
 The runtime state machine: which requests move it, and where any run of execution plans leaves it.
 A state with a time limit cannot be left once the limit has passed.
 */
module RuntimeStates {
  import opened Common

  datatype State = Idle | Planning | Executing | Verifying | Recovering | Failed | Completed

  function Allowed(s: State): set<State> {
    match s
    case Idle => {Planning}
    case Planning => {Executing}
    case Executing => {Executing, Verifying, Recovering, Failed}
    case Verifying => {Completed, Recovering}
    case Recovering => {Planning, Failed, Idle}
    case Failed => {Idle}
    case Completed => {Idle}
  }

  function Forbidden(s: State): set<State> {
    match s
    case Idle => {Executing, Completed, Failed, Verifying, Recovering}
    case Planning => {Completed, Recovering, Failed, Verifying}
    case Executing => {Completed, Idle, Planning}
    case Verifying => {Executing, Planning, Failed, Idle}
    case Recovering => {Completed, Executing, Verifying}
    case Failed => {Executing, Completed, Planning, Verifying, Recovering}
    case Completed => {Executing, Planning, Verifying, Recovering, Failed}
  }

  /** How many seconds after it was entered a state can still be left. */
  function TimeLimit(s: State): Option<real> {
    match s
    case Planning => Some(5.0)
    case Executing => Some(30.0)
    case Verifying => Some(10.0)
    case Recovering => Some(30.0)
    case _ => None
  }

  datatype Refusal = ForbiddenMove(source: State, target: State) | DisallowedMove(source: State, target: State)
    | TimedOut(source: State)

  datatype Record = Record(source: State, target: State, at: real)

  /** What decides about the next request: the state, and when it was entered. */
  datatype Machine = Machine(current: State, entered: Option<real>)

  const START := Machine(Idle, None)

  predicate Expired(m: Machine, now: real) {
    m.entered.Some? && TimeLimit(m.current).Some? && now - m.entered.value > TimeLimit(m.current).value
  }

  predicate Moves(m: Machine, target: State, now: real) {
    target != m.current && target in Allowed(m.current) && !Expired(m, now)
  }

  function Next(m: Machine, target: State, now: real): Machine {
    if Moves(m, target, now) then Machine(target, Some(now)) else m
  }

  /** The records form a path of allowed moves from Idle to the current state, and no limit was exceeded on it. */
  ghost predicate IsPath(records: seq<Record>, m: Machine) {
    && (records == [] ==> m == START)
    && (records != [] ==>
          && records[0].source == Idle
          && m == Machine(records[|records| - 1].target, Some(records[|records| - 1].at)))
    && (forall i :: 0 <= i < |records| ==>
          records[i].target in Allowed(records[i].source) && records[i].target != records[i].source)
    && (forall i, j :: 0 <= i && j == i + 1 < |records| ==>
          && records[j].source == records[i].target
          && !Expired(Machine(records[i].target, Some(records[i].at)), records[j].at))
  }

  class StateContext {
    var current: State
    var previous: Option<State>
    var entered: Option<real>
    var transitions: seq<Record>

    ghost function AsMachine(): Machine
      reads this
    {
      Machine(current, entered)
    }

    ghost predicate Valid()
      reads this
    {
      && IsPath(transitions, AsMachine())
      && previous == if transitions == [] then None else Some(transitions[|transitions| - 1].source)
    }

    constructor ()
      ensures Valid() && AsMachine() == START && transitions == []
    {
      current, previous, entered, transitions := Idle, None, None, [];
    }

    /** No refusal also means that the machine already was where it should go. */
    method Transition(target: State, now: real) returns (refused: Option<Refusal>)
      requires Valid()
      modifies this
      ensures Valid() && AsMachine() == Next(old(AsMachine()), target, now)
      ensures refused == None <==> current == target
      ensures transitions
        == old(transitions) + if Moves(old(AsMachine()), target, now) then [Record(old(current), target, now)] else []
      ensures refused == Some(TimedOut(old(current))) <==>
        target != old(current) && target in Allowed(old(current)) && Expired(old(AsMachine()), now)
      ensures refused == Some(DisallowedMove(old(current), target)) <==> old(current) == Planning && target == Idle
      ensures refused == Some(ForbiddenMove(old(current), target)) <==>
        target != old(current) && target !in Allowed(old(current)) && !(old(current) == Planning && target == Idle)
    {
      var source := current;
      if target == source {
        return None;
      }
      if target !in Allowed(source) {
        NeitherIsOne(source, target);
        return Some(if target in Forbidden(source) then ForbiddenMove(source, target)
                    else DisallowedMove(source, target));
      }
      if entered.Some? && TimeLimit(source).Some? && now - entered.value > TimeLimit(source).value {
        return Some(TimedOut(source));
      }
      PathGrows(transitions, AsMachine(), target, now);
      previous, current, entered := Some(source), target, Some(now);
      transitions := transitions + [Record(source, target, now)];
      return None;
    }
  }

  /** Only one move is neither allowed nor forbidden. */
  lemma {:induction false} NeitherIsOne(source: State, target: State)
    requires target != source && target !in Allowed(source)
    ensures target in Forbidden(source) <==> !(source == Planning && target == Idle)
  {
  }

  lemma {:induction false} PathGrows(records: seq<Record>, m: Machine, target: State, now: real)
    requires IsPath(records, m) && Moves(m, target, now)
    ensures IsPath(records + [Record(m.current, target, now)], Machine(target, Some(now)))
  {
  }

  /** The twelve moves there are, and the limits of four states in seconds. */
  lemma {:induction false} MovesAre(m: Machine, target: State, now: real)
    ensures Moves(m, target, now) <==>
      && (|| (m.current == Idle && target == Planning)
          || (m.current == Planning && target == Executing)
          || (m.current == Executing && (target == Verifying || target == Recovering || target == Failed))
          || (m.current == Verifying && (target == Completed || target == Recovering))
          || (m.current == Recovering && (target == Planning || target == Failed || target == Idle))
          || ((m.current == Failed || m.current == Completed) && target == Idle))
      && (m.entered.Some? ==>
            && (m.current == Planning ==> now <= m.entered.value + 5.0)
            && (m.current == Executing ==> now <= m.entered.value + 30.0)
            && (m.current == Verifying ==> now <= m.entered.value + 10.0)
            && (m.current == Recovering ==> now <= m.entered.value + 30.0))
  {
  }

  // Runs of requests

  datatype Request = Request(target: State, at: real)

  function Run(m: Machine, requests: seq<Request>): Machine
    decreases |requests|
  {
    if requests == [] then m else Run(Next(m, requests[0].target, requests[0].at), requests[1..])
  }

  ghost predicate NotBefore(requests: seq<Request>, now: real) {
    forall i :: 0 <= i < |requests| ==> now <= requests[i].at
  }

  /** Nothing that is requested from now on moves the machine. */
  ghost predicate Stuck(m: Machine, now: real) {
    forall requests :: NotBefore(requests, now) ==> Run(m, requests) == m
  }

  lemma {:induction false} ExpiredStays(m: Machine, now: real, requests: seq<Request>)
    requires Expired(m, now) && NotBefore(requests, now)
    ensures Run(m, requests) == m
    decreases |requests|
  {
    if requests != [] {
      assert now <= requests[0].at;
      ExpiredStays(m, now, requests[1..]);
    }
  }

  function WayOut(s: State): State {
    match s
    case Idle => Planning
    case Planning => Executing
    case Executing => Verifying
    case Verifying => Completed
    case Recovering => Failed
    case Failed => Idle
    case Completed => Idle
  }

  /** The machine is stuck for good exactly when the limit of its state has passed. */
  lemma {:induction false} StuckIff(m: Machine, now: real)
    ensures Stuck(m, now) <==> Expired(m, now)
  {
    if Expired(m, now) {
      forall requests | NotBefore(requests, now)
        ensures Run(m, requests) == m
      {
        ExpiredStays(m, now, requests);
      }
    } else {
      var r := [Request(WayOut(m.current), now)];
      assert NotBefore(r, now);
      assert r[1..] == [];
      assert Run(m, r) == Next(m, WayOut(m.current), now) != m;
    }
  }

  // Runs of execution plans

  /** When a plan arrived, its graph was built or refused, its nodes had run, and the result was checked. */
  datatype Clock = Clock(received: real, built: real, executed: real, checked: real)

  datatype Plan = Plan(acceptable: bool, clock: Clock)

  function AfterPlan(m: Machine, p: Plan): Machine {
    var planning := Next(m, Planning, p.clock.received);
    if !p.acceptable then Next(planning, Failed, p.clock.built)
    else
      var executing := Next(planning, Executing, p.clock.built);
      Next(Next(executing, Verifying, p.clock.executed), Completed, p.clock.checked)
  }

  function AfterPlans(plans: seq<Plan>): Machine {
    if plans == [] then START else AfterPlan(AfterPlans(plans[..|plans| - 1]), plans[|plans| - 1])
  }

  /** The end of the handling of a plan. */
  function Finished(p: Plan): real {
    if p.acceptable then p.clock.checked else p.clock.built
  }

  ghost predicate InTime(p: Plan) {
    p.clock.received <= p.clock.built <= p.clock.executed <= p.clock.checked
  }

  /** Plans are handled one after the other. */
  ghost predicate InOrder(plans: seq<Plan>) {
    && (forall i :: 0 <= i < |plans| ==> InTime(plans[i]))
    && (forall i, j :: 0 <= i < j < |plans| ==> Finished(plans[i]) <= plans[j].clock.received)
  }

  function FirstAcceptable(plans: seq<Plan>): (k: Option<nat>)
    ensures k == None <==> forall i :: 0 <= i < |plans| ==> !plans[i].acceptable
    ensures k.Some? ==>
      k.value < |plans| && plans[k.value].acceptable && forall i :: 0 <= i < k.value ==> !plans[i].acceptable
  {
    if plans == [] then None
    else
      var n := |plans| - 1;
      var k := FirstAcceptable(plans[..n]);
      assert forall i :: 0 <= i < n ==> plans[..n][i] == plans[i];
      if k.Some? then k else if plans[n].acceptable then Some(n) else None
  }

  /** How far the first acceptable plan gets, when planning started with the first plan of all. */
  function Reached(start: real, c: Clock): Machine {
    if c.built - start > 5.0 then Machine(Planning, Some(start))
    else if c.executed - c.built > 30.0 then Machine(Executing, Some(c.built))
    else if c.checked - c.executed > 10.0 then Machine(Verifying, Some(c.executed))
    else Machine(Completed, Some(c.checked))
  }

  function Destination(plans: seq<Plan>): Machine {
    if plans == [] then START
    else
      var k := FirstAcceptable(plans);
      if k == None then Machine(Planning, Some(plans[0].clock.received))
      else Reached(plans[0].clock.received, plans[k.value].clock)
  }

  lemma {:induction false} FirstAcceptableOfLonger(plans: seq<Plan>)
    requires plans != []
    ensures var n := |plans| - 1;
      FirstAcceptable(plans) == if FirstAcceptable(plans[..n]).Some? then FirstAcceptable(plans[..n])
                                else if plans[n].acceptable then Some(n) else None
  {
  }

  lemma {:induction false} PlanWhilePlanning(m: Machine, p: Plan, start: real)
    requires (m == START && start == p.clock.received) || m == Machine(Planning, Some(start))
    ensures AfterPlan(m, p) == if p.acceptable then Reached(start, p.clock) else Machine(Planning, Some(start))
  {
    assert Next(m, Planning, p.clock.received) == Machine(Planning, Some(start));
  }

  /** Completed for good, or too late in some state before. */
  lemma {:induction false} ReachedIsFinal(start: real, c: Clock, p: Plan)
    requires c.built <= c.executed <= c.checked && InTime(p) && c.checked <= p.clock.received
    ensures AfterPlan(Reached(start, c), p) == Reached(start, c)
  {
    var m := Reached(start, c);
    if m.current != Completed {
      assert Expired(m, p.clock.received) && Expired(m, p.clock.built);
      assert Expired(m, p.clock.executed) && Expired(m, p.clock.checked);
    }
  }

  /**
   Where any run of plans leaves the machine: refused plans leave it planning since the first plan came, and the
   first acceptable plan decides for good how far it gets, later plans never move it again.
   */
  lemma {:induction false} PlansEndAt(plans: seq<Plan>)
    requires InOrder(plans)
    ensures AfterPlans(plans) == Destination(plans)
  {
    if plans != [] {
      var n := |plans| - 1;
      var before, p := plans[..n], plans[n];
      PlansEndAt(before);
      FirstAcceptableOfLonger(plans);
      var k := FirstAcceptable(before);
      if k == None {
        PlanWhilePlanning(AfterPlans(before), p, plans[0].clock.received);
      } else {
        assert InTime(plans[k.value]) && Finished(plans[k.value]) <= p.clock.received;
        ReachedIsFinal(plans[0].clock.received, plans[k.value].clock, p);
      }
    }
  }

  /** Refused or not, no plan ever brings the machine to Failed. */
  lemma {:induction false} PlansNeverFail(plans: seq<Plan>)
    requires InOrder(plans)
    ensures AfterPlans(plans).current != Failed && AfterPlans(plans).current != Recovering
    ensures AfterPlans(plans).current == Idle <==> plans == []
  {
    PlansEndAt(plans);
  }

  /** The machine completes exactly if the first acceptable plan meets all limits, the one for planning
      counted from the first plan of all. */
  lemma {:induction false} PlansCompleteIff(plans: seq<Plan>)
    requires InOrder(plans)
    ensures AfterPlans(plans).current == Completed <==>
      && FirstAcceptable(plans).Some?
      && var c := plans[FirstAcceptable(plans).value].clock;
         c.built - plans[0].clock.received <= 5.0 && c.executed - c.built <= 30.0 && c.checked - c.executed <= 10.0
  {
    PlansEndAt(plans);
  }

  /** A refused plan and six idle seconds are enough to keep every later plan, and any other request, without effect. */
  lemma {:induction false} LateAfterRefusal(p: Plan)
    requires !p.acceptable && p.clock == Clock(0.0, 0.0, 0.0, 0.0)
    ensures AfterPlans([p]) == Machine(Planning, Some(0.0)) && Stuck(AfterPlans([p]), 6.0)
  {
    PlansEndAt([p]);
    StuckIff(AfterPlans([p]), 6.0);
  }
}
