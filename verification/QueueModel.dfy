/**
 The retry queue and its one consumer as a step system over the event table: producers push at any
 time, the consumer takes the first pending event and settles it by acknowledging or rejecting it.
 */
module QueueModel {
  import opened Common

  datatype EventId = EventId(text: string)

  datatype Status = Pending | Processing | Completed | Dead

  datatype Row = Row(id: EventId, payload: string, status: Status, retries: nat, number: int)

  predicate IsSettled(r: Row) {
    r.status == Completed || r.status == Dead
  }

  /** The consumer's view: the table, the row in hand, the counters, and how often each row was taken. */
  datatype System = System(rows: seq<Row>, inHand: Option<nat>, failed: int, deadLettered: int, taken: seq<nat>)

  datatype Action = Push(id: EventId, payload: string) | Take | Ack | Nack

  /** What a rejection makes of a row: one retry more, and dead once the retries are used up. */
  function Rejected(r: Row, maxRetries: nat): Row {
    r.(status := if r.retries + 1 >= maxRetries then Dead else Pending, retries := r.retries + 1)
  }

  /** The pending row with the smallest sequence number; sequence numbers follow the order of the rows. */
  function FirstPending(rows: seq<Row>): (k: Option<nat>)
    ensures k == None ==> forall j :: 0 <= j < |rows| ==> rows[j].status != Pending
    ensures k.Some? ==>
      && k.value < |rows| && rows[k.value].status == Pending
      && forall j :: 0 <= j < k.value ==> rows[j].status != Pending
  {
    if rows == [] then None
    else
      var n := |rows| - 1;
      match FirstPending(rows[..n])
      case Some(k) => Some(k)
      case None => if rows[n].status == Pending then Some(n) else None
  }

  predicate Holds(rows: seq<Row>, id: EventId) {
    exists i :: 0 <= i < |rows| && rows[i].id == id
  }

  function Step(s: System, a: Action, maxRetries: nat): System
    requires |s.rows| == |s.taken| && (s.inHand.Some? ==> s.inHand.value < |s.rows|)
  {
    match a
    case Push(id, payload) =>
      if Holds(s.rows, id) then s
      else s.(rows := s.rows + [Row(id, payload, Pending, 0, |s.rows| + 1)], taken := s.taken + [0])
    case Take =>
      (match FirstPending(s.rows)
       case Some(k) =>
         if s.inHand.Some? then s
         else
           s.(rows := s.rows[k := s.rows[k].(status := Processing)], inHand := Some(k),
              taken := s.taken[k := s.taken[k] + 1])
       case None => s)
    case Ack =>
      if s.inHand == None then s
      else
        var k := s.inHand.value;
        s.(rows := s.rows[k := s.rows[k].(status := Completed)], inHand := None)
    case Nack =>
      if s.inHand == None then s
      else
        var k := s.inHand.value;
        var r := Rejected(s.rows[k], maxRetries);
        s.(rows := s.rows[k := r], inHand := None,
           failed := s.failed + if r.status == Dead then 0 else 1,
           deadLettered := s.deadLettered + if r.status == Dead then 1 else 0)
  }

  ghost function SumRetries(rows: seq<Row>): nat {
    if rows == [] then 0 else SumRetries(rows[..|rows| - 1]) + rows[|rows| - 1].retries
  }

  ghost function CountDead(rows: seq<Row>): nat {
    if rows == [] then 0 else CountDead(rows[..|rows| - 1]) + if rows[|rows| - 1].status == Dead then 1 else 0
  }

  lemma {:induction false} SumAfterUpdate(rows: seq<Row>, k: nat, r: Row)
    requires k < |rows|
    ensures SumRetries(rows[k := r]) == SumRetries(rows) - rows[k].retries + r.retries
    ensures CountDead(rows[k := r]) == CountDead(rows)
      - (if rows[k].status == Dead then 1 else 0) + (if r.status == Dead then 1 else 0)
  {
    var n := |rows| - 1;
    if k == n {
      assert rows[k := r][..n] == rows[..n];
    } else {
      SumAfterUpdate(rows[..n], k, r);
      assert rows[k := r][..n] == rows[..n][k := r];
    }
  }

  lemma {:induction false} SumAfterPush(rows: seq<Row>, r: Row)
    ensures SumRetries(rows + [r]) == SumRetries(rows) + r.retries
    ensures CountDead(rows + [r]) == CountDead(rows) + if r.status == Dead then 1 else 0
  {
    assert (rows + [r])[..|rows|] == rows;
  }

  /** The retries used by a row agree with its status, and with how often it was taken. */
  ghost predicate RowFits(r: Row, taken: nat, maxRetries: nat) {
    match r.status
    case Pending => r.retries < maxRetries && taken == r.retries
    case Processing => r.retries < maxRetries && taken == r.retries + 1
    case Completed => r.retries < maxRetries && taken == r.retries + 1
    case Dead => r.retries == maxRetries && taken == r.retries
  }

  /** The first f rows are settled, the next one is waiting or in hand, and the rest was never touched. */
  ghost predicate Frontier(s: System, maxRetries: nat, f: nat) {
    && f <= |s.rows| == |s.taken|
    && (s.inHand.Some? ==> s.inHand == Some(f) && f < |s.rows|)
    && (forall i :: 0 <= i < f ==> IsSettled(s.rows[i]))
    && (f < |s.rows| ==> s.rows[f].status == if s.inHand.Some? then Processing else Pending)
    && (forall i :: f < i < |s.rows| ==> s.rows[i].status == Pending && s.rows[i].retries == 0)
    && (forall i :: 0 <= i < |s.rows| ==> RowFits(s.rows[i], s.taken[i], maxRetries))
  }

  ghost predicate Numbered(rows: seq<Row>) {
    && (forall i :: 0 <= i < |rows| ==> rows[i].number == i + 1)
    && (forall i, j :: 0 <= i < j < |rows| ==> rows[i].id != rows[j].id)
  }

  /** Every rejection is counted once, as a failure or as a dead letter. */
  ghost predicate Counted(s: System) {
    s.failed + s.deadLettered == SumRetries(s.rows) && s.deadLettered == CountDead(s.rows)
  }

  ghost predicate Invariant(s: System, maxRetries: nat) {
    (exists f: nat :: Frontier(s, maxRetries, f)) && Numbered(s.rows) && Counted(s)
  }

  const Empty := System([], None, 0, 0, [])

  ghost predicate IsEmpty(s: System) {
    |s.rows| == |s.taken| == 0 && s.inHand == None && s.failed == s.deadLettered == 0
  }

  lemma {:induction false} EmptyIsInvariant(s: System, maxRetries: nat)
    requires IsEmpty(s)
    ensures Invariant(s, maxRetries)
  {
    assert Frontier(s, maxRetries, 0);
  }

  lemma {:induction false} PushFrontier(s: System, id: EventId, payload: string, maxRetries: nat, f: nat)
    requires 1 <= maxRetries && Frontier(s, maxRetries, f)
    ensures Frontier(Step(s, Push(id, payload), maxRetries), maxRetries, f)
  {
  }

  lemma {:induction false} TakeFrontier(s: System, maxRetries: nat, f: nat)
    requires 1 <= maxRetries && Frontier(s, maxRetries, f)
    ensures Frontier(Step(s, Take, maxRetries), maxRetries, f)
    ensures forall i :: 0 <= i < f ==> Step(s, Take, maxRetries).rows[i] == s.rows[i]
  {
    if f < |s.rows| && s.inHand == None {
      assert FirstPending(s.rows) == Some(f);
    }
  }

  lemma {:induction false} SettleFrontier(s: System, a: Action, maxRetries: nat, f: nat)
    requires 1 <= maxRetries && Frontier(s, maxRetries, f) && s.inHand.Some? && (a.Ack? || a.Nack?)
    ensures f < |s.rows| && s.inHand == Some(f)
    ensures var s' := Step(s, a, maxRetries);
      && s'.rows == s.rows[f := s'.rows[f]]
      && Frontier(s', maxRetries, if s'.rows[f].status == Pending then f else f + 1)
  {
    assert RowFits(s.rows[f], s.taken[f], maxRetries);
  }

  lemma {:induction false} StepFrontier(s: System, a: Action, maxRetries: nat, f: nat) returns (f': nat)
    requires 1 <= maxRetries && Frontier(s, maxRetries, f)
    ensures Frontier(Step(s, a, maxRetries), maxRetries, f') && f <= f'
    ensures forall i :: 0 <= i < f ==> Step(s, a, maxRetries).rows[i] == s.rows[i]
  {
    if a.Push? {
      f' := f;
      PushFrontier(s, a.id, a.payload, maxRetries, f);
    } else if a.Take? || s.inHand == None {
      f' := f;
      TakeFrontier(s, maxRetries, f);
    } else {
      f' := if Step(s, a, maxRetries).rows[f].status == Pending then f else f + 1;
      SettleFrontier(s, a, maxRetries, f);
    }
  }

  lemma {:induction false} StepNumbered(s: System, a: Action, maxRetries: nat, f: nat)
    requires 1 <= maxRetries && Frontier(s, maxRetries, f) && Numbered(s.rows)
    ensures Numbered(Step(s, a, maxRetries).rows)
  {
  }

  lemma {:induction false} StepCounted(s: System, a: Action, maxRetries: nat, f: nat)
    requires 1 <= maxRetries && Frontier(s, maxRetries, f) && Counted(s)
    ensures Counted(Step(s, a, maxRetries))
  {
    match a
    case Push(id, payload) =>
      SumAfterPush(s.rows, Row(id, payload, Pending, 0, |s.rows| + 1));
    case Take =>
      if FirstPending(s.rows).Some? {
        var k := FirstPending(s.rows).value;
        SumAfterUpdate(s.rows, k, s.rows[k].(status := Processing));
      }
    case Ack =>
      if s.inHand.Some? {
        SumAfterUpdate(s.rows, f, s.rows[f].(status := Completed));
      }
    case Nack =>
      if s.inHand.Some? {
        SumAfterUpdate(s.rows, f, Rejected(s.rows[f], maxRetries));
      }
  }

  lemma {:induction false} StepKeepsInvariant(s: System, a: Action, maxRetries: nat)
    requires 1 <= maxRetries && Invariant(s, maxRetries)
    ensures Invariant(Step(s, a, maxRetries), maxRetries)
  {
    var f: nat :| Frontier(s, maxRetries, f);
    var f' := StepFrontier(s, a, maxRetries, f);
    StepNumbered(s, a, maxRetries, f);
    StepCounted(s, a, maxRetries, f);
  }

  /** A run of the producers and the consumer, from a state that satisfies the invariant. */
  function Run(s: System, actions: seq<Action>, maxRetries: nat): (r: System)
    requires 1 <= maxRetries && Invariant(s, maxRetries)
    ensures Invariant(r, maxRetries)
    decreases |actions|
  {
    if actions == [] then s
    else
      StepKeepsInvariant(s, actions[0], maxRetries);
      Run(Step(s, actions[0], maxRetries), actions[1..], maxRetries)
  }

  /** If the consumer is free, all rows before the next one are settled and all after it untried. */
  ghost predicate InOrder(s: System) {
    s.inHand == None && FirstPending(s.rows).Some? ==>
      var k := FirstPending(s.rows).value;
      && |s.taken| == |s.rows|
      && (forall j :: 0 <= j < k ==> IsSettled(s.rows[j]) && s.rows[j].number < s.rows[k].number)
      && (forall j :: k < j < |s.rows| ==> s.rows[j].status == Pending && s.taken[j] == 0)
  }

  /** The counters add up to the retries, no row is taken too often, and only dead rows are used up. */
  ghost predicate Accounted(s: System, maxRetries: nat) {
    && s.failed + s.deadLettered == SumRetries(s.rows) && s.deadLettered == CountDead(s.rows)
    && |s.taken| == |s.rows|
    && (forall i :: 0 <= i < |s.rows| ==> s.taken[i] <= maxRetries && s.rows[i].retries <= maxRetries)
    && (forall i :: 0 <= i < |s.rows| ==> (s.rows[i].status == Dead <==> s.rows[i].retries == maxRetries))
  }

  lemma {:induction false} FrontierInOrder(s: System, maxRetries: nat, f: nat)
    requires Frontier(s, maxRetries, f) && Numbered(s.rows)
    ensures InOrder(s)
  {
    forall j | f < j < |s.rows|
      ensures s.taken[j] == 0
    {
      assert RowFits(s.rows[j], s.taken[j], maxRetries);
    }
  }

  lemma {:induction false} FrontierAccounted(s: System, maxRetries: nat, f: nat)
    requires Frontier(s, maxRetries, f) && Counted(s)
    ensures Accounted(s, maxRetries)
  {
    forall i | 0 <= i < |s.rows|
      ensures s.taken[i] <= maxRetries && s.rows[i].retries <= maxRetries
      ensures s.rows[i].status == Dead <==> s.rows[i].retries == maxRetries
    {
      assert RowFits(s.rows[i], s.taken[i], maxRetries);
    }
  }

  /**
   Over every run from the empty queue: a row is taken only when everything pushed before it is completed
   or dead, retries included, and every rejection is accounted for.
   */
  lemma {:induction false} EveryRunIsOrderedAndAccounted(actions: seq<Action>, maxRetries: nat)
    requires 1 <= maxRetries
    ensures Invariant(Empty, maxRetries)
    ensures InOrder(Run(Empty, actions, maxRetries)) && Accounted(Run(Empty, actions, maxRetries), maxRetries)
  {
    EmptyIsInvariant(Empty, maxRetries);
    var s := Run(Empty, actions, maxRetries);
    var f: nat :| Frontier(s, maxRetries, f);
    FrontierInOrder(s, maxRetries, f);
    FrontierAccounted(s, maxRetries, f);
  }

  lemma {:induction false} SettledStays(s: System, a: Action, maxRetries: nat, i: nat)
    requires 1 <= maxRetries && Invariant(s, maxRetries) && i < |s.rows| && IsSettled(s.rows[i])
    ensures i < |Step(s, a, maxRetries).rows| && Step(s, a, maxRetries).rows[i] == s.rows[i]
  {
    var f: nat :| Frontier(s, maxRetries, f);
    var f' := StepFrontier(s, a, maxRetries, f);
  }

  /** A settled row never changes again. */
  lemma {:induction false} SettledForGood(s: System, actions: seq<Action>, maxRetries: nat, i: nat)
    requires 1 <= maxRetries && Invariant(s, maxRetries) && i < |s.rows| && IsSettled(s.rows[i])
    ensures i < |Run(s, actions, maxRetries).rows| && Run(s, actions, maxRetries).rows[i] == s.rows[i]
    decreases |actions|
  {
    if actions != [] {
      SettledStays(s, actions[0], maxRetries, i);
      StepKeepsInvariant(s, actions[0], maxRetries);
      SettledForGood(Step(s, actions[0], maxRetries), actions[1..], maxRetries, i);
    }
  }

  lemma {:induction false} StepKeepsEvent(s: System, a: Action, maxRetries: nat, i: nat)
    requires |s.rows| == |s.taken| && (s.inHand.Some? ==> s.inHand.value < |s.rows|) && i < |s.rows|
    ensures var rows := Step(s, a, maxRetries).rows;
      && i < |rows| && rows[i].id == s.rows[i].id && rows[i].payload == s.rows[i].payload
      && rows[i].number == s.rows[i].number
  {
  }

  /** Whatever becomes of a row, it keeps the id, the payload and the number that it was pushed with. */
  lemma {:induction false} EventsStay(s: System, actions: seq<Action>, maxRetries: nat, i: nat)
    requires 1 <= maxRetries && Invariant(s, maxRetries) && i < |s.rows|
    ensures var rows := Run(s, actions, maxRetries).rows;
      && i < |rows| && rows[i].id == s.rows[i].id && rows[i].payload == s.rows[i].payload
      && rows[i].number == s.rows[i].number
    decreases |actions|
  {
    if actions != [] {
      StepKeepsEvent(s, actions[0], maxRetries, i);
      StepKeepsInvariant(s, actions[0], maxRetries);
      EventsStay(Step(s, actions[0], maxRetries), actions[1..], maxRetries, i);
    }
  }

  /** A new event gets the next number, and after any further run its row still holds what was pushed. */
  lemma {:induction false} PushedEventStays(s: System, id: EventId, payload: string, actions: seq<Action>,
                                            maxRetries: nat)
    requires 1 <= maxRetries && Invariant(s, maxRetries) && !Holds(s.rows, id)
    ensures Invariant(Step(s, Push(id, payload), maxRetries), maxRetries)
    ensures var n, rows := |s.rows|, Run(Step(s, Push(id, payload), maxRetries), actions, maxRetries).rows;
      n < |rows| && rows[n].id == id && rows[n].payload == payload && rows[n].number == n + 1
  {
    StepKeepsInvariant(s, Push(id, payload), maxRetries);
    EventsStay(Step(s, Push(id, payload), maxRetries), actions, maxRetries, |s.rows|);
  }

  /** The rejections that a row can still take. */
  ghost function RemainingOf(r: Row, maxRetries: nat): int {
    if IsSettled(r) then 0 else maxRetries - r.retries
  }

  ghost function Remaining(rows: seq<Row>, maxRetries: nat): int {
    if rows == [] then 0
    else Remaining(rows[..|rows| - 1], maxRetries) + RemainingOf(rows[|rows| - 1], maxRetries)
  }

  lemma {:induction false} RemainingAfterUpdate(rows: seq<Row>, k: nat, r: Row, maxRetries: nat)
    requires k < |rows|
    ensures Remaining(rows[k := r], maxRetries)
      == Remaining(rows, maxRetries) - RemainingOf(rows[k], maxRetries) + RemainingOf(r, maxRetries)
  {
    var n := |rows| - 1;
    if k == n {
      assert rows[k := r][..n] == rows[..n];
    } else {
      RemainingAfterUpdate(rows[..n], k, r, maxRetries);
      assert rows[k := r][..n] == rows[..n][k := r];
    }
  }

  lemma {:induction false} SomethingRemains(rows: seq<Row>, maxRetries: nat, k: nat)
    requires forall i :: 0 <= i < |rows| ==> rows[i].retries <= maxRetries
    requires k < |rows| && !IsSettled(rows[k]) && rows[k].retries < maxRetries
    ensures Remaining(rows, maxRetries) >= 1
  {
    RemainingIsNatural(rows[k := rows[k].(status := Dead)], maxRetries);
    RemainingAfterUpdate(rows, k, rows[k].(status := Dead), maxRetries);
  }

  lemma {:induction false} RemainingIsNatural(rows: seq<Row>, maxRetries: nat)
    requires forall i :: 0 <= i < |rows| ==> rows[i].retries <= maxRetries
    ensures Remaining(rows, maxRetries) >= 0
  {
    if rows != [] {
      RemainingIsNatural(rows[..|rows| - 1], maxRetries);
    }
  }

  /** The consumer alone: it takes a row and settles it, once for each verdict. */
  function Rounds(verdicts: seq<bool>): seq<Action> {
    if verdicts == [] then [] else [Take, if verdicts[0] then Ack else Nack] + Rounds(verdicts[1..])
  }

  /** What one round makes of the row it takes. */
  ghost function Settled(r: Row, verdict: bool, maxRetries: nat): Row {
    if verdict then r.(status := Completed) else Rejected(r, maxRetries)
  }

  lemma {:induction false} RoundSettlesOne(s: System, verdict: bool, maxRetries: nat)
    requires |s.rows| == |s.taken| && s.inHand == None && FirstPending(s.rows).Some?
    ensures |Step(s, Take, maxRetries).rows| == |Step(s, Take, maxRetries).taken|
    ensures Step(s, Take, maxRetries).inHand == FirstPending(s.rows)
    ensures var s' := Step(Step(s, Take, maxRetries), if verdict then Ack else Nack, maxRetries);
      && s'.inHand == None
      && var k := FirstPending(s.rows).value;
         s'.rows == s.rows[k := Settled(s.rows[k], verdict, maxRetries)]
  {
    var k := FirstPending(s.rows).value;
    var r := s.rows[k].(status := Processing);
    assert s.rows[k := r][k := Settled(r, verdict, maxRetries)] == s.rows[k := Settled(r, verdict, maxRetries)];
  }

  lemma {:induction false} SettlingCostsRetry(rows: seq<Row>, k: nat, verdict: bool, maxRetries: nat)
    requires k < |rows| && rows[k].status == Pending && rows[k].retries < maxRetries
    ensures Remaining(rows[k := Settled(rows[k], verdict, maxRetries)], maxRetries) < Remaining(rows, maxRetries)
  {
    RemainingAfterUpdate(rows, k, Settled(rows[k], verdict, maxRetries), maxRetries);
  }

  lemma {:induction false} PendingHasRetries(s: System, maxRetries: nat, k: nat)
    requires Invariant(s, maxRetries) && k < |s.rows| && s.rows[k].status == Pending
    ensures |s.rows| == |s.taken| && s.rows[k].retries < maxRetries
  {
    var f: nat :| Frontier(s, maxRetries, f);
    assert RowFits(s.rows[k], s.taken[k], maxRetries);
  }

  lemma {:induction false} RoundCostsRetry(s: System, verdict: bool, maxRetries: nat)
    requires 1 <= maxRetries && Invariant(s, maxRetries) && s.inHand == None && FirstPending(s.rows).Some?
    ensures Invariant(Step(s, Take, maxRetries), maxRetries)
    ensures var s' := Step(Step(s, Take, maxRetries), if verdict then Ack else Nack, maxRetries);
      && Invariant(s', maxRetries) && s'.inHand == None
      && Remaining(s'.rows, maxRetries) < Remaining(s.rows, maxRetries)
  {
    var k := FirstPending(s.rows).value;
    StepKeepsInvariant(s, Take, maxRetries);
    StepKeepsInvariant(Step(s, Take, maxRetries), if verdict then Ack else Nack, maxRetries);
    PendingHasRetries(s, maxRetries, k);
    RoundSettlesOne(s, verdict, maxRetries);
    SettlingCostsRetry(s.rows, k, verdict, maxRetries);
  }

  lemma {:induction false} RunOne(s: System, a: Action, rest: seq<Action>, maxRetries: nat)
    requires 1 <= maxRetries && Invariant(s, maxRetries)
    ensures Invariant(Step(s, a, maxRetries), maxRetries)
    ensures Run(s, [a] + rest, maxRetries) == Run(Step(s, a, maxRetries), rest, maxRetries)
  {
    StepKeepsInvariant(s, a, maxRetries);
    assert ([a] + rest)[1..] == rest;
  }

  lemma {:induction false} RunTwo(s: System, a: Action, b: Action, rest: seq<Action>, maxRetries: nat)
    requires 1 <= maxRetries && Invariant(s, maxRetries)
    ensures Invariant(Step(s, a, maxRetries), maxRetries)
    ensures Invariant(Step(Step(s, a, maxRetries), b, maxRetries), maxRetries)
    ensures Run(s, [a, b] + rest, maxRetries) == Run(Step(Step(s, a, maxRetries), b, maxRetries), rest, maxRetries)
  {
    RunOne(s, a, [b] + rest, maxRetries);
    RunOne(Step(s, a, maxRetries), b, rest, maxRetries);
    assert [a, b] + rest == [a] + ([b] + rest);
  }

  /** A free consumer that finds nothing pending does nothing. */
  lemma {:induction false} IdleRounds(s: System, verdicts: seq<bool>, maxRetries: nat)
    requires 1 <= maxRetries && Invariant(s, maxRetries) && s.inHand == None && FirstPending(s.rows) == None
    ensures Run(s, Rounds(verdicts), maxRetries) == s
    decreases |verdicts|
  {
    if verdicts != [] {
      var a := if verdicts[0] then Ack else Nack;
      RunTwo(s, Take, a, Rounds(verdicts[1..]), maxRetries);
      IdleRounds(s, verdicts[1..], maxRetries);
    }
  }

  lemma {:induction false} RowsStillRemain(s: System, maxRetries: nat)
    requires Invariant(s, maxRetries) && s.inHand == None
    ensures FirstPending(s.rows).Some? ==> Remaining(s.rows, maxRetries) >= 1
    ensures FirstPending(s.rows) == None ==> forall i :: 0 <= i < |s.rows| ==> IsSettled(s.rows[i])
  {
    var f: nat :| Frontier(s, maxRetries, f);
    FrontierAccounted(s, maxRetries, f);
    if FirstPending(s.rows).Some? {
      var k := FirstPending(s.rows).value;
      assert RowFits(s.rows[k], s.taken[k], maxRetries);
      SomethingRemains(s.rows, maxRetries, k);
    }
  }

  /** Without new pushes the queue is drained within as many rounds as there are retries remaining. */
  lemma {:induction false} DrainsWithinRemaining(s: System, verdicts: seq<bool>, maxRetries: nat)
    requires 1 <= maxRetries && Invariant(s, maxRetries) && s.inHand == None
    requires |verdicts| >= Remaining(s.rows, maxRetries)
    ensures forall i :: 0 <= i < |Run(s, Rounds(verdicts), maxRetries).rows| ==>
      IsSettled(Run(s, Rounds(verdicts), maxRetries).rows[i])
    decreases |verdicts|
  {
    RowsStillRemain(s, maxRetries);
    if FirstPending(s.rows) == None {
      IdleRounds(s, verdicts, maxRetries);
    } else {
      var a := if verdicts[0] then Ack else Nack;
      RoundCostsRetry(s, verdicts[0], maxRetries);
      RunTwo(s, Take, a, Rounds(verdicts[1..]), maxRetries);
      DrainsWithinRemaining(Step(Step(s, Take, maxRetries), a, maxRetries), verdicts[1..], maxRetries);
    }
  }
}
