/** The event table, the dead-letter table and the consumer loop that keep to the step system of QueueModel. */
module EventQueues {
  import opened Common
  import opened QueueModel

  datatype DeadLetter = DeadLetter(id: EventId, payload: string, reason: string, retries: nat, createdAt: real)

  const MAX_DEAD_LETTER := 1000

  /** The row in hand, if any. */
  function InHand(rows: seq<Row>): (k: Option<nat>)
    ensures k == None ==> forall j :: 0 <= j < |rows| ==> rows[j].status != Processing
    ensures k.Some? ==> k.value < |rows| && rows[k.value].status == Processing
  {
    if rows == [] then None
    else
      var n := |rows| - 1;
      if rows[n].status == Processing then Some(n) else InHand(rows[..n])
  }

  /** The place of an event in the table. */
  function Find(rows: seq<Row>, id: EventId): (k: Option<nat>)
    ensures k == None <==> !Holds(rows, id)
    ensures k.Some? ==> k.value < |rows| && rows[k.value].id == id
  {
    if rows == [] then None
    else
      var n := |rows| - 1;
      assert forall j :: 0 <= j < n ==> rows[..n][j] == rows[j];
      if rows[n].id == id then Some(n) else Find(rows[..n], id)
  }

  predicate IsInHand(rows: seq<Row>, id: EventId) {
    InHand(rows).Some? && rows[InHand(rows).value].id == id
  }

  function Popped(rows: seq<Row>): seq<Row> {
    match FirstPending(rows)
    case Some(k) => rows[k := rows[k].(status := Processing)]
    case None => rows
  }

  /** An id is recorded once; beyond the limit, the oldest letters go. */
  ghost predicate Recorded(before: seq<DeadLetter>, d: DeadLetter, after: seq<DeadLetter>) {
    var all := if exists e :: e in before && e.id == d.id then before else before + [d];
    && |after| <= MAX_DEAD_LETTER
    && (|all| <= MAX_DEAD_LETTER ==> after == all)
    && exists removed :: OldestRemoved(all, after, removed)
  }

  /** A rejected row reaches the dead letters exactly when this was its last retry. */
  ghost predicate Buried(r: Row, maxRetries: nat, error: string, now: real, before: seq<DeadLetter>,
                         after: seq<DeadLetter>) {
    if r.retries + 1 < maxRetries then after == before
    else Recorded(before, DeadLetter(r.id, r.payload, error, r.retries + 1, now), after)
  }

  /** The letter holds the event of one of the rows. */
  ghost predicate Carried(rows: seq<Row>, d: DeadLetter) {
    exists k :: 0 <= k < |rows| && rows[k].id == d.id && rows[k].payload == d.payload
  }

  ghost predicate LettersFit(rows: seq<Row>, letters: seq<DeadLetter>) {
    forall i {:trigger letters[i]} :: 0 <= i < |letters| ==> Carried(rows, letters[i])
  }

  lemma {:induction false} EmptyTable(s: System, maxRetries: nat, letters: seq<DeadLetter>)
    requires IsEmpty(s) && |letters| == 0 && 1 <= maxRetries
    ensures Tabled(s) && Managed(s, maxRetries) && LettersFit(s.rows, letters)
  {
    EmptyIsManaged(s, maxRetries);
  }

  lemma {:induction false} LettersStay(before: seq<Row>, after: seq<Row>, letters: seq<DeadLetter>)
    requires LettersFit(before, letters) && |before| <= |after|
    requires forall k :: 0 <= k < |before| ==> after[k].id == before[k].id && after[k].payload == before[k].payload
    ensures LettersFit(after, letters)
  {
    forall i | 0 <= i < |letters|
      ensures Carried(after, letters[i])
    {
      assert Carried(before, letters[i]);
      var k :| 0 <= k < |before| && before[k].id == letters[i].id && before[k].payload == letters[i].payload;
      assert after[k].id == letters[i].id;
    }
  }

  lemma {:induction false} BuriedFits(rows: seq<Row>, k: nat, maxRetries: nat, error: string, now: real,
                                      before: seq<DeadLetter>, after: seq<DeadLetter>)
    requires LettersFit(rows, before) && k < |rows| && Buried(rows[k], maxRetries, error, now, before, after)
    ensures LettersFit(rows, after)
  {
    var r := rows[k];
    if r.retries + 1 >= maxRetries {
      var d := DeadLetter(r.id, r.payload, error, r.retries + 1, now);
      assert Carried(rows, d);
      forall i | 0 <= i < |after|
        ensures Carried(rows, after[i])
      {
        RecordedAddsOne(before, d, after, after[i]);
      }
    }
  }

  lemma {:induction false} RecordedAddsOne(before: seq<DeadLetter>, d: DeadLetter, after: seq<DeadLetter>,
                                           e: DeadLetter)
    requires Recorded(before, d, after) && e in after
    ensures e in before || e == d
  {
    var all := if exists x :: x in before && x.id == d.id then before else before + [d];
    var removed :| OldestRemoved(all, after, removed);
    assert e in multiset(after) && e in multiset(all);
  }

  /** Rows are numbered as they come, and every rejection is one retry of one row. */
  ghost predicate Tabled(s: System) {
    Numbered(s.rows) && |s.taken| == |s.rows| && s.failed + s.deadLettered == SumRetries(s.rows)
  }

  ghost predicate Managed(s: System, maxRetries: nat) {
    1 <= maxRetries && Invariant(s, maxRetries)
  }

  /** One row of the table changes. */
  ghost function WithRow(s: System, k: nat, r: Row): System
    requires k < |s.rows|
  {
    s.(rows := s.rows[k := r], inHand := InHand(s.rows[k := r]))
  }

  ghost function Taken(s: System, k: nat): System
    requires k < |s.rows| == |s.taken|
  {
    WithRow(s, k, s.rows[k].(status := Processing)).(taken := s.taken[k := s.taken[k] + 1])
  }

  ghost function Acked(s: System, k: nat): System
    requires k < |s.rows|
  {
    WithRow(s, k, s.rows[k].(status := Completed))
  }

  ghost function Nacked(s: System, k: nat, maxRetries: nat): System
    requires k < |s.rows|
  {
    var r := Rejected(s.rows[k], maxRetries);
    WithRow(s, k, r).(failed := s.failed + if r.status == Dead then 0 else 1,
                      deadLettered := s.deadLettered + if r.status == Dead then 1 else 0)
  }

  /** The two tables as they are created. */
  method CreateTables() returns (events: seq<Row>, letters: seq<DeadLetter>, ghost taken: seq<nat>)
    ensures |events| == |letters| == |taken| == 0
  {
    events, letters, taken := [], [], [];
  }

  class EventQueue {
    const maxRetries: nat
    var rows: seq<Row>
    var deadLetter: seq<DeadLetter>
    var totalEvents: nat
    var processed: nat
    var failed: int
    var deadLettered: int
    ghost var taken: seq<nat>

    ghost function AsSystem(): System
      reads this
    {
      System(rows, InHand(rows), failed, deadLettered, taken)
    }

    /** What holds whoever calls in whatever order: every rejection is one retry of one row, and every dead letter
        carries the payload that was pushed under its id. */
    ghost predicate Table()
      reads this
    {
      Tabled(AsSystem()) && |deadLetter| <= MAX_DEAD_LETTER && LettersFit(rows, deadLetter)
    }

    /** What holds with one consumer that settles what it takes. */
    ghost predicate Valid()
      reads this
    {
      Table() && Managed(AsSystem(), maxRetries)
    }

    constructor (maxRetries: nat)
      requires 1 <= maxRetries
      ensures this.maxRetries == maxRetries && Valid() && |deadLetter| == |rows| == |taken| == 0
      ensures totalEvents == processed == 0 && failed == deadLettered == 0
    {
      this.maxRetries := maxRetries;
      var events, letters, takings := CreateTables();
      rows, deadLetter, taken := events, letters, takings;
      totalEvents, processed, failed, deadLettered := 0, 0, 0, 0;
      new;
      EmptyTable(AsSystem(), this.maxRetries, deadLetter);
    }

    method NextSequence() returns (n: int)
      ensures Numbered(rows) ==> n == |rows| + 1
    {
      n := 0;
      for i := 0 to |rows|
        invariant Numbered(rows) ==> n == i
      {
        if rows[i].number > n {
          n := rows[i].number;
        }
      }
      n := n + 1;
    }

    /** A known id is refused by the primary key. */
    method Push(id: EventId, payload: string) returns (ok: bool)
      requires Table()
      modifies this`rows, this`taken, this`totalEvents
      ensures totalEvents == old(totalEvents) + if ok then 1 else 0
      ensures Table() && AsSystem() == Step(old(AsSystem()), QueueModel.Push(id, payload), maxRetries)
      ensures old(Valid()) ==> Valid()
      ensures ok <==> !Holds(old(rows), id)
    {
      ghost var after := Step(AsSystem(), QueueModel.Push(id, payload), maxRetries);
      PushRow(AsSystem(), id, payload, maxRetries);
      var n := NextSequence();
      if Find(rows, id).Some? {
        return false;
      }
      rows, taken := rows + [Row(id, payload, Pending, 0, n)], taken + [0];
      totalEvents := totalEvents + 1;
      assert AsSystem() == after;
      LettersStay(old(rows), rows, deadLetter);
      return true;
    }

    method FindPending() returns (best: Option<nat>)
      requires Numbered(rows)
      ensures best == FirstPending(rows)
    {
      best := None;
      for i := 0 to |rows|
        invariant best == None ==> forall j :: 0 <= j < i ==> rows[j].status != Pending
        invariant best.Some? ==>
          && best.value < i && rows[best.value].status == Pending
          && forall j :: 0 <= j < i && rows[j].status == Pending ==> rows[best.value].number <= rows[j].number
      {
        if rows[i].status == Pending && (best == None || rows[i].number < rows[best.value].number) {
          best := Some(i);
        }
      }
    }

    /**
     The pending row with the smallest number is marked as processing, also when other rows are; in a valid
     queue with a free consumer it goes into the consumer's hand.
     */
    method Pop() returns (event: Option<Row>)
      requires Table()
      modifies this`rows, this`taken
      ensures Table() && rows == Popped(old(rows))
      ensures event == None <==> FirstPending(old(rows)) == None
      ensures event.Some? ==> event.value == old(rows)[FirstPending(old(rows)).value]
      ensures old(Valid() && InHand(rows) == None) ==>
        Valid() && AsSystem() == Step(old(AsSystem()), Take, maxRetries)
    {
      ghost var before := AsSystem();
      var best := FindPending();
      if best == None {
        return None;
      }
      var k := best.value;
      event := Some(rows[k]);
      TakeRow(before, k, maxRetries);
      rows, taken := rows[k := rows[k].(status := Processing)], taken[k := taken[k] + 1];
      assert AsSystem() == Taken(before, k);
      LettersStay(old(rows), rows, deadLetter);
    }

    /** A known row is completed, whatever its status; the outcome of the work makes no difference. */
    method Ack(id: EventId)
      requires Table()
      modifies this`rows, this`processed
      ensures Table() && processed == old(processed) + 1
      ensures Find(old(rows), id) == None ==> rows == old(rows)
      ensures Find(old(rows), id).Some? ==>
        var k := Find(old(rows), id).value;
        rows == old(rows)[k := old(rows)[k].(status := Completed)]
      ensures old(Valid() && IsInHand(rows, id)) ==>
        Valid() && AsSystem() == Step(old(AsSystem()), QueueModel.Ack, maxRetries)
    {
      ghost var before := AsSystem();
      var k := Find(rows, id);
      processed := processed + 1;
      if k == None {
        return;
      }
      AckRow(before, id, maxRetries);
      rows := rows[k.value := rows[k.value].(status := Completed)];
      LettersStay(old(rows), rows, deadLetter);
    }

    /** A known row goes back to the queue, or to the dead letters once its retries are used up; an unknown id
        changes nothing. */
    method Nack(id: EventId, error: string, now: real)
      requires Table()
      modifies this`rows, this`deadLetter, this`failed, this`deadLettered
      ensures Table()
      ensures Find(old(rows), id) == None ==>
        rows == old(rows) && deadLetter == old(deadLetter) && failed == old(failed) && deadLettered == old(deadLettered)
      ensures Find(old(rows), id).Some? ==>
        var k := Find(old(rows), id).value;
        && rows == old(rows)[k := Rejected(old(rows)[k], maxRetries)]
        && Buried(old(rows)[k], maxRetries, error, now, old(deadLetter), deadLetter)
      ensures old(Valid() && IsInHand(rows, id)) ==>
        Valid() && AsSystem() == Step(old(AsSystem()), QueueModel.Nack, maxRetries)
    {
      ghost var before := AsSystem();
      var k := Find(rows, id);
      if k == None {
        return;
      }
      NackRow(before, id, maxRetries);
      SpendRetry(k.value, error, now);
      BuriedFits(old(rows), k.value, maxRetries, error, now, old(deadLetter), deadLetter);
      LettersStay(old(rows), rows, deadLetter);
      assert AsSystem() == Nacked(before, k.value, maxRetries);
    }

    method SpendRetry(k: nat, error: string, now: real)
      requires k < |rows|
      modifies this`rows, this`deadLetter, this`failed, this`deadLettered
      ensures rows == old(rows)[k := Rejected(old(rows)[k], maxRetries)]
      ensures failed == old(failed) + if rows[k].status == Dead then 0 else 1
      ensures deadLettered == old(deadLettered) + if rows[k].status == Dead then 1 else 0
      ensures Buried(old(rows)[k], maxRetries, error, now, old(deadLetter), deadLetter)
    {
      var row := rows[k];
      var retries := row.retries + 1;
      if retries >= maxRetries {
        MoveToDeadLetter(row.id, row.payload, error, retries, now);
        rows := rows[k := row.(status := Dead, retries := retries)];
        deadLettered := deadLettered + 1;
      } else {
        rows := rows[k := row.(status := Pending, retries := retries)];
        failed := failed + 1;
      }
    }

    method MoveToDeadLetter(id: EventId, payload: string, reason: string, count: nat, now: real)
      modifies this`deadLetter
      ensures Recorded(old(deadLetter), DeadLetter(id, payload, reason, count, now), deadLetter)
    {
      if !exists i :: 0 <= i < |deadLetter| && deadLetter[i].id == id {
        deadLetter := deadLetter + [DeadLetter(id, payload, reason, count, now)];
      }
      PruneDeadLetter();
    }

    /** One oldest dead letter goes; which of equally old ones is left open. */
    method DropOldest() returns (ghost dropped: DeadLetter)
      requires deadLetter != []
      modifies this`deadLetter
      ensures |deadLetter| == |old(deadLetter)| - 1
      ensures multiset(old(deadLetter)) == multiset(deadLetter) + multiset{dropped}
      ensures forall e :: e in deadLetter ==> dropped.createdAt <= e.createdAt
    {
      ghost var oldest := OldestExists(deadLetter);
      var k :| 0 <= k < |deadLetter| && IsOldest(deadLetter, k);
      assert IsOldest(deadLetter, k);
      dropped := deadLetter[k];
      assert deadLetter == deadLetter[..k] + [deadLetter[k]] + deadLetter[k + 1..];
      deadLetter := deadLetter[..k] + deadLetter[k + 1..];
    }

    /** The oldest dead letters beyond the limit go. */
    method PruneDeadLetter()
      modifies this`deadLetter
      ensures |deadLetter| == if |old(deadLetter)| <= 1000 then |old(deadLetter)| else 1000
      ensures |old(deadLetter)| <= 1000 ==> deadLetter == old(deadLetter)
      ensures exists removed :: OldestRemoved(old(deadLetter), deadLetter, removed)
    {
      ghost var removed: multiset<DeadLetter> := multiset{};
      while |deadLetter| > MAX_DEAD_LETTER
        invariant |deadLetter| <= |old(deadLetter)|
        invariant |old(deadLetter)| > MAX_DEAD_LETTER ==> |deadLetter| >= MAX_DEAD_LETTER
        invariant |old(deadLetter)| <= MAX_DEAD_LETTER ==> deadLetter == old(deadLetter)
        invariant OldestRemoved(old(deadLetter), deadLetter, removed)
        decreases |deadLetter|
      {
        ghost var before := deadLetter;
        ghost var dropped := DropOldest();
        assert dropped in multiset(before);
        assert forall d :: d in removed ==> d.createdAt <= dropped.createdAt;
        removed := removed + multiset{dropped};
      }
    }

    method FindLetter(id: EventId) returns (k: nat)
      ensures k <= |deadLetter| && forall j :: 0 <= j < k ==> deadLetter[j].id != id
      ensures k < |deadLetter| ==> deadLetter[k].id == id
    {
      k := 0;
      while k < |deadLetter| && deadLetter[k].id != id
        invariant k <= |deadLetter|
        invariant forall j :: 0 <= j < k ==> deadLetter[j].id != id
      {
        k := k + 1;
      }
    }

    /** A dead letter is pushed again under a fresh id, and leaves the dead-letter table. */
    method ReplayDeadLetter(id: EventId, freshId: EventId) returns (replayed: Option<DeadLetter>)
      requires Table() && !Holds(rows, freshId)
      modifies this`rows, this`taken, this`totalEvents, this`deadLetter
      ensures Table() && (old(Valid()) ==> Valid())
      ensures replayed == None <==> forall d :: d in old(deadLetter) ==> d.id != id
      ensures replayed == None ==> AsSystem() == old(AsSystem()) && deadLetter == old(deadLetter)
      ensures replayed.Some? ==>
        && replayed.value in old(deadLetter) && replayed.value.id == id
        && AsSystem() == Step(old(AsSystem()), QueueModel.Push(freshId, replayed.value.payload), maxRetries)
        && deadLetter == Without(old(deadLetter), id)
    {
      var k := FindLetter(id);
      if k == |deadLetter| {
        return None;
      }
      replayed := Some(deadLetter[k]);
      var _ := Push(freshId, deadLetter[k].payload);
      ghost var after := AsSystem();
      deadLetter := Without(deadLetter, id);
      assert AsSystem() == after;
    }
  }

  function Without(ds: seq<DeadLetter>, id: EventId): (r: seq<DeadLetter>)
    ensures |r| <= |ds| && forall d :: d in r <==> d in ds && d.id != id
  {
    if ds == [] then []
    else
      var n := |ds| - 1;
      assert ds == ds[..n] + [ds[n]];
      Without(ds[..n], id) + if ds[n].id == id then [] else [ds[n]]
  }

  predicate IsOldest(ds: seq<DeadLetter>, k: int) {
    0 <= k < |ds| && forall j :: 0 <= j < |ds| ==> ds[k].createdAt <= ds[j].createdAt
  }

  /** What was removed and what is left make up the whole, and nothing left is older than anything removed. */
  ghost predicate OldestRemoved(before: seq<DeadLetter>, after: seq<DeadLetter>, removed: multiset<DeadLetter>) {
    && multiset(before) == multiset(after) + removed
    && forall d, e :: d in removed && e in after ==> d.createdAt <= e.createdAt
  }

  lemma {:induction false} OldestExists(ds: seq<DeadLetter>) returns (k: int)
    requires ds != []
    ensures IsOldest(ds, k)
  {
    var n := |ds| - 1;
    if n == 0 {
      k := 0;
    } else {
      var m := OldestExists(ds[..n]);
      k := if ds[n].createdAt <= ds[m].createdAt then n else m;
      forall j | 0 <= j < |ds|
        ensures ds[k].createdAt <= ds[j].createdAt
      {
        assert j < n ==> ds[..n][j] == ds[j];
      }
    }
  }

  lemma {:induction false} TakenIsInHand(rows: seq<Row>, k: nat, r: Row)
    requires k < |rows| && r.status == Processing && InHand(rows) == None
    ensures InHand(rows[k := r]) == Some(k)
  {
    assert rows[k := r][k] == r;
  }

  lemma {:induction false} SameRow(rows: seq<Row>, id: EventId)
    requires Numbered(rows) && IsInHand(rows, id)
    ensures Find(rows, id) == InHand(rows)
  {
  }

  /** Once the row in hand is settled or put back, no row is in hand. */
  lemma {:induction false} OnlyOneInHand(s: System, maxRetries: nat, r: Row)
    requires Invariant(s, maxRetries) && s.inHand == InHand(s.rows) && s.inHand.Some? && r.status != Processing
    ensures InHand(s.rows[s.inHand.value := r]) == None
  {
    var f: nat :| Frontier(s, maxRetries, f);
    var rows := s.rows[f := r];
    forall i | 0 <= i < |rows|
      ensures rows[i].status != Processing
    {
      assert i < f ==> IsSettled(s.rows[i]);
    }
  }

  lemma {:induction false} EmptyIsManaged(s: System, maxRetries: nat)
    requires IsEmpty(s) && 1 <= maxRetries
    ensures Tabled(s) && Managed(s, maxRetries)
  {
    EmptyIsInvariant(s, maxRetries);
  }

  lemma {:induction false} PushRow(s: System, id: EventId, payload: string, maxRetries: nat)
    requires Tabled(s) && s.inHand == InHand(s.rows)
    ensures var s' := Step(s, Push(id, payload), maxRetries);
      && Tabled(s') && InHand(s'.rows) == s'.inHand
      && (Managed(s, maxRetries) ==> Managed(s', maxRetries))
  {
    var r := Row(id, payload, Pending, 0, |s.rows| + 1);
    SumAfterPush(s.rows, r);
    assert (s.rows + [r])[..|s.rows|] == s.rows;
    if Managed(s, maxRetries) {
      StepKeepsInvariant(s, Push(id, payload), maxRetries);
    }
  }

  lemma {:induction false} StaysTabled(s: System, k: nat, r: Row)
    requires Tabled(s) && k < |s.rows| && r.id == s.rows[k].id && r.number == s.rows[k].number
    ensures Numbered(s.rows[k := r])
    ensures SumRetries(s.rows[k := r]) == s.failed + s.deadLettered + r.retries - s.rows[k].retries
  {
    SumAfterUpdate(s.rows, k, r);
  }

  lemma {:induction false} TakeIsStep(s: System, k: nat, maxRetries: nat)
    requires Managed(s, maxRetries) && s.inHand == InHand(s.rows) == None && FirstPending(s.rows) == Some(k)
    ensures |s.rows| == |s.taken|
    ensures Taken(s, k) == Step(s, Take, maxRetries) && Managed(Step(s, Take, maxRetries), maxRetries)
  {
    TakenIsInHand(s.rows, k, s.rows[k].(status := Processing));
    StepKeepsInvariant(s, Take, maxRetries);
  }

  lemma {:induction false} TakeRow(s: System, k: nat, maxRetries: nat)
    requires Tabled(s) && FirstPending(s.rows) == Some(k)
    ensures Tabled(Taken(s, k))
    ensures Managed(s, maxRetries) && s.inHand == InHand(s.rows) == None ==>
      Taken(s, k) == Step(s, Take, maxRetries) && Managed(Step(s, Take, maxRetries), maxRetries)
  {
    StaysTabled(s, k, s.rows[k].(status := Processing));
    if Managed(s, maxRetries) && s.inHand == InHand(s.rows) == None {
      TakeIsStep(s, k, maxRetries);
    }
  }

  lemma {:induction false} AckIsStep(s: System, id: EventId, maxRetries: nat)
    requires Managed(s, maxRetries) && s.inHand == InHand(s.rows) && IsInHand(s.rows, id)
    ensures Find(s.rows, id).Some? && Acked(s, Find(s.rows, id).value) == Step(s, Ack, maxRetries)
    ensures Managed(Step(s, Ack, maxRetries), maxRetries)
  {
    SameRow(s.rows, id);
    OnlyOneInHand(s, maxRetries, s.rows[s.inHand.value].(status := Completed));
    StepKeepsInvariant(s, Ack, maxRetries);
  }

  lemma {:induction false} AckRow(s: System, id: EventId, maxRetries: nat)
    requires Tabled(s) && Find(s.rows, id).Some?
    ensures Tabled(Acked(s, Find(s.rows, id).value))
    ensures Managed(s, maxRetries) && s.inHand == InHand(s.rows) && IsInHand(s.rows, id) ==>
      && Acked(s, Find(s.rows, id).value) == Step(s, Ack, maxRetries)
      && Managed(Step(s, Ack, maxRetries), maxRetries)
  {
    var k := Find(s.rows, id).value;
    StaysTabled(s, k, s.rows[k].(status := Completed));
    if Managed(s, maxRetries) && s.inHand == InHand(s.rows) && IsInHand(s.rows, id) {
      AckIsStep(s, id, maxRetries);
    }
  }

  lemma {:induction false} NackIsStep(s: System, id: EventId, maxRetries: nat)
    requires Managed(s, maxRetries) && s.inHand == InHand(s.rows) && IsInHand(s.rows, id)
    ensures Find(s.rows, id).Some? && Nacked(s, Find(s.rows, id).value, maxRetries) == Step(s, Nack, maxRetries)
    ensures Managed(Step(s, Nack, maxRetries), maxRetries)
  {
    SameRow(s.rows, id);
    OnlyOneInHand(s, maxRetries, Rejected(s.rows[s.inHand.value], maxRetries));
    StepKeepsInvariant(s, Nack, maxRetries);
  }

  lemma {:induction false} NackRow(s: System, id: EventId, maxRetries: nat)
    requires Tabled(s) && Find(s.rows, id).Some?
    ensures Tabled(Nacked(s, Find(s.rows, id).value, maxRetries))
    ensures Managed(s, maxRetries) && s.inHand == InHand(s.rows) && IsInHand(s.rows, id) ==>
      && Nacked(s, Find(s.rows, id).value, maxRetries) == Step(s, Nack, maxRetries)
      && Managed(Step(s, Nack, maxRetries), maxRetries)
  {
    var k := Find(s.rows, id).value;
    StaysTabled(s, k, Rejected(s.rows[k], maxRetries));
    if Managed(s, maxRetries) && s.inHand == InHand(s.rows) && IsInHand(s.rows, id) {
      NackIsStep(s, id, maxRetries);
    }
  }

  /** What processing an event comes to: allowed and executed, blocked by policy, or an exception. */
  datatype Outcome = Allowed | Blocked(reason: string) | Raised(error: string)

  class SubstrateLoop {
    const queue: EventQueue

    constructor (queue: EventQueue)
      ensures this.queue == queue
    {
      this.queue := queue;
    }

    /** Every event that was taken is acknowledged or rejected, whatever happens in between. */
    method ProcessEvent(id: EventId, outcome: Outcome, now: real)
      requires queue.Valid() && IsInHand(queue.rows, id)
      modifies queue
      ensures queue.Valid()
      ensures queue.AsSystem() == Step(old(queue.AsSystem()), if outcome.Allowed? then Ack else Nack, queue.maxRetries)
    {
      match outcome
      case Allowed => queue.Ack(id);
      case Blocked(reason) => queue.Nack(id, reason, now);
      case Raised(error) => queue.Nack(id, error, now);
    }

    /** One turn of the loop; an idle turn changes nothing. */
    method Turn(outcome: Outcome, now: real)
      requires queue.Valid() && InHand(queue.rows) == None
      modifies queue
      ensures queue.Valid() && InHand(queue.rows) == None
      ensures var took := Step(old(queue.AsSystem()), Take, queue.maxRetries);
        queue.AsSystem() == if FirstPending(old(queue.rows)) == None then old(queue.AsSystem())
                            else Step(took, if outcome.Allowed? then Ack else Nack, queue.maxRetries)
    {
      var event := queue.Pop();
      if event == None {
        return;
      }
      ProcessEvent(event.value.id, outcome, now);
    }
  }
}
