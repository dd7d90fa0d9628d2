/** The life of an event whose work always fails: every retry hands out what was pushed, and so does its replay. */
module RetriedEvents {
  import opened Common
  import opened QueueModel
  import opened EventQueues

  /** The one row of the table after some rejections. */
  ghost predicate RejectedTimes(q: EventQueue, id: EventId, payload: string, error: string, now: real, times: nat)
    reads q
  {
    && q.Valid() && times <= q.maxRetries
    && q.rows == [Row(id, payload, if times < q.maxRetries then Pending else Dead, times, 1)]
    && q.deadLetter == if times < q.maxRetries then [] else [DeadLetter(id, payload, error, times, now)]
  }

  method RetryOnce(q: EventQueue, id: EventId, payload: string, error: string, now: real, ghost times: nat)
    returns (event: Option<Row>)
    requires RejectedTimes(q, id, payload, error, now, times) && times < q.maxRetries
    modifies q
    ensures event == Some(Row(id, payload, Pending, times, 1))
    ensures RejectedTimes(q, id, payload, error, now, times + 1)
  {
    OneRow(q.rows[0]);
    event := q.Pop();
    OneRow(q.rows[0]);
    q.Nack(id, error, now);
    assert q.deadLetter
      == if times + 1 < q.maxRetries then [] else [] + [DeadLetter(id, payload, error, times + 1, now)];
  }

  lemma {:induction false} OneRow(r: Row)
    ensures FirstPending([r]) == if r.status == Pending then Some(0) else None
    ensures InHand([r]) == if r.status == Processing then Some(0) else None
    ensures Find([r], r.id) == Some(0)
  {
  }

  method PushFirst(maxRetries: nat, id: EventId, payload: string, ghost error: string, ghost now: real)
    returns (q: EventQueue)
    requires 1 <= maxRetries
    ensures fresh(q) && q.maxRetries == maxRetries && RejectedTimes(q, id, payload, error, now, 0)
  {
    q := new EventQueue(maxRetries);
    FirstPush(q.AsSystem(), id, payload, maxRetries);
    var _ := q.Push(id, payload);
  }

  lemma {:induction false} FirstPush(s: System, id: EventId, payload: string, maxRetries: nat)
    requires |s.rows| == |s.taken| == 0 && s.inHand == None
    ensures Step(s, Push(id, payload), maxRetries).rows == [Row(id, payload, Pending, 0, 1)]
  {
  }

  method RetryAll(q: EventQueue, id: EventId, payload: string, error: string, now: real) returns (handed: seq<Row>)
    requires RejectedTimes(q, id, payload, error, now, 0)
    modifies q
    ensures RejectedTimes(q, id, payload, error, now, q.maxRetries)
    ensures |handed| == q.maxRetries
    ensures forall k :: 0 <= k < |handed| ==> handed[k] == Row(id, payload, Pending, k, 1)
  {
    handed := [];
    for times := 0 to q.maxRetries
      invariant RejectedTimes(q, id, payload, error, now, times)
      invariant |handed| == times && forall k :: 0 <= k < times ==> handed[k] == Row(id, payload, Pending, k, 1)
    {
      var event := RetryOnce(q, id, payload, error, now, times);
      handed := handed + [event.value];
    }
  }

  lemma {:induction false} DeadThenPending(a: Row, b: Row)
    requires a.status == Dead && b.status == Pending
    ensures FirstPending([a, b]) == Some(1)
  {
    OneRow(a);
    assert [a, b][..1] == [a];
  }

  lemma {:induction false} SecondPush(s: System, id: EventId, payload: string, maxRetries: nat)
    requires |s.rows| == |s.taken| == 1 && s.inHand == None && s.rows[0].id != id
    ensures Step(s, Push(id, payload), maxRetries).rows == [s.rows[0], Row(id, payload, Pending, 0, 2)]
  {
  }

  method ReplayOnce(q: EventQueue, id: EventId, freshId: EventId, payload: string, ghost error: string,
                    ghost now: real)
    returns (again: Option<Row>)
    requires RejectedTimes(q, id, payload, error, now, q.maxRetries) && freshId != id
    modifies q
    ensures again == Some(Row(freshId, payload, Pending, 0, 2)) && q.deadLetter == []
  {
    ghost var s, dead := q.AsSystem(), q.rows[0];
    SecondPush(s, freshId, payload, q.maxRetries);
    var letter := q.ReplayDeadLetter(id, freshId);
    assert letter == Some(DeadLetter(id, payload, error, q.maxRetries, now));
    DeadThenPending(dead, q.rows[1]);
    again := q.Pop();
  }

  /**
   An event that fails every time is handed out as often as it may be retried, each time with the payload that was
   pushed; then its letter holds that payload with the error, and replaying the letter hands it out once more.
   */
  method FailForGood(maxRetries: nat, id: EventId, payload: string, error: string, now: real, freshId: EventId)
    returns (handed: seq<Row>, letters: seq<DeadLetter>, again: Option<Row>)
    requires 1 <= maxRetries && freshId != id
    ensures |handed| == maxRetries
    ensures forall k :: 0 <= k < maxRetries ==> handed[k] == Row(id, payload, Pending, k, 1)
    ensures letters == [DeadLetter(id, payload, error, maxRetries, now)]
    ensures again == Some(Row(freshId, payload, Pending, 0, 2))
  {
    var q := PushFirst(maxRetries, id, payload, error, now);
    handed := RetryAll(q, id, payload, error, now);
    letters := q.deadLetter;
    again := ReplayOnce(q, id, freshId, payload, error, now);
  }
}
