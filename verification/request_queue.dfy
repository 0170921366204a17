/** `APIRequestQueue` of the OCR background script: every call to the vision API
    goes through one queue that runs the requests one at a time, in arrival order,
    with at least `minInterval` milliseconds between the end of one request and
    the start of the next.

    Time is explicit: `Date.now()` becomes a parameter, and the behaviour of each
    queued `requestFn` is given by how long it runs and how it settles. */
module RequestQueue {
  import opened Wrappers

  /** `this.minInterval`. */
  const MinInterval: int := 500
  /** The `setTimeout(…, 50)` that polls the queue again after a request settles. */
  const RepollDelay: int := 50

  /** A queued `requestFn`: its run time and the value it resolves with or the error
      it rejects with. */
  datatype Task = Task(id: nat, duration: nat, outcome: Result<string, string>)

  /** The fields of the queue object. */
  datatype Queue = Queue(waiting: seq<Task>, processing: bool, lastRequest: int)

  /** A request taken off the queue and the time it starts running. */
  datatype Started = Started(task: Task, start: int)

  /** One request as it ran: when it started, when it settled, and how. */
  datatype Record = Record(id: nat, start: int, settle: int, outcome: Result<string, string>)

  /** `execute(requestFn)` before it polls: the request joins the back of the queue. */
  function Enqueue(q: Queue, t: Task): (r: Queue)
    ensures r.waiting == q.waiting + [t]
    ensures r.processing == q.processing && r.lastRequest == q.lastRequest
  {
    q.(waiting := q.waiting + [t])
  }

  /** The start time after the wait of `processQueue`: a request polled at `now`
      waits until `minInterval` has passed since the previous one settled. */
  function StartTime(lastRequest: int, now: int): (s: int)
    ensures s >= now && s >= lastRequest + MinInterval
    ensures s == now || s == lastRequest + MinInterval
  {
    if now - lastRequest < MinInterval then lastRequest + MinInterval else now
  }

  /** `processQueue()` at time `now`, up to the call of `requestFn`. */
  function Poll(q: Queue, now: int): (r: (Queue, Option<Started>))
    ensures q.processing || q.waiting == [] <==> r.1.None?
    ensures r.1.None? ==> r.0 == q
    ensures r.1.Some? ==> r.0.processing && r.0.lastRequest == q.lastRequest
    ensures r.1.Some? ==> [r.1.value.task] + r.0.waiting == q.waiting
    ensures r.1.Some? ==> r.1.value.start >= now && r.1.value.start >= q.lastRequest + MinInterval
  {
    if q.processing || |q.waiting| == 0 then (q, None)
    else (Queue(q.waiting[1..], true, q.lastRequest), Some(Started(q.waiting[0], StartTime(q.lastRequest, now))))
  }

  /** The `finally` block at time `now`, whether `requestFn` resolved or threw. */
  function Settle(q: Queue, now: int): (r: Queue)
    ensures !r.processing && r.lastRequest == now && r.waiting == q.waiting
  {
    Queue(q.waiting, false, now)
  }

  /** A request is only ever started by a queue that is not already running one:
      two polls in a row never start two requests. */
  lemma {:induction false} SingleFlight(q: Queue, now: int, later: int)
    requires Poll(q, now).1.Some?
    ensures Poll(Poll(q, now).0, later).1.None?
    ensures Poll(Poll(q, now).0, later).0 == Poll(q, now).0
  {
  }

  /** A task enqueued while a request is running waits: the poll of `execute`
      changes nothing but the queue's tail. */
  lemma {:induction false} EnqueueWhileBusy(q: Queue, t: Task, now: int)
    requires q.processing
    ensures Poll(Enqueue(q, t), now).1.None?
    ensures Poll(Enqueue(q, t), now).0.waiting == q.waiting + [t]
  {
  }

  /** The schedule of a queue that runs until it is empty: each request starts
      after the wait, settles `duration` later, and the next poll comes 50 ms after
      it settles. */
  function Drain(waiting: seq<Task>, lastRequest: int, now: int): (r: seq<Record>)
    ensures |r| == |waiting|
    decreases |waiting|
  {
    if |waiting| == 0 then []
    else
      var s := StartTime(lastRequest, now);
      var e := s + waiting[0].duration;
      [Record(waiting[0].id, s, e, waiting[0].outcome)] + Drain(waiting[1..], e, e + RepollDelay)
  }

  /** The drained schedule is first-in first-out, one request at a time, spaced by
      `minInterval`, and every task settles with its own outcome, so a failing task
      neither stops the queue nor changes any other task's result. */
  lemma {:induction false} DrainSchedule(waiting: seq<Task>, lastRequest: int, now: int)
    ensures forall i :: 0 <= i < |waiting| ==>
      Drain(waiting, lastRequest, now)[i].id == waiting[i].id
      && Drain(waiting, lastRequest, now)[i].outcome == waiting[i].outcome
      && Drain(waiting, lastRequest, now)[i].settle == Drain(waiting, lastRequest, now)[i].start + waiting[i].duration
      && Drain(waiting, lastRequest, now)[i].start >= now
    ensures |waiting| > 0 ==> Drain(waiting, lastRequest, now)[0].start >= lastRequest + MinInterval
    ensures forall i :: 0 < i < |waiting| ==>
      Drain(waiting, lastRequest, now)[i].start >= Drain(waiting, lastRequest, now)[i - 1].settle + MinInterval
    decreases |waiting|
  {
    if |waiting| > 0 {
      var r := Drain(waiting, lastRequest, now);
      var s := StartTime(lastRequest, now);
      var e := s + waiting[0].duration;
      var rest := Drain(waiting[1..], e, e + RepollDelay);
      DrainSchedule(waiting[1..], e, e + RepollDelay);
      assert r == [Record(waiting[0].id, s, e, waiting[0].outcome)] + rest;
      forall i | 0 < i < |waiting|
        ensures r[i].id == waiting[i].id && r[i].outcome == waiting[i].outcome
        ensures r[i].settle == r[i].start + waiting[i].duration && r[i].start >= now
        ensures r[i].start >= r[i - 1].settle + MinInterval
      {
        assert r[i] == rest[i - 1];
        if i > 1 {
          assert r[i - 1] == rest[i - 2];
        }
      }
    }
  }

  /** Requests never overlap: each one settles before the next one starts. */
  lemma NoOverlap(waiting: seq<Task>, lastRequest: int, now: int, i: nat, j: nat)
    requires i < j < |waiting|
    ensures Drain(waiting, lastRequest, now)[i].settle < Drain(waiting, lastRequest, now)[j].start
    decreases j - i
  {
    DrainSchedule(waiting, lastRequest, now);
    var r := Drain(waiting, lastRequest, now);
    if j > i + 1 {
      NoOverlap(waiting, lastRequest, now, i, j - 1);
    }
  }

  /** Running the queue by repeated polls and settles, as the scheduled
      `setTimeout` does, produces the drained schedule. */
  method RunQueue(q0: Queue, now: int) returns (records: seq<Record>, q: Queue)
    requires !q0.processing
    ensures records == Drain(q0.waiting, q0.lastRequest, now)
    ensures q.waiting == [] && !q.processing
    ensures |records| > 0 ==> q.lastRequest == records[|records| - 1].settle
  {
    q := q0;
    records := [];
    var t := now;
    while |q.waiting| > 0
      invariant !q.processing
      invariant records + Drain(q.waiting, q.lastRequest, t) == Drain(q0.waiting, q0.lastRequest, now)
      invariant |records| > 0 ==> q.lastRequest == records[|records| - 1].settle
      decreases |q.waiting|
    {
      var (q1, started) := Poll(q, t);
      var run := started.value;
      var settle := run.start + run.task.duration;
      var record := Record(run.task.id, run.start, settle, run.task.outcome);
      assert Drain(q.waiting, q.lastRequest, t) == [record] + Drain(q1.waiting, settle, settle + RepollDelay);
      records := records + [record];
      q := Settle(q1, settle);
      t := settle + RepollDelay;
    }
  }
}
