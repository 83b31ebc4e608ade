/**
 What a request is answered with, from the engine's reply or from the record it finds, and what it leaves
 in the store: stated over runs, on the reply's own status and decision.
 */
module Answers {
  import opened Common
  import opened Receiver
  import opened Retries
  import Tasks = TaskStore

  // ---- From the engine's reply ---------------------------------------------------------------------

  /** Handler `h` is waiting for its engine call. */
  predicate Waits(steps: seq<Step>, h: nat) {
    Exec(steps).Some? && h in Exec(steps).value.handlers && Exec(steps).value.handlers[h].pc.Waiting?
  }

  /** The run goes on with the reply and the final store call, which ends in this record and this answer. */
  predicate Ends(steps: seq<Step>, h: nat, reply: Reply, more: seq<Step>, life: Tasks.Life, answer: Response)
    requires Waits(steps, h)
  {
    var key := Exec(steps).value.handlers[h].key;
    && more == steps + [Deliver(h, reply)] + [Persist(h)] && Exec(more).Some?
    && h in Exec(more).value.handlers && Exec(more).value.handlers[h].pc == Done(answer, Final)
    && key in Exec(more).value.tasks
    && Exec(more).value.tasks[key].life == life && Exec(more).value.tasks[key].response == Some(answer)
  }

  lemma Finishes(steps: seq<Step>, h: nat, reply: Reply) returns (more: seq<Step>)
    requires Waits(steps, h)
    ensures Ends(steps, h, reply, more, LifeFor(reply), ResponseFor(reply))
  {
    HoldsRecord(steps, h);
    more := Then(steps, Deliver(h, reply));
    HoldsRecord(more, h);
    more := Then(more, Persist(h));
  }

  /**
   A reply without a decision fails the record exactly when its status is not a success; the answer is
   then 503 for a server error and 400 for anything else.
   */
  lemma WithoutDecision(steps: seq<Step>, h: nat, reply: Reply)
    returns (more: seq<Step>, life: Tasks.Life, answer: Response)
    requires Waits(steps, h) && reply.decision.NoDecision?
    ensures Ends(steps, h, reply, more, life, answer)
    ensures life == Tasks.Failed <==> reply.status < 200 || reply.status > 299
    ensures life == Tasks.Failed ==> (answer.status == 503 <==> reply.status >= 500)
    ensures life == Tasks.Failed ==> (answer.status == 400 <==> reply.status < 500)
    ensures life != Tasks.Failed ==> life == Tasks.Denied
  {
    more := Finishes(steps, h, reply);
    life, answer := LifeFor(reply), ResponseFor(reply);
  }

  /** The next request for a failed key opens the record again and calls the engine. */
  lemma FailedIsCalledAgain(steps: seq<Step>, key: string, u: nat) returns (again: seq<Step>)
    requires Exec(steps).Some? && key != "" && u !in Exec(steps).value.handlers
    requires key in Exec(steps).value.tasks && Exec(steps).value.tasks[key].life == Tasks.Failed
    ensures again == steps + [Arrive(u, key)] + [Create(u)] + [Route(u)] + [Reopen(u)] + [Post(u)]
    ensures Exec(again).Some? && Exec(again).value.posts == Exec(steps).value.posts + [key]
    ensures key in Exec(again).value.tasks
    ensures Exec(again).value.tasks[key] == Exec(steps).value.tasks[key].(life := Tasks.Pending, response := None)
  {
    again := Then(steps, Arrive(u, key));
    again := Then(again, Create(u));
    again := Then(again, Route(u));
    HoldsRecord(again, u);
    again := Then(again, Reopen(u));
    again := Then(again, Post(u));
  }

  /**
   A denial, or a success without a decision, is answered with the error table's status, or where the table has
   none with 401 for a 422 and 403 for anything else.
   */
  lemma Denial(steps: seq<Step>, h: nat, reply: Reply) returns (more: seq<Step>, answer: Response)
    requires Waits(steps, h)
    requires reply.decision.Deny? || (reply.decision.NoDecision? && 200 <= reply.status <= 299)
    ensures Ends(steps, h, reply, more, Tasks.Denied, answer)
    ensures reply.decision.mapped.Some? ==> answer.status == reply.decision.mapped.value
    ensures reply.decision.mapped.None? ==> (answer.status == 401 <==> reply.status == 422)
    ensures reply.decision.mapped.None? ==> (answer.status == 403 <==> reply.status != 422)
  {
    more := Finishes(steps, h, reply);
    answer := ResponseFor(reply);
  }

  /** An allow completes the record and is answered 200, with the audit id, whatever the HTTP status. */
  lemma Allowed(steps: seq<Step>, h: nat, reply: Reply) returns (more: seq<Step>)
    requires Waits(steps, h) && reply.decision.Allow?
    ensures Ends(steps, h, reply, more, Tasks.Completed, Tasks.Response(200, reply.audit))
  {
    more := Finishes(steps, h, reply);
  }

  // ---- When the store fails --------------------------------------------------------------------------

  /** The store call a handler is about to make, had it gone well. */
  function StoreCall(pc: Pc, h: nat): Option<Step> {
    match pc
    case Arrived => Some(Create(h))
    case Inserting => Some(Insert(h))
    case Reselecting => Some(Reselect(h))
    case Reopening => Some(Reopen(h))
    case Replied(_) => Some(Persist(h))
    case _ => None
  }

  /** The store call `call` throws: answered 500, with all of its effect on the records or none. */
  predicate Faults(sys: System, h: nat, applied: bool, call: Step) {
    && Next(sys, StoreFails(h, applied)).Some? && Next(sys, call).Some?
    && var sys', done := Next(sys, StoreFails(h, applied)).value, Next(sys, call).value;
       && h in sys'.handlers && sys'.handlers[h].pc.Done? && sys'.handlers[h].pc.response.status == 500
       && sys'.tasks == (if applied then done.tasks else sys.tasks) && sys'.posts == sys.posts
  }

  lemma CreateFaults(sys: System, h: nat, applied: bool)
    requires h in sys.handlers && Creating(sys.handlers[h].pc)
    ensures Faults(sys, h, applied, StoreCall(sys.handlers[h].pc, h).value)
  {
  }

  lemma UpdateFaults(sys: System, h: nat, applied: bool)
    requires h in sys.handlers && (sys.handlers[h].pc.Reopening? || sys.handlers[h].pc.Replied?)
    ensures Faults(sys, h, applied, StoreCall(sys.handlers[h].pc, h).value)
  {
  }

  /** A store call that throws is answered 500, and has either done what it would have done or nothing. */
  lemma StoreFault(sys: System, h: nat, applied: bool)
    requires h in sys.handlers
    ensures Next(sys, StoreFails(h, applied)).Some? <==> StoreCall(sys.handlers[h].pc, h).Some?
    ensures StoreCall(sys.handlers[h].pc, h).Some? ==>
              Faults(sys, h, applied, StoreCall(sys.handlers[h].pc, h).value)
  {
    if Creating(sys.handlers[h].pc) {
      CreateFaults(sys, h, applied);
    } else if sys.handlers[h].pc.Reopening? || sys.handlers[h].pc.Replied? {
      UpdateFaults(sys, h, applied);
    }
  }

  // ---- From the record -----------------------------------------------------------------------------

  /** A new request up to where it is routed, over either store, nobody else running meanwhile. */
  function Looks(steps: seq<Step>, u: nat, key: string, sql: bool, known: bool): seq<Step> {
    if !sql then steps + [Arrive(u, key)] + [Create(u)] + [Route(u)]
    else if known then steps + [Arrive(u, key)] + [Select(u)] + [Route(u)]
    else steps + [Arrive(u, key)] + [Select(u)] + [Insert(u)] + [Route(u)]
  }

  /** It gets the stored answer of a finished record, calls again for a failed one, and is told 202 of any other. */
  lemma FindsRecord(steps: seq<Step>, u: nat, key: string, sql: bool)
    requires Exec(steps).Some? && key != "" && u !in Exec(steps).value.handlers && key in Exec(steps).value.tasks
    ensures
      var sys, run := Exec(steps).value, Exec(Looks(steps, u, key, sql, true));
      var task := sys.tasks[key];
      && run.Some? && run.value.tasks == sys.tasks && run.value.posts == sys.posts && u in run.value.handlers
      && var pc := run.value.handlers[u].pc;
         if task.life.Failed? then pc == Reopening
         else if !task.life.Pending? && task.response.Some? then pc == Done(task.response.value, Replay)
         else pc.Done? && pc.kind == InProgress && pc.response.status == 202
  {
    var more := Then(steps, Arrive(u, key));
    more := Then(more, if sql then Select(u) else Create(u));
    more := Then(more, Route(u));
  }

  /** A key seen for the first time gets a pending record before its engine call. */
  lemma FindsNothing(steps: seq<Step>, u: nat, key: string, sql: bool)
    requires Exec(steps).Some? && key != "" && u !in Exec(steps).value.handlers && key !in Exec(steps).value.tasks
    ensures
      var sys, run := Exec(steps).value, Exec(Looks(steps, u, key, sql, false));
      && run.Some? && run.value.tasks == sys.tasks[key := Task(u, Tasks.Pending, None)]
      && run.value.posts == sys.posts && u in run.value.handlers && run.value.handlers[u].pc == Calling
  {
    var more := Then(steps, Arrive(u, key));
    if sql {
      more := Then(more, Select(u));
      more := Then(more, Insert(u));
    } else {
      more := Then(more, Create(u));
    }
    more := Then(more, Route(u));
  }
}
