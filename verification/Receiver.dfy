/**
 The receiver's task lifecycle: any number of handlers over one task store, interleaved between
 awaits, with stores that may fail after writing and an engine that may answer anything, or nothing.
 */
module Receiver {
  import opened Common
  import Tasks = TaskStore

  type Response = Tasks.Response

  /** The stored part of a task record; `id` is the handler that generated the record's id. */
  datatype Task = Task(id: nat, life: Tasks.Life, response: Option<Response>)

  /** The statuses the denial table maps engine errors to. */
  type DenialStatus = s: int | s in {400, 401, 403, 422, 500, 503} witness 403

  /** `mapped` is the table's status for the error the reply names, if listed; a reply that names none is listed. */
  datatype Decision = Allow | Deny(mapped: Option<DenialStatus>) | NoDecision(mapped: Option<DenialStatus>)

  datatype Reply = Reply(status: int, decision: Decision, audit: string)

  datatype Kind = Replay | InProgress | Final | NotPersisted | CreateFailed

  datatype Pc =
    | Arrived
    | Inserting
    | Reselecting
    | Routing(found: Task, created: bool)
    | Reopening
    | Calling
    | Waiting
    | Replied(reply: Reply)
    | Done(response: Response, kind: Kind)
    | Crashed

  datatype Handler = Handler(key: string, record: nat, pc: Pc)

  /** `posts` and `failed` are history: the keys of the requests sent to the engine, and the keys ever failed. */
  datatype System = System(
    tasks: map<string, Task>, handlers: map<nat, Handler>, posts: seq<string>, failed: set<string>)

  const EMPTY := System(map[], map[], [], {})

  const STORE_ERROR := Tasks.Response(500, "PORTAUTH_TASK_PERSISTENCE_FAILED")

  /**
   `Create` is the memory store's createPending; `Select`, `Insert`, `Reselect` are PostgreSQL's. `Deliver`
   is any response to the engine call, from the engine or from a gateway; `Lose` is a call that throws.
   */
  datatype Step =
    | Arrive(h: nat, key: string)
    | Create(h: nat)
    | Select(h: nat)
    | Insert(h: nat)
    | Reselect(h: nat)
    | Route(h: nat)
    | Reopen(h: nat)
    | Post(h: nat)
    | Deliver(h: nat, reply: Reply)
    | Lose(h: nat)
    | Persist(h: nat)
    | StoreFails(h: nat, applied: bool)

  function DenialOf(r: Reply): int {
    if r.decision.Allow? || r.decision.mapped.None? then (if r.status == 422 then 401 else 403)
    else r.decision.mapped.value
  }

  function LifeFor(r: Reply): Tasks.Life {
    if !(200 <= r.status <= 299) && r.decision.NoDecision? then Tasks.Failed
    else if !r.decision.Allow? then Tasks.Denied
    else Tasks.Completed
  }

  function ResponseFor(r: Reply): Response {
    match LifeFor(r)
    case Failed => Tasks.Response(if r.status >= 500 then 503 else 400, "PORTAUTH_ENGINE_UNAVAILABLE")
    case Denied => Tasks.Response(DenialOf(r), r.audit)
    case _ => Tasks.Response(200, r.audit)
  }

  /** A 200 is an allow and nothing else, and what may be retried is answered 503 or 400. */
  lemma OnlyAllowIs200(r: Reply)
    ensures ResponseFor(r).status == 200 <==> r.decision.Allow?
    ensures LifeFor(r).Completed? <==> r.decision.Allow?
    ensures LifeFor(r).Failed? <==> r.decision.NoDecision? && (r.status < 200 || r.status > 299)
    ensures LifeFor(r).Failed? ==> ResponseFor(r).status in {400, 503}
    ensures LifeFor(r).Denied? ==> ResponseFor(r).status in {400, 401, 403, 422, 500, 503}
  {
    if !r.decision.Allow? && r.decision.mapped.Some? { assert DenialOf(r) == r.decision.mapped.value; }
  }

  predicate Terminal(t: Task) {
    t.life.Completed? || t.life.Denied?
  }

  function TaskAt(sys: System, key: string): Option<Task> {
    if key in sys.tasks then Some(sys.tasks[key]) else None
  }

  // ---- One step --------------------------------------------------------------------------------

  function Go(sys: System, h: nat, pc: Pc): System
    requires h in sys.handlers
  {
    sys.(handlers := sys.handlers[h := sys.handlers[h].(pc := pc)])
  }

  /** The unique key index turns every second insert away. */
  function Inserted(sys: System, h: nat): System
    requires h in sys.handlers
  {
    var key := sys.handlers[h].key;
    if key in sys.tasks then sys else sys.(tasks := sys.tasks[key := Task(h, Tasks.Pending, None)])
  }

  /** createPending answers with a record, whose id the handler adopts. */
  function Receives(sys: System, h: nat, found: Task, created: bool): System
    requires h in sys.handlers
  {
    sys.(handlers := sys.handlers[h := sys.handlers[h].(record := found.id, pc := Routing(found, created))])
  }

  /** The record a handler's `update` by id would find. */
  predicate Held(sys: System, h: nat)
    requires h in sys.handlers
  {
    var hd := sys.handlers[h];
    TaskAt(sys, hd.key).Some? && sys.tasks[hd.key].id == hd.record
  }

  function Writes(sys: System, h: nat, life: Tasks.Life, response: Option<Response>): System
    requires h in sys.handlers
  {
    var hd := sys.handlers[h];
    if !Held(sys, h) then sys
    else sys.(tasks := sys.tasks[hd.key := Task(hd.record, life, response)],
              failed := sys.failed + if life.Failed? then {hd.key} else {})
  }

  /** `update`, then on to `next`; a missing record is an error. */
  function Updates(sys: System, h: nat, life: Tasks.Life, response: Option<Response>, next: Pc, missing: Kind): System
    requires h in sys.handlers
  {
    Go(Writes(sys, h, life, response), h, if Held(sys, h) then next else Done(STORE_ERROR, missing))
  }

  function Routed(found: Task, created: bool): Pc {
    if created then Calling
    else if Terminal(found) && found.response.Some? then Done(found.response.value, Replay)
    else if !found.life.Failed? then Done(Tasks.Response(202, ""), InProgress)
    else Reopening
  }

  /** A store call throws, having been applied or not. */
  function Faulted(sys: System, h: nat, applied: bool): Option<System>
    requires h in sys.handlers
  {
    match sys.handlers[h].pc
    case Arrived => Some(Go(if applied then Inserted(sys, h) else sys, h, Done(STORE_ERROR, CreateFailed)))
    case Inserting => Some(Go(if applied then Inserted(sys, h) else sys, h, Done(STORE_ERROR, CreateFailed)))
    case Reselecting => Some(Go(sys, h, Done(STORE_ERROR, CreateFailed)))
    case Reopening =>
      Some(Go(if applied then Writes(sys, h, Tasks.Pending, None) else sys, h, Done(STORE_ERROR, CreateFailed)))
    case Replied(reply) =>
      var stored := if applied then Writes(sys, h, LifeFor(reply), Some(ResponseFor(reply))) else sys;
      Some(Go(stored, h, Done(STORE_ERROR, NotPersisted)))
    case _ => None
  }

  function Next(sys: System, step: Step): Option<System> {
    if step.Arrive? then
      if step.h in sys.handlers || step.key == "" then None
      else Some(sys.(handlers := sys.handlers[step.h := Handler(step.key, step.h, Arrived)]))
    else if step.h !in sys.handlers then None
    else
      var h, hd, pc := step.h, sys.handlers[step.h], sys.handlers[step.h].pc;
      var task := TaskAt(sys, hd.key);
      match step {
        case Create(_) =>
          if !pc.Arrived? then None
          else if task.Some? then Some(Receives(sys, h, task.value, false))
          else Some(Receives(Inserted(sys, h), h, Task(h, Tasks.Pending, None), true))
        case Select(_) =>
          if !pc.Arrived? then None
          else if task.Some? then Some(Receives(sys, h, task.value, false))
          else Some(Go(sys, h, Inserting))
        case Insert(_) =>
          if !pc.Inserting? then None
          else if task.Some? then Some(Go(sys, h, Reselecting))
          else Some(Receives(Inserted(sys, h), h, Task(h, Tasks.Pending, None), true))
        case Reselect(_) =>
          if !pc.Reselecting? then None
          else if task.Some? then Some(Receives(sys, h, task.value, false))
          else Some(Go(sys, h, Done(STORE_ERROR, CreateFailed)))
        case Route(_) => if pc.Routing? then Some(Go(sys, h, Routed(pc.found, pc.created))) else None
        case Reopen(_) =>
          if pc.Reopening? then Some(Updates(sys, h, Tasks.Pending, None, Calling, CreateFailed)) else None
        case Post(_) => if pc.Calling? then Some(Go(sys.(posts := sys.posts + [hd.key]), h, Waiting)) else None
        case Deliver(_, reply) => if pc.Waiting? then Some(Go(sys, h, Replied(reply))) else None
        case Lose(_) => if pc.Waiting? then Some(Go(sys, h, Crashed)) else None
        case Persist(_) =>
          if !pc.Replied? then None
          else
            var response := ResponseFor(pc.reply);
            Some(Updates(sys, h, LifeFor(pc.reply), Some(response), Done(response, Final), NotPersisted))
        case StoreFails(_, applied) => Faulted(sys, h, applied)
      }
  }

  /** The system after a schedule, `None` if some step was not possible. */
  function Exec(steps: seq<Step>): Option<System> {
    if steps == [] then Some(EMPTY)
    else
      match Exec(steps[..|steps| - 1])
      case None => None
      case Some(sys) => Next(sys, steps[|steps| - 1])
  }

  // ---- Every interleaving: one creator, one record ---------------------------------------------

  predicate Creating(pc: Pc) {
    pc.Arrived? || pc.Inserting? || pc.Reselecting?
  }

  /** createPending has answered this handler. */
  predicate Answered(pc: Pc) {
    !Creating(pc) && !(pc.Done? && pc.kind.CreateFailed?)
  }

  /** A handler and its key's record: same record as everyone, created by the handler of that id only. */
  predicate Linked(task: Option<Task>, h: nat, hd: Handler) {
    && hd.key != ""
    && (Creating(hd.pc) && task.Some? ==> task.value.id != h)
    && (Answered(hd.pc) ==> task.Some? && hd.record == task.value.id)
    && (hd.pc.Routing? ==> hd.pc.found.id == hd.record && (hd.pc.created <==> hd.record == h))
  }

  predicate Owned(sys: System, key: string) {
    key in sys.tasks ==> sys.tasks[key].id in sys.handlers && sys.handlers[sys.tasks[key].id].key == key
  }

  ghost predicate OneRecord(sys: System) {
    && (forall key :: key in sys.tasks ==> Owned(sys, key))
    && (forall h :: h in sys.handlers ==> Linked(TaskAt(sys, sys.handlers[h].key), h, sys.handlers[h]))
  }

  /** `sys'` differs in handler `h` alone, and in what is written under its key. */
  ghost predicate Touches(sys: System, sys': System, h: nat) {
    && h in sys'.handlers && sys'.handlers == sys.handlers[h := sys'.handlers[h]]
    && (h in sys.handlers ==> sys.handlers[h].key == sys'.handlers[h].key)
    && forall key :: key != sys'.handlers[h].key ==> TaskAt(sys, key) == TaskAt(sys', key)
  }

  lemma StepTouches(sys: System, step: Step)
    requires Next(sys, step).Some?
    ensures Touches(sys, Next(sys, step).value, step.h)
    ensures step.Arrive? <==> step.h !in sys.handlers
  {
  }

  /** No step removes a record or changes its id. */
  lemma StepKeepsIds(sys: System, step: Step)
    requires Next(sys, step).Some?
    ensures forall key :: key in sys.tasks ==>
              key in Next(sys, step).value.tasks && Next(sys, step).value.tasks[key].id == sys.tasks[key].id
    ensures forall key :: key in Next(sys, step).value.tasks && key !in sys.tasks ==>
              key == Next(sys, step).value.handlers[step.h].key && Next(sys, step).value.tasks[key].id == step.h
  {
  }

  /** The handler that took the step, with its key's record. */
  predicate MoverLinked(sys': System, h: nat) {
    h in sys'.handlers && Linked(TaskAt(sys', sys'.handlers[h].key), h, sys'.handlers[h])
  }

  lemma CreatorLinks(sys: System, step: Step)
    requires OneRecord(sys) && Next(sys, step).Some? && step.h in sys.handlers && Creating(sys.handlers[step.h].pc)
    ensures MoverLinked(Next(sys, step).value, step.h)
  {
    assert Linked(TaskAt(sys, sys.handlers[step.h].key), step.h, sys.handlers[step.h]);
  }

  lemma HolderLinks(sys: System, step: Step)
    requires OneRecord(sys) && Next(sys, step).Some? && step.h in sys.handlers && !Creating(sys.handlers[step.h].pc)
    ensures MoverLinked(Next(sys, step).value, step.h)
  {
    assert Linked(TaskAt(sys, sys.handlers[step.h].key), step.h, sys.handlers[step.h]);
  }

  lemma ArriverLinks(sys: System, step: Step)
    requires OneRecord(sys) && step.Arrive? && Next(sys, step).Some?
    ensures MoverLinked(Next(sys, step).value, step.h)
  {
    if step.key in sys.tasks { assert Owned(sys, step.key); }
  }

  lemma StepLinks(sys: System, step: Step)
    requires OneRecord(sys) && Next(sys, step).Some?
    ensures MoverLinked(Next(sys, step).value, step.h)
  {
    if step.Arrive? {
      ArriverLinks(sys, step);
    } else if Creating(sys.handlers[step.h].pc) {
      CreatorLinks(sys, step);
    } else {
      HolderLinks(sys, step);
    }
  }

  lemma OneRecordStep(sys: System, step: Step)
    requires OneRecord(sys) && Next(sys, step).Some?
    ensures OneRecord(Next(sys, step).value)
  {
    var sys' := Next(sys, step).value;
    StepTouches(sys, step);
    StepKeepsIds(sys, step);
    StepLinks(sys, step);
    forall h | h in sys'.handlers
      ensures Linked(TaskAt(sys', sys'.handlers[h].key), h, sys'.handlers[h])
    {
      if h != step.h {
        assert Linked(TaskAt(sys, sys.handlers[h].key), h, sys.handlers[h]);
      }
    }
    forall key | key in sys'.tasks
      ensures Owned(sys', key)
    {
      if key in sys.tasks { assert Owned(sys, key); }
    }
  }

  /** createPending is linearizable: one creator per key, and everyone answered holds its record. */
  lemma {:induction false} AlwaysOneRecord(steps: seq<Step>)
    requires Exec(steps).Some?
    ensures OneRecord(Exec(steps).value)
  {
    if steps != [] {
      var n := |steps| - 1;
      AlwaysOneRecord(steps[..n]);
      OneRecordStep(Exec(steps[..n]).value, steps[n]);
    }
  }

  // ---- A key that has never failed -------------------------------------------------------------

  /** How often the engine was called for a key. */
  function Sent(posts: seq<string>, key: string): nat {
    if posts == [] then 0 else Sent(posts[..|posts| - 1], key) + if posts[|posts| - 1] == key then 1 else 0
  }

  predicate Untouched(task: Option<Task>, h: nat) {
    task == Some(Task(h, Tasks.Pending, None))
  }

  predicate Stored(task: Option<Task>, response: Response) {
    task.Some? && Terminal(task.value) && task.value.response == Some(response)
  }

  /** `n` engine calls have been made for the handler's key. */
  predicate Safe(task: Option<Task>, n: nat, h: nat, hd: Handler) {
    match hd.pc
    case Routing(found, created) =>
      if created then Untouched(task, h) && n == 0 else !found.life.Failed? && (Terminal(found) ==> task == Some(found))
    case Reopening => false
    case Calling => Untouched(task, h) && n == 0
    case Waiting => Untouched(task, h)
    case Replied(_) => Untouched(task, h)
    case Done(response, kind) => kind.Replay? || kind.Final? ==> Stored(task, response)
    case _ => true
  }

  predicate SafeKey(task: Option<Task>, n: nat) {
    && n <= 1 && (n == 1 ==> task.Some?)
    && (task.Some? ==> !task.value.life.Failed? && (Terminal(task.value) ==> task.value.response.Some?))
  }

  ghost predicate SafeAt(sys: System, key: string) {
    && SafeKey(TaskAt(sys, key), Sent(sys.posts, key))
    && forall h :: h in sys.handlers && sys.handlers[h].key == key ==>
         Safe(TaskAt(sys, key), Sent(sys.posts, key), h, sys.handlers[h])
  }

  lemma StepSends(sys: System, step: Step, key: string)
    requires Next(sys, step).Some?
    ensures
      var sys' := Next(sys, step).value;
      Sent(sys'.posts, key) == Sent(sys.posts, key) + if step.Post? && sys.handlers[step.h].key == key then 1 else 0
  {
    if step.Post? {
      var posts' := sys.posts + [sys.handlers[step.h].key];
      assert posts'[..|posts'| - 1] == sys.posts;
    }
  }

  lemma PosterSafe(sys: System, step: Step)
    requires Next(sys, step).Some? && step.Post? && SafeAt(sys, sys.handlers[step.h].key)
    ensures
      var sys', h, key := Next(sys, step).value, step.h, sys.handlers[step.h].key;
      && Safe(TaskAt(sys', key), Sent(sys'.posts, key), h, sys'.handlers[h])
      && SafeKey(TaskAt(sys', key), Sent(sys'.posts, key))
  {
    var key := sys.handlers[step.h].key;
    StepSends(sys, step, key);
    assert Safe(TaskAt(sys, key), Sent(sys.posts, key), step.h, sys.handlers[step.h]);
  }

  /** A handler that arrives is safe. */
  lemma ArriverSafe(sys: System, step: Step)
    requires step.Arrive? && Next(sys, step).Some? && SafeAt(sys, step.key)
    ensures MoverIsSafe(sys, step)
  {
    StepSends(sys, step, step.key);
  }

  /** One that is still in createPending stays safe. */
  lemma CreatorSafe(sys: System, step: Step)
    requires OneRecord(sys) && Next(sys, step).Some? && step.h in sys.handlers && Creating(sys.handlers[step.h].pc)
    requires SafeAt(sys, sys.handlers[step.h].key)
    ensures MoverIsSafe(sys, step)
  {
    var key := sys.handlers[step.h].key;
    StepSends(sys, step, key);
    assert Linked(TaskAt(sys, key), step.h, sys.handlers[step.h]);
    if step.StoreFails? {
      FaultSafe(sys, step);
    }
  }

  lemma FaultSafe(sys: System, step: Step)
    requires Next(sys, step).Some? && step.StoreFails? && Creating(sys.handlers[step.h].pc)
    requires SafeAt(sys, sys.handlers[step.h].key)
    ensures MoverIsSafe(sys, step)
  {
    StepSends(sys, step, sys.handlers[step.h].key);
  }

  ghost predicate MoverIsSafe(sys: System, step: Step)
    requires Next(sys, step).Some? && step.h in Next(sys, step).value.handlers
  {
    var sys', h := Next(sys, step).value, step.h;
    var key := sys'.handlers[h].key;
    && Safe(TaskAt(sys', key), Sent(sys'.posts, key), h, sys'.handlers[h])
    && SafeKey(TaskAt(sys', key), Sent(sys'.posts, key))
  }

  /** And so does one that has its record. */
  lemma MoverSafe(sys: System, step: Step)
    requires OneRecord(sys) && Next(sys, step).Some? && !step.Post? && !step.Arrive? &&
             !Creating(sys.handlers[step.h].pc)
    requires
      var key := sys.handlers[step.h].key;
      key !in Next(sys, step).value.failed && SafeAt(sys, key)
    ensures MoverIsSafe(sys, step)
  {
    var key := sys.handlers[step.h].key;
    StepSends(sys, step, key);
    assert Linked(TaskAt(sys, key), step.h, sys.handlers[step.h]);
    assert Safe(TaskAt(sys, key), Sent(sys.posts, key), step.h, sys.handlers[step.h]);
  }

  /** Nobody else of the key is in a position to notice. */
  lemma OtherSafe(sys: System, step: Step, h: nat)
    requires OneRecord(sys) && Next(sys, step).Some? && h in sys.handlers && h != step.h
    requires sys.handlers[h].key !in Next(sys, step).value.failed && SafeAt(sys, sys.handlers[h].key)
    ensures
      var sys', key := Next(sys, step).value, sys.handlers[h].key;
      Safe(TaskAt(sys', key), Sent(sys'.posts, key), h, sys.handlers[h])
  {
    var key := sys.handlers[h].key;
    StepTouches(sys, step);
    StepSends(sys, step, key);
    assert Safe(TaskAt(sys, key), Sent(sys.posts, key), h, sys.handlers[h]);
    if step.h in sys.handlers && sys.handlers[step.h].key == key {
      OtherOfKeySafe(sys, step, h);
    }
  }

  lemma OtherOfKeySafe(sys: System, step: Step, h: nat)
    requires OneRecord(sys) && Next(sys, step).Some? && h in sys.handlers && h != step.h
    requires sys.handlers[h].key !in Next(sys, step).value.failed && SafeAt(sys, sys.handlers[h].key)
    requires step.h in sys.handlers && sys.handlers[step.h].key == sys.handlers[h].key
    ensures
      var sys', key := Next(sys, step).value, sys.handlers[h].key;
      Safe(TaskAt(sys', key), Sent(sys'.posts, key), h, sys.handlers[h])
  {
    var key := sys.handlers[h].key;
    StepSends(sys, step, key);
    assert Linked(TaskAt(sys, key), h, sys.handlers[h]);
    assert Linked(TaskAt(sys, key), step.h, sys.handlers[step.h]);
    assert Safe(TaskAt(sys, key), Sent(sys.posts, key), h, sys.handlers[h]);
    assert Safe(TaskAt(sys, key), Sent(sys.posts, key), step.h, sys.handlers[step.h]);
  }

  lemma SafeStep(sys: System, step: Step, key: string)
    requires OneRecord(sys) && Next(sys, step).Some? && key !in Next(sys, step).value.failed && SafeAt(sys, key)
    ensures SafeAt(Next(sys, step).value, key)
  {
    var sys' := Next(sys, step).value;
    StepTouches(sys, step);
    StepSends(sys, step, key);
    if sys'.handlers[step.h].key == key {
      if step.Post? {
        PosterSafe(sys, step);
      } else if step.Arrive? {
        ArriverSafe(sys, step);
      } else if Creating(sys.handlers[step.h].pc) {
        CreatorSafe(sys, step);
      } else {
        MoverSafe(sys, step);
      }
    }
    forall h | h in sys'.handlers && sys'.handlers[h].key == key
      ensures Safe(TaskAt(sys', key), Sent(sys'.posts, key), h, sys'.handlers[h])
    {
      if h != step.h { OtherSafe(sys, step, h); }
    }
  }

  lemma FailedStays(sys: System, step: Step)
    requires Next(sys, step).Some?
    ensures sys.failed <= Next(sys, step).value.failed
  {
  }

  lemma {:induction false} AlwaysSafe(steps: seq<Step>, key: string)
    requires Exec(steps).Some? && key !in Exec(steps).value.failed
    ensures SafeAt(Exec(steps).value, key)
  {
    if steps != [] {
      var n := |steps| - 1;
      AlwaysOneRecord(steps[..n]);
      FailedStays(Exec(steps[..n]).value, steps[n]);
      AlwaysSafe(steps[..n], key);
      SafeStep(Exec(steps[..n]).value, steps[n], key);
    }
  }

  /** The engine is called at most once for a key that has never failed. */
  lemma EngineCalledOnce(steps: seq<Step>, key: string)
    requires Exec(steps).Some? && key !in Exec(steps).value.failed
    ensures Sent(Exec(steps).value.posts, key) <= 1
  {
    AlwaysSafe(steps, key);
  }

  /** Persist before act: each call finds the caller's own record, still pending, and no earlier call. */
  lemma CalledAfterPending(steps: seq<Step>, h: nat)
    requires Exec(steps).Some? && Next(Exec(steps).value, Post(h)).Some?
    requires Exec(steps).value.handlers[h].key !in Exec(steps).value.failed
    ensures
      var sys := Exec(steps).value;
      var key := sys.handlers[h].key;
      TaskAt(sys, key) == Some(Task(h, Tasks.Pending, None)) && Sent(sys.posts, key) == 0
  {
    AlwaysSafe(steps, Exec(steps).value.handlers[h].key);
  }

  /** A completed or denied record never changes again while its key has not failed. */
  lemma TerminalIsFinal(steps: seq<Step>, step: Step, key: string)
    requires Exec(steps).Some? && Next(Exec(steps).value, step).Some?
    requires key !in Next(Exec(steps).value, step).value.failed
    requires key in Exec(steps).value.tasks && Terminal(Exec(steps).value.tasks[key])
    ensures TaskAt(Next(Exec(steps).value, step).value, key) == TaskAt(Exec(steps).value, key)
  {
    var sys := Exec(steps).value;
    AlwaysOneRecord(steps);
    FailedStays(sys, step);
    AlwaysSafe(steps, key);
    StepTouches(sys, step);
    if step.h in sys.handlers && sys.handlers[step.h].key == key {
      assert Linked(TaskAt(sys, key), step.h, sys.handlers[step.h]);
      assert Safe(TaskAt(sys, key), Sent(sys.posts, key), step.h, sys.handlers[step.h]);
    }
  }

  /** Every replayed response, and every one its owner could persist, is the stored one. */
  lemma RepliesAreStored(steps: seq<Step>, h: nat)
    requires Exec(steps).Some? && h in Exec(steps).value.handlers
    requires Exec(steps).value.handlers[h].key !in Exec(steps).value.failed
    requires
      var pc := Exec(steps).value.handlers[h].pc;
      pc.Done? && (pc.kind.Replay? || pc.kind.Final?)
    ensures Stored(TaskAt(Exec(steps).value, Exec(steps).value.handlers[h].key),
            Exec(steps).value.handlers[h].pc.response)
  {
    AlwaysSafe(steps, Exec(steps).value.handlers[h].key);
  }

  /** Until its key fails a record is rewritten only by its creator, and only from pending. */
  lemma OnlyCreatorWrites(steps: seq<Step>, step: Step, key: string)
    requires Exec(steps).Some? && Next(Exec(steps).value, step).Some?
    requires key !in Next(Exec(steps).value, step).value.failed && key in Exec(steps).value.tasks
    requires TaskAt(Next(Exec(steps).value, step).value, key) != TaskAt(Exec(steps).value, key)
    ensures Untouched(TaskAt(Exec(steps).value, key), step.h) && (step.Persist? || step.StoreFails?)
  {
    var sys := Exec(steps).value;
    AlwaysOneRecord(steps);
    FailedStays(sys, step);
    AlwaysSafe(steps, key);
    StepTouches(sys, step);
    assert Linked(TaskAt(sys, key), step.h, sys.handlers[step.h]);
    assert Safe(TaskAt(sys, key), Sent(sys.posts, key), step.h, sys.handlers[step.h]);
  }

  // ---- Where a 200 comes from --------------------------------------------------------------------

  /** Which successes of which keys are accounted for. */
  type Account = (string, Response) -> bool

  predicate SuccessBacked(ok: Account, key: string, response: Response) {
    response.status == 200 ==> ok(key, response)
  }

  predicate TaskBacked(ok: Account, key: string, task: Task) {
    task.response.Some? ==> SuccessBacked(ok, key, task.response.value)
  }

  predicate HandlerBacked(ok: Account, hd: Handler) {
    match hd.pc
    case Routing(found, _) => TaskBacked(ok, hd.key, found)
    case Replied(reply) => SuccessBacked(ok, hd.key, ResponseFor(reply))
    case Done(response, _) => SuccessBacked(ok, hd.key, response)
    case _ => true
  }

  /** Every 200 stored, about to be stored or answered is accounted for. */
  ghost predicate AllBacked(sys: System, ok: Account) {
    && (forall key :: key in sys.tasks ==> TaskBacked(ok, key, sys.tasks[key]))
    && (forall h :: h in sys.handlers ==> HandlerBacked(ok, sys.handlers[h]))
  }

  lemma BackedMover(sys: System, step: Step, ok: Account)
    requires AllBacked(sys, ok) && Next(sys, step).Some?
    requires step.Deliver? ==> SuccessBacked(ok, sys.handlers[step.h].key, ResponseFor(step.reply))
    ensures HandlerBacked(ok, Next(sys, step).value.handlers[step.h])
  {
    if step.h in sys.handlers { assert HandlerBacked(ok, sys.handlers[step.h]); }
  }

  lemma BackedTasks(sys: System, step: Step, ok: Account)
    requires AllBacked(sys, ok) && Next(sys, step).Some?
    ensures forall key :: key in Next(sys, step).value.tasks ==> TaskBacked(ok, key, Next(sys, step).value.tasks[key])
  {
    if step.h in sys.handlers { assert HandlerBacked(ok, sys.handlers[step.h]); }
  }

  /** Only a delivered allow brings a new 200 into the system. */
  lemma BackedStep(sys: System, step: Step, ok: Account)
    requires AllBacked(sys, ok) && Next(sys, step).Some?
    requires step.Deliver? ==> SuccessBacked(ok, sys.handlers[step.h].key, ResponseFor(step.reply))
    ensures AllBacked(Next(sys, step).value, ok)
  {
    StepTouches(sys, step);
    BackedMover(sys, step, ok);
    BackedTasks(sys, step, ok);
  }

  lemma BackedMore(sys: System, ok: Account, more: Account)
    requires AllBacked(sys, ok) && forall key, response :: ok(key, response) ==> more(key, response)
    ensures AllBacked(sys, more)
  {
    forall h | h in sys.handlers
      ensures HandlerBacked(more, sys.handlers[h])
    {
      assert HandlerBacked(ok, sys.handlers[h]);
    }
    forall key | key in sys.tasks
      ensures TaskBacked(more, key, sys.tasks[key])
    {
      assert TaskBacked(ok, key, sys.tasks[key]);
    }
  }

  // ---- Retries that do not overlap ------------------------------------------------------------

  predicate Active(pc: Pc) {
    !pc.Done? && !pc.Crashed?
  }

  predicate Working(sys: System, h: nat) {
    h in sys.handlers && Active(sys.handlers[h].pc)
  }

  /** One request per key at a time. */
  ghost predicate NoOverlap(sys: System) {
    forall h, u :: Working(sys, h) && Working(sys, u) && sys.handlers[h].key == sys.handlers[u].key ==> h == u
  }

  ghost predicate NeverOverlaps(steps: seq<Step>) {
    forall n :: 0 <= n <= |steps| && Exec(steps[..n]).Some? ==> NoOverlap(Exec(steps[..n]).value)
  }

  /** What the one active handler of a key knows of its record. */
  predicate Current(task: Option<Task>, hd: Handler) {
    match hd.pc
    case Routing(found, created) => task == Some(found) && (created ==> found.life.Pending?)
    case Reopening => task.Some? && task.value.life.Failed?
    case Calling => task.Some? && task.value.life.Pending?
    case Waiting => task.Some? && task.value.life.Pending?
    case Replied(_) => task.Some? && task.value.life.Pending?
    case _ => true
  }

  ghost predicate AllCurrent(sys: System) {
    forall h :: h in sys.handlers ==> Current(TaskAt(sys, sys.handlers[h].key), sys.handlers[h])
  }

  lemma CurrentStep(sys: System, step: Step)
    requires OneRecord(sys) && AllCurrent(sys) && Next(sys, step).Some? && NoOverlap(sys)
    requires NoOverlap(Next(sys, step).value)
    ensures AllCurrent(Next(sys, step).value)
  {
    var sys' := Next(sys, step).value;
    StepTouches(sys, step);
    CurrentMover(sys, step);
    forall h | h in sys'.handlers && h != step.h
      ensures Current(TaskAt(sys', sys'.handlers[h].key), sys'.handlers[h])
    {
      assert Current(TaskAt(sys, sys.handlers[h].key), sys.handlers[h]);
      if step.h in sys.handlers && Active(sys.handlers[h].pc) {
        assert Working(sys, h) && Working(sys, step.h);
      }
    }
  }

  lemma CurrentMover(sys: System, step: Step)
    requires OneRecord(sys) && AllCurrent(sys) && Next(sys, step).Some?
    ensures
      var sys' := Next(sys, step).value;
      step.h in sys'.handlers && Current(TaskAt(sys', sys'.handlers[step.h].key), sys'.handlers[step.h])
  {
    if step.h in sys.handlers {
      assert Linked(TaskAt(sys, sys.handlers[step.h].key), step.h, sys.handlers[step.h]);
      assert Current(TaskAt(sys, sys.handlers[step.h].key), sys.handlers[step.h]);
    }
  }

  lemma {:induction false} AlwaysCurrent(steps: seq<Step>)
    requires Exec(steps).Some? && NeverOverlaps(steps)
    ensures AllCurrent(Exec(steps).value)
  {
    if steps != [] {
      var n := |steps| - 1;
      assert forall k :: 0 <= k <= n ==> steps[..n][..k] == steps[..k];
      assert steps[..n + 1] == steps;
      AlwaysCurrent(steps[..n]);
      AlwaysOneRecord(steps[..n]);
      CurrentStep(Exec(steps[..n]).value, steps[n]);
    }
  }

  /** Whatever fails, requests for a key that come one at a time never change a completed or denied record. */
  lemma TerminalIsFinalInSequence(steps: seq<Step>, step: Step, key: string)
    requires Exec(steps).Some? && NeverOverlaps(steps) && Next(Exec(steps).value, step).Some?
    requires key in Exec(steps).value.tasks && Terminal(Exec(steps).value.tasks[key])
    ensures TaskAt(Next(Exec(steps).value, step).value, key) == TaskAt(Exec(steps).value, key)
  {
    var sys := Exec(steps).value;
    AlwaysCurrent(steps);
    StepTouches(sys, step);
    if step.h in sys.handlers {
      assert Current(TaskAt(sys, sys.handlers[step.h].key), sys.handlers[step.h]);
    }
  }

  // ---- Why retries of a failed key must not overlap --------------------------------------------

  lemma Then(steps: seq<Step>, step: Step) returns (more: seq<Step>)
    requires Exec(steps).Some?
    ensures more == steps + [step] && Exec(more) == Next(Exec(steps).value, step)
  {
    more := steps + [step];
    assert more[..|steps|] == steps;
  }

  /** A first request for a key, up to its engine call. */
  lemma FirstRequest(steps: seq<Step>, h: nat, key: string) returns (more: seq<Step>)
    requires Exec(steps).Some? && h !in Exec(steps).value.handlers && key !in Exec(steps).value.tasks && key != ""
    ensures steps <= more
    ensures
      var sys := Exec(steps).value;
      Exec(more) == Some(sys.(
        tasks := sys.tasks[key := Task(h, Tasks.Pending, None)],
        handlers := sys.handlers[h := Handler(key, h, Calling)]))
  {
    more := Then(steps, Arrive(h, key));
    more := Then(more, Create(h));
    more := Then(more, Route(h));
    assert Exec(more).value.handlers == Exec(steps).value.handlers[h := Handler(key, h, Calling)];
  }

  /** A first request whose engine call fails at a gateway. */
  lemma FirstFails(key: string) returns (steps: seq<Step>)
    requires key != ""
    ensures Exec(steps).Some? && Exec(steps).value.handlers.Keys == {0} && Exec(steps).value.posts == [key]
    ensures key in Exec(steps).value.tasks && Exec(steps).value.tasks[key].id == 0 &&
            Exec(steps).value.tasks[key].life.Failed?
  {
    steps := FirstRequest([], 0, key);
    steps := Then(steps, Post(0));
    assert Exec(steps).value.posts == [] + [key];
    steps := Then(steps, Deliver(0, Reply(503, NoDecision(None), "")));
    steps := Then(steps, Persist(0));
  }

  lemma SentSnoc(posts: seq<string>, key: string)
    ensures Sent(posts + [key], key) == Sent(posts, key) + 1
  {
    assert (posts + [key])[..|posts|] == posts;
  }

  function Retry(sys: System, h: nat, key: string): System
    requires key in sys.tasks
  {
    sys.(handlers := sys.handlers[h := Handler(key, sys.tasks[key].id, Reopening)])
  }

  /** A retry that has seen the failed record and is about to re-open it. */
  lemma RetryArrives(steps: seq<Step>, h: nat, key: string) returns (more: seq<Step>)
    requires Exec(steps).Some? && h !in Exec(steps).value.handlers && key != ""
    requires key in Exec(steps).value.tasks && Exec(steps).value.tasks[key].life.Failed?
    ensures steps <= more && Exec(more) == Some(Retry(Exec(steps).value, h, key))
  {
    more := Then(steps, Arrive(h, key));
    more := Then(more, Create(h));
    more := Then(more, Route(h));
    assert Exec(more).value.handlers == Retry(Exec(steps).value, h, key).handlers;
  }

  /** The re-open, an allowing engine, and the persisted answer. */
  lemma RetryCompletes(steps: seq<Step>, h: nat, key: string, audit: string) returns (more: seq<Step>)
    requires Exec(steps).Some? && h in Exec(steps).value.handlers && key in Exec(steps).value.tasks
    requires Exec(steps).value.handlers[h] == Handler(key, Exec(steps).value.tasks[key].id, Reopening)
    ensures Exec(more).Some?
    ensures
      var sys, response := Exec(steps).value, Tasks.Response(200, audit);
      Exec(more).value == sys.(
        tasks := sys.tasks[key := Task(sys.tasks[key].id, Tasks.Completed, Some(response))],
        handlers := sys.handlers[h := Handler(key, sys.tasks[key].id, Done(response, Final))],
        posts := sys.posts + [key])
  {
    var sys := Exec(steps).value;
    more := Then(steps, Reopen(h));
    more := Then(more, Post(h));
    more := Then(more, Deliver(h, Reply(200, Allow, audit)));
    more := Then(more, Persist(h));
    var last := Exec(more).value;
    assert last.tasks == sys.tasks[key := last.tasks[key]] && last.handlers == sys.handlers[h := last.handlers[h]];
    assert last.failed == sys.failed;
  }

  /**
   Two retries both read the failed record; each re-opens it and calls the engine, and the second
   overwrites what the first completed and answered.
   */
  lemma OverlappingRetriesOverwrite(key: string, first: string, second: string) returns (steps: seq<Step>)
    requires key != "" && first != second
    ensures Exec(steps).Some? && Sent(Exec(steps).value.posts, key) == 3
    ensures 1 in Exec(steps).value.handlers && Exec(steps).value.handlers[1].pc ==
            Done(Tasks.Response(200, first), Final)
    ensures TaskAt(Exec(steps).value, key) == Some(Task(0, Tasks.Completed, Some(Tasks.Response(200, second))))
  {
    steps := FirstFails(key);
    steps := RetryArrives(steps, 1, key);
    steps := RetryArrives(steps, 2, key);
    steps := RetryCompletes(steps, 1, key, first);
    steps := RetryCompletes(steps, 2, key, second);
    SentSnoc([key], key);
    SentSnoc([key, key], key);
    assert [key] + [key] == [key, key] && [key, key] + [key] == Exec(steps).value.posts;
  }
}