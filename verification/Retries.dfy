/**
 When a key can reach the engine again: what a lost engine call, or an answer that could not be stored,
 leaves behind for the requests that follow.
 */
module Retries {
  import opened Common
  import opened Receiver
  import Tasks = TaskStore

  /** A handler that is going to call the engine, or may yet store a failure. */
  predicate Hot(pc: Pc) {
    match pc
    case Routing(found, created) => created || found.life.Failed?
    case Reopening => true
    case Calling => true
    case Waiting => true
    case Replied(reply) => LifeFor(reply).Failed?
    case _ => false
  }

  predicate HotFor(sys: System, h: nat, key: string) {
    h in sys.handlers && sys.handlers[h].key == key && Hot(sys.handlers[h].pc)
  }

  /** No record, a failed one, or somebody still at work on it. */
  ghost predicate Postable(sys: System, key: string) {
    key !in sys.tasks || sys.tasks[key].life.Failed? || exists h :: HotFor(sys, h, key)
  }

  /** Some continuation calls the engine for the key. */
  ghost predicate CanPost(steps: seq<Step>, key: string)
    requires Exec(steps).Some?
  {
    exists more :: PostsIn(steps, more, key)
  }

  predicate PostsIn(steps: seq<Step>, more: seq<Step>, key: string)
    requires Exec(steps).Some?
  {
    Exec(more).Some? && steps <= more && Sent(Exec(more).value.posts, key) > Sent(Exec(steps).value.posts, key)
  }

  // ---- Without any of these, never again ----------------------------------------------------------

  lemma StuckMover(sys: System, step: Step, key: string)
    requires Next(sys, step).Some? && !Postable(sys, key)
    ensures !HotFor(Next(sys, step).value, step.h, key)
    ensures key in Next(sys, step).value.tasks && !Next(sys, step).value.tasks[key].life.Failed?
  {
    assert !HotFor(sys, step.h, key);
  }

  lemma StuckStep(sys: System, step: Step, key: string)
    requires Next(sys, step).Some? && !Postable(sys, key)
    ensures !Postable(Next(sys, step).value, key)
    ensures Sent(Next(sys, step).value.posts, key) == Sent(sys.posts, key)
  {
    StuckMover(sys, step, key);
    StepSends(sys, step, key);
    assert !HotFor(sys, step.h, key);
    forall h
      ensures !HotFor(Next(sys, step).value, h, key)
    {
      StepTouches(sys, step);
      assert !HotFor(sys, h, key);
    }
  }

  lemma {:induction false} StuckForever(steps: seq<Step>, more: seq<Step>, key: string)
    requires Exec(steps).Some? && Exec(more).Some? && steps <= more && !Postable(Exec(steps).value, key)
    ensures !Postable(Exec(more).value, key)
    ensures Sent(Exec(more).value.posts, key) == Sent(Exec(steps).value.posts, key)
    decreases |more|
  {
    if |steps| < |more| {
      var before := more[..|more| - 1];
      StuckForever(steps, before, key);
      StuckStep(Exec(before).value, more[|more| - 1], key);
    } else {
      assert more == steps;
    }
  }

  // ---- With one, a way there ------------------------------------------------------------------------

  ghost function Above(s: set<nat>): (n: nat)
    ensures forall x :: x in s ==> x < n
  {
    if s == {} then 0
    else
      var x :| x in s;
      var n := Above(s - {x});
      assert forall y :: y in s ==> y == x || y in s - {x};
      if x < n then n else x + 1
  }

  lemma CallingPosts(steps: seq<Step>, h: nat, key: string) returns (more: seq<Step>)
    requires Exec(steps).Some? && HotFor(Exec(steps).value, h, key) && Exec(steps).value.handlers[h].pc.Calling?
    ensures PostsIn(steps, more, key)
  {
    var sys := Exec(steps).value;
    more := Then(steps, Post(h));
    SentSnoc(sys.posts, key);
  }

  /** In every reachable state the record of a handler that has one is there to be updated. */
  lemma HoldsRecord(steps: seq<Step>, h: nat)
    requires Exec(steps).Some? && h in Exec(steps).value.handlers && Answered(Exec(steps).value.handlers[h].pc)
    ensures Held(Exec(steps).value, h)
  {
    AlwaysOneRecord(steps);
    assert Linked(TaskAt(Exec(steps).value, Exec(steps).value.handlers[h].key), h, Exec(steps).value.handlers[h]);
  }

  lemma ReopeningPosts(steps: seq<Step>, h: nat, key: string) returns (more: seq<Step>)
    requires Exec(steps).Some? && HotFor(Exec(steps).value, h, key) && Exec(steps).value.handlers[h].pc.Reopening?
    ensures PostsIn(steps, more, key)
  {
    HoldsRecord(steps, h);
    var reopened := Then(steps, Reopen(h));
    more := CallingPosts(reopened, h, key);
  }

  lemma RoutingPosts(steps: seq<Step>, h: nat, key: string) returns (more: seq<Step>)
    requires Exec(steps).Some? && HotFor(Exec(steps).value, h, key) && Exec(steps).value.handlers[h].pc.Routing?
    ensures PostsIn(steps, more, key)
  {
    var routed := Then(steps, Route(h));
    if Exec(routed).value.handlers[h].pc.Calling? {
      more := CallingPosts(routed, h, key);
    } else {
      more := ReopeningPosts(routed, h, key);
    }
  }

  /** A new request finds no record. */
  lemma FirstPosts(steps: seq<Step>, key: string) returns (more: seq<Step>)
    requires Exec(steps).Some? && key != "" && key !in Exec(steps).value.tasks
    ensures PostsIn(steps, more, key)
  {
    var sys := Exec(steps).value;
    var h := Above(sys.handlers.Keys);
    var first := FirstRequest(steps, h, key);
    more := CallingPosts(first, h, key);
  }

  /** A new request finds the failed record and opens it again. */
  lemma FailedPosts(steps: seq<Step>, key: string) returns (more: seq<Step>)
    requires Exec(steps).Some? && key != "" && key in Exec(steps).value.tasks &&
             Exec(steps).value.tasks[key].life.Failed?
    ensures PostsIn(steps, more, key)
  {
    var h := Above(Exec(steps).value.handlers.Keys);
    var again := RetryArrives(steps, h, key);
    more := ReopeningPosts(again, h, key);
  }

  lemma RepliedPosts(steps: seq<Step>, h: nat, key: string) returns (more: seq<Step>)
    requires Exec(steps).Some? && key != "" && HotFor(Exec(steps).value, h, key) &&
             Exec(steps).value.handlers[h].pc.Replied?
    ensures PostsIn(steps, more, key)
  {
    HoldsRecord(steps, h);
    var failed := Then(steps, Persist(h));
    more := FailedPosts(failed, key);
  }

  lemma WaitingPosts(steps: seq<Step>, h: nat, key: string) returns (more: seq<Step>)
    requires Exec(steps).Some? && key != "" && HotFor(Exec(steps).value, h, key) &&
             Exec(steps).value.handlers[h].pc.Waiting?
    ensures PostsIn(steps, more, key)
  {
    var replied := Then(steps, Deliver(h, Reply(503, NoDecision(None), "")));
    more := RepliedPosts(replied, h, key);
  }

  lemma HotPosts(steps: seq<Step>, h: nat, key: string) returns (more: seq<Step>)
    requires Exec(steps).Some? && key != "" && HotFor(Exec(steps).value, h, key)
    ensures PostsIn(steps, more, key)
  {
    match Exec(steps).value.handlers[h].pc
    case Routing(_, _) => more := RoutingPosts(steps, h, key);
    case Reopening => more := ReopeningPosts(steps, h, key);
    case Calling => more := CallingPosts(steps, h, key);
    case Waiting => more := WaitingPosts(steps, h, key);
    case Replied(_) => more := RepliedPosts(steps, h, key);
  }

  /** A key can reach the engine again exactly when it is new, failed, or still being worked on. */
  lemma PostableExactly(steps: seq<Step>, key: string)
    requires Exec(steps).Some? && key != ""
    ensures CanPost(steps, key) <==> Postable(Exec(steps).value, key)
  {
    var sys := Exec(steps).value;
    if Postable(sys, key) {
      var more;
      if key !in sys.tasks {
        more := FirstPosts(steps, key);
      } else if sys.tasks[key].life.Failed? {
        more := FailedPosts(steps, key);
      } else {
        var h :| HotFor(sys, h, key);
        more := HotPosts(steps, h, key);
      }
      assert PostsIn(steps, more, key);
    } else {
      forall more | Exec(more).Some? && steps <= more
        ensures !PostsIn(steps, more, key)
      {
        StuckForever(steps, more, key);
      }
    }
  }

  // ---- The record nobody will finish -----------------------------------------------------------------

  /** Still on the way to a 202, or finished with one or with a store error. */
  predicate TurnedAway(hd: Handler) {
    match hd.pc
    case Arrived => true
    case Inserting => true
    case Reselecting => true
    case Routing(found, created) => !created && found.life.Pending?
    case Done(response, _) => response.status == 202 || response == STORE_ERROR
    case _ => false
  }

  /** The record is pending, the handlers in `gone` are over, and all others of the key are turned away. */
  ghost predicate Abandoned(sys: System, key: string, gone: set<nat>) {
    && key in sys.tasks && sys.tasks[key].life.Pending?
    && forall h :: h in sys.handlers && sys.handlers[h].key == key ==>
         if h in gone then !Active(sys.handlers[h].pc) else TurnedAway(sys.handlers[h])
  }

  lemma AbandonedStep(sys: System, step: Step, key: string, gone: set<nat>)
    requires Next(sys, step).Some? && Abandoned(sys, key, gone) && gone <= sys.handlers.Keys
    ensures Abandoned(Next(sys, step).value, key, gone) && TaskAt(Next(sys, step).value, key) == TaskAt(sys, key)
    ensures gone <= Next(sys, step).value.handlers.Keys
  {
    StepTouches(sys, step);
  }

  /** A lost call leaves such a record when its handler was the only one at work. */
  lemma LossAbandons(sys: System, h: nat, key: string)
    requires h in sys.handlers && sys.handlers[h].key == key && sys.handlers[h].pc.Waiting?
    requires key in sys.tasks && sys.tasks[key].life.Pending?
    requires forall u :: Working(sys, u) && sys.handlers[u].key == key ==> u == h
    ensures Abandoned(Next(sys, Lose(h)).value, key, sys.handlers.Keys)
  {
    forall u | u in sys.handlers && sys.handlers[u].key == key && u != h
      ensures !Active(sys.handlers[u].pc)
    {
      assert !Working(sys, u);
    }
  }

  /** From then on the record stays pending and every new request is answered 202, if the store answers at all. */
  lemma {:induction false} AbandonedForever(steps: seq<Step>, more: seq<Step>, key: string, gone: set<nat>)
    requires Exec(steps).Some? && Exec(more).Some? && steps <= more
    requires Abandoned(Exec(steps).value, key, gone) && gone <= Exec(steps).value.handlers.Keys
    ensures Abandoned(Exec(more).value, key, gone) && gone <= Exec(more).value.handlers.Keys
    ensures TaskAt(Exec(more).value, key) == TaskAt(Exec(steps).value, key)
    decreases |more|
  {
    if |steps| < |more| {
      var before := more[..|more| - 1];
      AbandonedForever(steps, before, key, gone);
      AbandonedStep(Exec(before).value, more[|more| - 1], key, gone);
    } else {
      assert more == steps;
    }
  }
}
