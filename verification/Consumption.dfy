/**
 The receiver and the engine's database together: an engine call opens a reservation transaction whose
 statements interleave with everything else, and a reply may come after it has finished, be replaced by
 a gateway while it still runs, or never come.
 */
module Consumption {
  import opened Common
  import opened Reservations
  import opened ReservationRuns
  import Q = SqlReservations
  import S = SqlStore
  import R = Receiver

  /** What the engine does with a request that has reached it. */
  datatype Work =
    | Refuses(reply: R.Reply)
    | Reserves(candidates: seq<Candidate>)

  /** How far the engine is with a handler's request; `n` and `place` are positions in the log of transactions. */
  datatype Eval =
    | Reserving
    | Decided(n: nat)
    | Broken
    | Answered(reply: R.Reply, place: Option<nat>)

  /** What reaches the handler: the engine's answer, a gateway's own, or an exception. */
  datatype Delivery = Arrives | Gateway(status: int) | Throws

  /**
   `sent` holds the handlers whose request is on its way to the engine; evaluations and transactions
   carry the number of the handler that asked for them.
   */
  datatype World = World(sys: R.System, db: Q.Db, sent: set<nat>, evals: map<nat, Eval>)

  /** `heard` is false when the database's acknowledgement of a commit is lost. */
  datatype Step =
    | Handle(step: R.Step)
    | Post(h: nat)
    | Vanish(h: nat)
    | Reach(h: nat, work: Work)
    | Statement(h: nat, heard: bool)
    | Drop(h: nat)
    | Answer(h: nat, audited: bool, audit: string)
    | Deliver(h: nat, delivery: Delivery)

  const EMPTY := World(R.EMPTY, Q.EMPTY, {}, map[])

  const ENGINE_ERROR := R.Reply(500, R.NoDecision(None), "")

  /** Steps a handler takes without the engine. */
  predicate Local(step: R.Step) {
    !step.Post? && !step.Deliver? && !step.Lose?
  }

  /** The engine takes the request up; no stage before the reservation allows anything. */
  function Reached(w: World, h: nat, work: Work): Option<World> {
    var gone := w.sent - {h};
    match work
    case Refuses(reply) =>
      if reply.decision.Allow? then None else Some(w.(sent := gone, evals := w.evals[h := Answered(reply, None)]))
    case Reserves(candidates) =>
      match Q.Next(w.db, Q.Begin(h, Call(candidates, KeyOf(w.sys, h))))
      case None => None
      case Some(db) => Some(w.(db := db, sent := gone, evals := w.evals[h := Reserving]))
  }

  function KeyOf(sys: R.System, h: nat): string {
    if h in sys.handlers then sys.handlers[h].key else ""
  }

  /** An open transaction goes on; a finished one has a verdict, unless it was lost on the way. */
  function EvalAfter(before: Q.Db, after: Q.Db, h: nat, heard: bool): Eval {
    if h in after.active then Reserving
    else if |after.log| > |before.log| && heard then Decided(|before.log|)
    else Broken
  }

  function Stated(w: World, h: nat, heard: bool): Option<World> {
    match Q.Next(w.db, Q.Advance(h))
    case None => None
    case Some(db) => Some(w.(db := db, evals := w.evals[h := EvalAfter(w.db, db, h, heard)]))
  }

  /** The answer once the audit row is written; without it, or without a verdict, an error. */
  function Verdict(w: World, h: nat, audited: bool, audit: string): Option<Eval>
    requires h in w.evals
  {
    match w.evals[h]
    case Decided(n) =>
      if n >= |w.db.log| then None
      else if !audited then Some(Answered(ENGINE_ERROR, Some(n)))
      else if w.db.log[n].pass then Some(Answered(R.Reply(200, R.Allow, audit), Some(n)))
      else Some(Answered(R.Reply(200, R.Deny(Some(403)), audit), Some(n)))
    case Broken => Some(Answered(ENGINE_ERROR, None))
    case _ => None
  }

  /** The receiver's step for a delivery, if that delivery is possible. */
  function Received(w: World, h: nat, delivery: Delivery): Option<R.Step> {
    match delivery
    case Arrives => if h in w.evals && w.evals[h].Answered? then Some(R.Step.Deliver(h, w.evals[h].reply)) else None
    case Gateway(status) => Some(R.Step.Deliver(h, R.Reply(status, R.NoDecision(None), "")))
    case Throws => Some(R.Step.Lose(h))
  }

  function WithSystem(w: World, sys: Option<R.System>): Option<World> {
    match sys case None => None case Some(s) => Some(w.(sys := s))
  }

  function Next(w: World, step: Step): Option<World> {
    match step
    case Handle(s) => if Local(s) then WithSystem(w, R.Next(w.sys, s)) else None
    case Post(h) => WithSystem(w.(sent := w.sent + {h}), R.Next(w.sys, R.Step.Post(h)))
    case Vanish(h) => if h in w.sent then Some(w.(sent := w.sent - {h})) else None
    case Reach(h, work) => if h in w.sent then Reached(w, h, work) else None
    case Statement(h, heard) => if h in w.evals && w.evals[h].Reserving? then Stated(w, h, heard) else None
    case Drop(h) =>
      if h in w.evals && w.evals[h].Reserving? && h in w.db.active
      then Some(w.(db := Q.RolledBack(w.db, h), evals := w.evals[h := Broken])) else None
    case Answer(h, audited, audit) =>
      if h !in w.evals then None
      else
        (match Verdict(w, h, audited, audit)
         case None => None
         case Some(e) => Some(w.(evals := w.evals[h := e])))
    case Deliver(h, delivery) =>
      match Received(w, h, delivery)
      case None => None
      case Some(s) => WithSystem(w, R.Next(w.sys, s))
  }

  function Exec(steps: seq<Step>): Option<World> {
    if steps == [] then Some(EMPTY)
    else
      match Exec(steps[..|steps| - 1])
      case None => None
      case Some(w) => Next(w, steps[|steps| - 1])
  }

  // ---- The receiver's run and the database's run inside a run ------------------------------------

  /** The receiver's part of a step, if it has one. */
  function ReceiverStep(w: World, step: Step): seq<R.Step> {
    match step
    case Handle(s) => [s]
    case Post(h) => [R.Step.Post(h)]
    case Deliver(h, delivery) => (match Received(w, h, delivery) case None => [] case Some(s) => [s])
    case _ => []
  }

  /** The database's part of a step, if it has one. */
  function DatabaseStep(w: World, step: Step): seq<Q.Step> {
    match step
    case Reach(h, Reserves(candidates)) => [Q.Begin(h, Call(candidates, KeyOf(w.sys, h)))]
    case Statement(h, _) => [Q.Advance(h)]
    case Drop(h) => [Q.Abort(h)]
    case _ => []
  }

  function ReceiverSteps(steps: seq<Step>): seq<R.Step> {
    if steps == [] || Exec(steps[..|steps| - 1]).None? then []
    else ReceiverSteps(steps[..|steps| - 1]) + ReceiverStep(Exec(steps[..|steps| - 1]).value, steps[|steps| - 1])
  }

  function DatabaseSteps(steps: seq<Step>): seq<Q.Step> {
    if steps == [] || Exec(steps[..|steps| - 1]).None? then []
    else DatabaseSteps(steps[..|steps| - 1]) + DatabaseStep(Exec(steps[..|steps| - 1]).value, steps[|steps| - 1])
  }

  /** The receiver and the database each take at most one step of their own. */
  lemma StepProjects(w: World, step: Step)
    requires Next(w, step).Some?
    ensures
      var w', rs, qs := Next(w, step).value, ReceiverStep(w, step), DatabaseStep(w, step);
      && (if rs == [] then w'.sys == w.sys else |rs| == 1 && R.Next(w.sys, rs[0]) == Some(w'.sys))
      && (if qs == [] then w'.db == w.db else |qs| == 1 && Q.Next(w.db, qs[0]) == Some(w'.db))
  {
  }

  lemma ReceiverSnoc(rs: seq<R.Step>, more: seq<R.Step>, sys: R.System, sys': R.System)
    requires R.Exec(rs) == Some(sys)
    requires if more == [] then sys' == sys else |more| == 1 && R.Next(sys, more[0]) == Some(sys')
    ensures R.Exec(rs + more) == Some(sys')
  {
    if more == [] {
      assert rs + more == rs;
    } else {
      assert (rs + more)[..|rs|] == rs && (rs + more)[|rs|] == more[0];
    }
  }

  lemma DatabaseSnoc(qs: seq<Q.Step>, more: seq<Q.Step>, db: Q.Db, db': Q.Db)
    requires Q.Exec(qs) == Some(db)
    requires if more == [] then db' == db else |more| == 1 && Q.Next(db, more[0]) == Some(db')
    ensures Q.Exec(qs + more) == Some(db')
  {
    if more == [] {
      assert qs + more == qs;
    } else {
      assert (qs + more)[..|qs|] == qs && (qs + more)[|qs|] == more[0];
    }
  }

  /** A run is a run of the receiver and a schedule of the database. */
  lemma {:induction false} Projects(steps: seq<Step>)
    requires Exec(steps).Some?
    ensures R.Exec(ReceiverSteps(steps)) == Some(Exec(steps).value.sys)
    ensures Q.Exec(DatabaseSteps(steps)) == Some(Exec(steps).value.db)
  {
    if steps != [] {
      var before, last := steps[..|steps| - 1], steps[|steps| - 1];
      var w, w' := Exec(before).value, Exec(steps).value;
      Projects(before);
      StepProjects(w, last);
      ReceiverSnoc(ReceiverSteps(before), ReceiverStep(w, last), w.sys, w'.sys);
      DatabaseSnoc(DatabaseSteps(before), DatabaseStep(w, last), w.db, w'.db);
    }
  }

  // ---- What links the three parts -----------------------------------------------------------------

  /** The handler's engine call has been made. */
  predicate Called(w: World, h: nat) {
    h in w.sys.handlers && var pc := w.sys.handlers[h].pc; pc.Waiting? || pc.Replied? || pc.Done? || pc.Crashed?
  }

  predicate GrantedAt(w: World, key: string, n: nat) {
    n < |w.db.log| && w.db.log[n].pass && w.db.log[n].call.idem == key
  }

  predicate EvalLinked(w: World, h: nat)
    requires h in w.evals
  {
    && Called(w, h) && h !in w.sent
    && match w.evals[h]
       case Decided(n) => n < |w.db.log| && w.db.log[n].call.idem == KeyOf(w.sys, h)
       case Answered(reply, place) =>
         reply.decision.Allow? ==> place.Some? && GrantedAt(w, KeyOf(w.sys, h), place.value)
       case _ => true
  }

  predicate TxnLinked(w: World, t: nat)
    requires t in w.db.active
  {
    t in w.evals && w.evals[t].Reserving? && w.db.active[t].call.idem == KeyOf(w.sys, t)
  }

  ghost predicate Linked(w: World) {
    && (forall h :: h in w.sent ==> Called(w, h))
    && (forall h :: h in w.evals ==> EvalLinked(w, h))
    && (forall t :: t in w.db.active ==> TxnLinked(w, t))
  }

  /** A receiver step keeps every handler's key, and every call that has been made. */
  lemma CalledStays(sys: R.System, step: R.Step, h: nat)
    requires R.Next(sys, step).Some? && h in sys.handlers
    ensures
      var sys' := R.Next(sys, step).value;
      && h in sys'.handlers && sys'.handlers[h].key == sys.handlers[h].key
      && var pc, pc' := sys.handlers[h].pc, sys'.handlers[h].pc;
         pc.Waiting? || pc.Replied? || pc.Done? || pc.Crashed? ==>
           pc'.Waiting? || pc'.Replied? || pc'.Done? || pc'.Crashed?
  {
    R.StepTouches(sys, step);
  }

  /** A statement appends at most the outcome of its own call, and ends its transaction when it does. */
  lemma StatementLogs(db: Q.Db, t: nat)
    requires Q.Next(db, Q.Advance(t)).Some?
    ensures
      var db' := Q.Next(db, Q.Advance(t)).value;
      && t in db.active
      && (forall u :: u in db'.active && u != t ==> u in db.active && db'.active[u] == db.active[u])
      && (t in db'.active ==> db'.active[t].call == db.active[t].call && db'.log == db.log)
      && (db'.log != db.log ==>
            |db'.log| == |db.log| + 1 && db'.log[..|db.log|] == db.log && db'.log[|db.log|].call == db.active[t].call)
  {
    var x := db.active[t];
    assert x == db.active[t];
  }

  lemma ReceiverLinks(w: World, step: R.Step, sys': R.System)
    requires Linked(w) && R.Next(w.sys, step) == Some(sys')
    ensures Linked(w.(sys := sys'))
  {
    var w' := w.(sys := sys');
    forall h | h in w.sys.handlers
      ensures KeyOf(w'.sys, h) == KeyOf(w.sys, h) && (Called(w, h) ==> Called(w', h))
    {
      CalledStays(w.sys, step, h);
    }
    forall h | h in w.evals
      ensures EvalLinked(w', h)
    {
      assert EvalLinked(w, h);
    }
    forall t | t in w.db.active
      ensures TxnLinked(w', t)
    {
      assert TxnLinked(w, t) && EvalLinked(w, t);
    }
  }

  lemma PostLinks(w: World, h: nat)
    requires Linked(w) && Next(w, Post(h)).Some?
    ensures Linked(Next(w, Post(h)).value)
  {
    var sys' := R.Next(w.sys, R.Step.Post(h)).value;
    assert h !in w.evals;
    ReceiverLinks(w, R.Step.Post(h), sys');
    var before, w' := w.(sys := sys'), Next(w, Post(h)).value;
    forall u | u in w'.evals
      ensures EvalLinked(w', u)
    {
      assert EvalLinked(before, u);
    }
    forall t | t in w'.db.active
      ensures TxnLinked(w', t)
    {
      assert TxnLinked(before, t);
    }
  }

  /** A step of the engine or the database on handler `h`'s evaluation. */
  ghost predicate Serves(w: World, w': World, h: nat) {
    && w'.sys == w.sys && w'.sent <= w.sent && h in w'.evals && w'.evals == w.evals[h := w'.evals[h]]
    && |w.db.log| <= |w'.db.log| && w'.db.log[..|w.db.log|] == w.db.log
    && forall t :: t in w'.db.active && t != h ==> t in w.db.active && w'.db.active[t] == w.db.active[t]
  }

  lemma ServesLinks(w: World, w': World, h: nat)
    requires Linked(w) && Serves(w, w', h)
    requires EvalLinked(w', h) && (h in w'.db.active ==> TxnLinked(w', h))
    ensures Linked(w')
  {
    forall u | u in w'.evals && u != h
      ensures EvalLinked(w', u)
    {
      assert EvalLinked(w, u);
      assert forall n :: 0 <= n < |w.db.log| ==> w'.db.log[n] == w.db.log[..|w.db.log|][n];
    }
    forall t | t in w'.db.active && t != h
      ensures TxnLinked(w', t)
    {
      assert TxnLinked(w, t);
    }
  }

  lemma StatementLinks(w: World, h: nat, heard: bool)
    requires Linked(w) && Next(w, Statement(h, heard)).Some?
    ensures Linked(Next(w, Statement(h, heard)).value)
  {
    var w' := Next(w, Statement(h, heard)).value;
    StatementLogs(w.db, h);
    assert EvalLinked(w, h) && TxnLinked(w, h);
    ServesLinks(w, w', h);
  }

  lemma ReachLinks(w: World, h: nat, work: Work)
    requires Linked(w) && Next(w, Reach(h, work)).Some?
    ensures Linked(Next(w, Reach(h, work)).value)
  {
    ServesLinks(w, Next(w, Reach(h, work)).value, h);
  }

  lemma AnswerLinks(w: World, h: nat, audited: bool, audit: string)
    requires Linked(w) && Next(w, Answer(h, audited, audit)).Some?
    ensures Linked(Next(w, Answer(h, audited, audit)).value)
  {
    assert EvalLinked(w, h);
    assert h !in w.db.active;
    ServesLinks(w, Next(w, Answer(h, audited, audit)).value, h);
  }

  lemma LinkedStep(w: World, step: Step)
    requires Linked(w) && Next(w, step).Some?
    ensures Linked(Next(w, step).value)
  {
    match step
    case Handle(s) => ReceiverLinks(w, s, Next(w, step).value.sys);
    case Post(h) => PostLinks(w, h);
    case Vanish(h) => VanishLinks(w, h);
    case Reach(h, work) => ReachLinks(w, h, work);
    case Statement(h, heard) => StatementLinks(w, h, heard);
    case Drop(h) =>
      assert EvalLinked(w, h);
      ServesLinks(w, Next(w, step).value, h);
    case Answer(h, audited, audit) => AnswerLinks(w, h, audited, audit);
    case Deliver(h, delivery) => ReceiverLinks(w, Received(w, h, delivery).value, Next(w, step).value.sys);
  }

  lemma VanishLinks(w: World, h: nat)
    requires Linked(w) && h in w.sent
    ensures Linked(w.(sent := w.sent - {h}))
  {
    forall u | u in w.evals
      ensures EvalLinked(w.(sent := w.sent - {h}), u)
    {
      assert EvalLinked(w, u);
    }
    forall t | t in w.db.active
      ensures TxnLinked(w.(sent := w.sent - {h}), t)
    {
      assert TxnLinked(w, t);
    }
  }

  /** Each transaction and each verdict is of the handler, and under the key, that asked for it. */
  lemma {:induction false} AlwaysLinked(steps: seq<Step>)
    requires Exec(steps).Some?
    ensures Linked(Exec(steps).value)
  {
    if steps != [] {
      AlwaysLinked(steps[..|steps| - 1]);
      LinkedStep(Exec(steps[..|steps| - 1]).value, steps[|steps| - 1]);
    }
  }

  // ---- Exactly once, while no two engine transactions of one key run together --------------------

  ghost predicate EnginesApart(w: World) {
    forall t, u :: t in w.db.active && u in w.db.active && t != u ==> KeyOf(w.sys, t) != KeyOf(w.sys, u)
  }

  /** On the way no two transactions of one key run together, and every call has distinct hashed counter keys. */
  ghost predicate Apart(steps: seq<Step>, kinds: string -> Metric) {
    forall n :: 0 <= n <= |steps| && Exec(steps[..n]).Some? ==>
      EnginesApart(Exec(steps[..n]).value) && Q.GoodActive(Exec(steps[..n]).value.db, kinds)
  }

  lemma ApartBefore(steps: seq<Step>, kinds: string -> Metric)
    requires steps != [] && Exec(steps).Some? && Apart(steps, kinds)
    ensures Apart(steps[..|steps| - 1], kinds)
    ensures EnginesApart(Exec(steps).value) && Q.GoodActive(Exec(steps).value.db, kinds)
  {
    var before := steps[..|steps| - 1];
    assert forall n :: 0 <= n <= |before| ==> before[..n] == steps[..n];
    assert steps[..|steps|] == steps;
  }

  lemma ApartSeparates(w: World)
    requires Linked(w) && EnginesApart(w)
    ensures Q.Separated(w.db)
  {
    forall t, u | t in w.db.active && u in w.db.active && t != u
      ensures w.db.active[t].call.idem != w.db.active[u].call.idem
    {
      assert TxnLinked(w, t) && TxnLinked(w, u);
    }
  }

  lemma AdmissibleSnoc(qs: seq<Q.Step>, more: seq<Q.Step>, kinds: string -> Metric)
    requires Q.Admissible(qs, kinds) && |more| <= 1 && Q.Exec(qs + more).Some?
    requires Q.Separated(Q.Exec(qs + more).value) && Q.GoodActive(Q.Exec(qs + more).value, kinds)
    ensures Q.Admissible(qs + more, kinds)
  {
    forall n | 0 <= n <= |qs + more| && Q.Exec((qs + more)[..n]).Some?
      ensures Q.Separated(Q.Exec((qs + more)[..n]).value) && Q.GoodActive(Q.Exec((qs + more)[..n]).value, kinds)
    {
      if n <= |qs| {
        assert (qs + more)[..n] == qs[..n];
      } else {
        assert (qs + more)[..n] == qs + more;
      }
    }
  }

  /** Then the database's schedule is one that serializes. */
  lemma {:induction false} ApartIsAdmissible(steps: seq<Step>, kinds: string -> Metric)
    requires Exec(steps).Some? && Apart(steps, kinds)
    ensures Q.Admissible(DatabaseSteps(steps), kinds)
  {
    if steps == [] {
      assert Q.Admissible(DatabaseSteps(steps), kinds);
    } else {
      var before := steps[..|steps| - 1];
      ApartBefore(steps, kinds);
      ApartIsAdmissible(before, kinds);
      Projects(steps);
      AlwaysLinked(steps);
      ApartSeparates(Exec(steps).value);
      StepProjects(Exec(before).value, steps[|steps| - 1]);
      AdmissibleSnoc(DatabaseSteps(before), DatabaseStep(Exec(before).value, steps[|steps| - 1]), kinds);
    }
  }

  function Consumed(w: World): seq<Entry> {
    Ledger(Q.Calls(w.db.log))
  }

  /**
   Over any failures, gateways, lost replies and retries one key raises one counter at most once, and
   has if and only if its event row is there; each counter is the sum of what was so consumed.
   */
  lemma CountedAtMostOnce(steps: seq<Step>, kinds: string -> Metric, key: string, counterKey: string)
    requires Exec(steps).Some? && Apart(steps, kinds) && key != "" && |counterKey| == KEY_LENGTH
    ensures
      var w := Exec(steps).value;
      && Counted(Consumed(w), key, counterKey) == (if (key, counterKey) in w.db.events then 1 else 0)
      && Q.Used(Q.CommittedRow(w.db, counterKey), kinds(counterKey)) == LedgerSum(Consumed(w), counterKey)
  {
    Projects(steps);
    ApartIsAdmissible(steps, kinds);
    Q.SchedulesCountOnce(DatabaseSteps(steps), kinds, key, counterKey);
  }

  // ---- What a 200 stands for ------------------------------------------------------------------------

  /** Handler `h`'s evaluation ended in the n-th transaction, which committed under the key, and in this response. */
  predicate Stands(w: World, key: string, response: R.Response, h: nat, n: nat) {
    && h in w.evals && w.evals[h].Answered? && w.evals[h].place == Some(n)
    && w.evals[h].reply.decision.Allow? && R.ResponseFor(w.evals[h].reply) == response
    && GrantedAt(w, key, n)
  }

  ghost predicate Backed(w: World, key: string, response: R.Response) {
    exists h, n :: Stands(w, key, response, h, n)
  }

  ghost function AccountOf(w: World): R.Account {
    (key, response) => Backed(w, key, response)
  }

  lemma StandsStays(w: World, step: Step, key: string, response: R.Response, h: nat, n: nat)
    requires Linked(w) && Next(w, step).Some? && Stands(w, key, response, h, n)
    ensures Stands(Next(w, step).value, key, response, h, n)
  {
    assert EvalLinked(w, h);
    if step.Statement? {
      StatementLogs(w.db, step.h);
      assert w.db.log[n] == Next(w, step).value.db.log[..|w.db.log|][n];
    }
  }

  lemma BackedStays(w: World, step: Step)
    requires Linked(w) && Next(w, step).Some?
    ensures forall key, response :: AccountOf(w)(key, response) ==> AccountOf(Next(w, step).value)(key, response)
  {
    forall key, response | Backed(w, key, response)
      ensures Backed(Next(w, step).value, key, response)
    {
      var h, n :| Stands(w, key, response, h, n);
      StandsStays(w, step, key, response, h, n);
    }
  }

  /** What reaches a handler as a 200 is its own evaluation's answer. */
  lemma DeliveredBacked(w: World, h: nat, delivery: Delivery)
    requires Linked(w) && Received(w, h, delivery).Some? && Received(w, h, delivery).value.Deliver?
    ensures R.SuccessBacked(AccountOf(w), KeyOf(w.sys, h), R.ResponseFor(Received(w, h, delivery).value.reply))
  {
    var reply := Received(w, h, delivery).value.reply;
    R.OnlyAllowIs200(reply);
    if reply.decision.Allow? {
      assert EvalLinked(w, h);
      assert Stands(w, KeyOf(w.sys, h), R.ResponseFor(reply), h, w.evals[h].place.value);
    }
  }

  lemma BackedStep(w: World, step: Step)
    requires Linked(w) && R.AllBacked(w.sys, AccountOf(w)) && Next(w, step).Some?
    ensures R.AllBacked(Next(w, step).value.sys, AccountOf(Next(w, step).value))
  {
    var w' := Next(w, step).value;
    StepProjects(w, step);
    var rs := ReceiverStep(w, step);
    if rs != [] {
      if step.Deliver? && rs[0].Deliver? { DeliveredBacked(w, step.h, step.delivery); }
      R.BackedStep(w.sys, rs[0], AccountOf(w));
    }
    BackedStays(w, step);
    R.BackedMore(w'.sys, AccountOf(w), AccountOf(w'));
  }

  lemma {:induction false} AlwaysBacked(steps: seq<Step>)
    requires Exec(steps).Some?
    ensures R.AllBacked(Exec(steps).value.sys, AccountOf(Exec(steps).value))
  {
    if steps != [] {
      AlwaysBacked(steps[..|steps| - 1]);
      AlwaysLinked(steps[..|steps| - 1]);
      BackedStep(Exec(steps[..|steps| - 1]).value, steps[|steps| - 1]);
    }
  }

  /** Whatever overlaps, a request answered 200 stands on a reservation committed under its key. */
  lemma AnsweredIsCommitted(steps: seq<Step>, h: nat)
    requires Exec(steps).Some? && h in Exec(steps).value.sys.handlers
    requires
      var pc := Exec(steps).value.sys.handlers[h].pc;
      pc.Done? && pc.response.status == 200
    ensures
      var w := Exec(steps).value;
      Backed(w, w.sys.handlers[h].key, w.sys.handlers[h].pc.response)
  {
    var w := Exec(steps).value;
    AlwaysBacked(steps);
    assert R.HandlerBacked(AccountOf(w), w.sys.handlers[h]);
  }

  lemma {:induction false} AgreesAt(log: seq<Q.Outcome>, n: nat)
    requires n < |log| && Q.LogAgrees(log) && log[n].pass
    ensures AllFit(Run(Q.Calls(log)[..n]), Q.Calls(log)[n])
    decreases |log|
  {
    var before := log[..|log| - 1];
    if n < |before| {
      AgreesAt(before, n);
      assert Q.Calls(before)[..n] == Q.Calls(log)[..n];
    } else {
      assert Q.Calls(before) == Q.Calls(log)[..n];
    }
  }

  lemma GoodCallsWellFormed(calls: seq<Call>, kinds: string -> Metric)
    requires forall call :: call in calls ==> Q.GoodCall(call, kinds)
    ensures WellFormedCalls(calls)
  {
  }

  lemma CommittedIsCounted(steps: seq<Step>, kinds: string -> Metric, key: string, n: nat)
    requires Exec(steps).Some? && Apart(steps, kinds) && GrantedAt(Exec(steps).value, key, n) && key != ""
    ensures
      var w := Exec(steps).value;
      forall c :: c in w.db.log[n].call.candidates ==> Counted(Consumed(w), key, c.key) == 1
  {
    var w := Exec(steps).value;
    Projects(steps);
    ApartIsAdmissible(steps, kinds);
    Q.InterleavingsAreSerial(DatabaseSteps(steps), kinds);
    Q.LoggedCallsGood(DatabaseSteps(steps), kinds);
    GoodCallsWellFormed(Q.Calls(w.db.log), kinds);
    AgreesAt(w.db.log, n);
    forall c | c in w.db.log[n].call.candidates
      ensures Counted(Consumed(w), key, c.key) == 1
    {
      GrantedIsCounted(Q.Calls(w.db.log), n, c);
    }
  }

  /** Then a request answered 200, first or replayed, was counted exactly once in every counter it reserved. */
  lemma AnsweredIsCounted(steps: seq<Step>, kinds: string -> Metric, h: nat) returns (u: nat, n: nat)
    requires Exec(steps).Some? && Apart(steps, kinds) && h in Exec(steps).value.sys.handlers
    requires
      var pc := Exec(steps).value.sys.handlers[h].pc;
      pc.Done? && pc.response.status == 200
    ensures
      var w := Exec(steps).value;
      var key, response := w.sys.handlers[h].key, w.sys.handlers[h].pc.response;
      && Stands(w, key, response, u, n)
      && forall c :: c in w.db.log[n].call.candidates ==> Counted(Consumed(w), key, c.key) == 1
  {
    var w := Exec(steps).value;
    AnsweredIsCommitted(steps, h);
    u, n :| Stands(w, w.sys.handlers[h].key, w.sys.handlers[h].pc.response, u, n);
    Projects(steps);
    R.AlwaysOneRecord(ReceiverSteps(steps));
    assert R.Linked(R.TaskAt(w.sys, w.sys.handlers[h].key), h, w.sys.handlers[h]);
    CommittedIsCounted(steps, kinds, w.sys.handlers[h].key, n);
  }

  // ---- How a verdict reaches the caller ------------------------------------------------------------

  lemma ExecSnoc(steps: seq<Step>, step: Step)
    requires Exec(steps).Some?
    ensures Exec(steps + [step]) == Next(Exec(steps).value, step)
  {
    assert (steps + [step])[..|steps|] == steps;
  }

  /** A finished transaction's verdict is the one logged, unless the database's last word was lost. */
  lemma VerdictHeard(w: World, h: nat, heard: bool)
    requires Next(w, Statement(h, heard)).Some? && h !in Next(w, Statement(h, heard)).value.db.active
    ensures
      var w' := Next(w, Statement(h, heard)).value;
      && h in w'.evals
      && (heard && |w'.db.log| > |w.db.log| ==> w'.evals[h] == Decided(|w.db.log|))
      && (!heard || |w'.db.log| == |w.db.log| ==>
            && w'.evals[h] == Broken
            && Next(w', Answer(h, true, "")).Some?
            && var answered := Next(w', Answer(h, true, "")).value.evals[h];
               answered.Answered? && answered.reply.status == 500 && answered.reply.decision.NoDecision?)
  {
  }

  /** A refusal before the reservation is delivered as the engine gave it, and nothing is reserved. */
  lemma RefusalArrives(w: World, h: nat, reply: R.Reply)
    requires h in w.sent && !reply.decision.Allow? && h in w.sys.handlers && w.sys.handlers[h].pc.Waiting?
    ensures
      var refused := Next(w, Reach(h, Refuses(reply)));
      && refused.Some? && refused.value.db == w.db
      && Next(refused.value, Deliver(h, Arrives)).Some?
      && var sys := Next(refused.value, Deliver(h, Arrives)).value.sys;
         h in sys.handlers && sys.handlers[h].pc == R.Replied(reply)
  {
  }

  /** Handler `h` waits, and its transaction has finished as the n-th. */
  predicate WaitsOn(w: World, h: nat, n: nat) {
    && h in w.sys.handlers && w.sys.handlers[h].pc.Waiting? && R.Held(w.sys, h)
    && h in w.evals && w.evals[h] == Decided(n) && n < |w.db.log|
  }

  lemma AnswerWaits(w: World, h: nat, n: nat, audited: bool, audit: string) returns (w': World, reply: R.Reply)
    requires WaitsOn(w, h, n)
    ensures Next(w, Answer(h, audited, audit)) == Some(w') && w'.sys == w.sys
    ensures h in w'.evals && w'.evals[h] == Answered(reply, Some(n))
    ensures !audited ==> reply.decision.NoDecision? && reply.status == 500
    ensures audited && w.db.log[n].pass ==> reply.decision.Allow? && reply.audit == audit
    ensures audited && !w.db.log[n].pass ==> reply.decision == R.Deny(Some(403))
  {
    w' := Next(w, Answer(h, audited, audit)).value;
    reply := w'.evals[h].reply;
  }

  lemma ReplyArrives(w: World, h: nat, reply: R.Reply, place: Option<nat>) returns (w': World)
    requires h in w.sys.handlers && w.sys.handlers[h].pc.Waiting? && R.Held(w.sys, h)
    requires h in w.evals && w.evals[h] == Answered(reply, place)
    ensures Next(w, Deliver(h, Arrives)) == Some(w')
    ensures h in w'.sys.handlers && w'.sys.handlers[h] == w.sys.handlers[h].(pc := R.Replied(reply))
    ensures R.Held(w'.sys, h)
  {
    w' := Next(w, Deliver(h, Arrives)).value;
  }

  lemma ReplyStored(w: World, h: nat, reply: R.Reply) returns (w': World)
    requires h in w.sys.handlers && w.sys.handlers[h].pc == R.Replied(reply) && R.Held(w.sys, h)
    ensures Next(w, Handle(R.Persist(h))) == Some(w') && h in w'.sys.handlers
    ensures
      var hd := w'.sys.handlers[h];
      && hd.pc == R.Done(R.ResponseFor(reply), R.Final) && hd.key in w'.sys.tasks
      && w'.sys.tasks[hd.key].life == R.LifeFor(reply)
  {
    w' := Next(w, Handle(R.Persist(h))).value;
  }

  /**
   A verdict that is answered, delivered and stored: 200 with the audit id for a grant, 403 for a limit that is
   passed, and an error the caller may retry, 503, when its audit row could not be written.
   */
  lemma VerdictArrives(steps: seq<Step>, h: nat, n: nat, audited: bool, audit: string)
    requires Exec(steps).Some? && WaitsOn(Exec(steps).value, h, n)
    ensures
      var run := Exec(steps + [Answer(h, audited, audit)] + [Deliver(h, Arrives)] + [Handle(R.Persist(h))]);
      && run.Some? && h in run.value.sys.handlers && run.value.sys.handlers[h].pc.Done?
      && var key, response := run.value.sys.handlers[h].key, run.value.sys.handlers[h].pc.response;
         && key in run.value.sys.tasks
         && if !audited then response.status == 503 && run.value.sys.tasks[key].life.Failed?
            else if Exec(steps).value.db.log[n].pass
            then response == R.Tasks.Response(200, audit) && run.value.sys.tasks[key].life.Completed?
            else response.status == 403 && run.value.sys.tasks[key].life.Denied?
  {
    var answered := steps + [Answer(h, audited, audit)];
    var w1, reply := AnswerWaits(Exec(steps).value, h, n, audited, audit);
    ExecSnoc(steps, Answer(h, audited, audit));
    var w2 := ReplyArrives(w1, h, reply, Some(n));
    ExecSnoc(answered, Deliver(h, Arrives));
    var w3 := ReplyStored(w2, h, reply);
    ExecSnoc(answered + [Deliver(h, Arrives)], Handle(R.Persist(h)));
  }

  // ---- When the engine's transactions are apart ----------------------------------------------------

  /** A gateway gives up, or the call throws, only after the engine is done with the request. */
  predicate PatientStep(w: World, step: Step) {
    step.Deliver? && !step.delivery.Arrives? ==> step.h !in w.sent && step.h !in w.db.active
  }

  ghost predicate Patient(steps: seq<Step>) {
    forall n :: 0 <= n < |steps| && Exec(steps[..n]).Some? ==> PatientStep(Exec(steps[..n]).value, steps[n])
  }

  ghost predicate OneAtATime(steps: seq<Step>) {
    forall n: nat :: n <= |steps| ==> CalmAt(steps, n)
  }

  ghost predicate CalmAt(steps: seq<Step>, n: nat)
    requires n <= |steps|
  {
    Exec(steps[..n]).Some? ==> R.NoOverlap(Exec(steps[..n]).value.sys)
  }

  /** The handler is still waiting for everything the engine has of it. */
  ghost predicate Awaited(w: World) {
    forall h :: h in w.sent || h in w.db.active ==> h in w.sys.handlers && w.sys.handlers[h].pc.Waiting?
  }

  lemma OthersWait(sys: R.System, step: R.Step, h: nat)
    requires R.Next(sys, step).Some? && h in sys.handlers && sys.handlers[h].pc.Waiting?
    requires (step.Deliver? || step.Lose?) ==> step.h != h
    ensures h in R.Next(sys, step).value.handlers && R.Next(sys, step).value.handlers[h].pc.Waiting?
  {
    R.StepTouches(sys, step);
  }

  lemma AwaitedStep(w: World, step: Step)
    requires Linked(w) && Awaited(w) && PatientStep(w, step) && Next(w, step).Some?
    ensures Awaited(Next(w, step).value)
  {
    var w' := Next(w, step).value;
    var rs := ReceiverStep(w, step);
    StepProjects(w, step);
    if step.Statement? { StatementLogs(w.db, step.h); }
    if step.Deliver? {
      if step.delivery.Arrives? { assert EvalLinked(w, step.h); }
      assert step.h !in w.sent && step.h !in w.db.active;
    }
    forall h | h in w'.sent || h in w'.db.active
      ensures h in w'.sys.handlers && w'.sys.handlers[h].pc.Waiting?
    {
      if rs != [] && (h in w.sent || h in w.db.active) {
        OthersWait(w.sys, rs[0], h);
      }
    }
  }

  lemma {:induction false} AlwaysAwaited(steps: seq<Step>)
    requires Exec(steps).Some? && Patient(steps)
    ensures Awaited(Exec(steps).value)
  {
    if steps != [] {
      var n := |steps| - 1;
      assert forall k :: 0 <= k <= n ==> steps[..n][..k] == steps[..k];
      AlwaysAwaited(steps[..n]);
      AlwaysLinked(steps[..n]);
      AwaitedStep(Exec(steps[..n]).value, steps[n]);
    }
  }

  /** One request per key at a time, and a patient gateway, keep the engine's transactions apart. */
  lemma PatientIsApart(steps: seq<Step>, kinds: string -> Metric)
    requires OneAtATime(steps) && Patient(steps)
    requires forall n :: 0 <= n <= |steps| && Exec(steps[..n]).Some? ==> Q.GoodActive(Exec(steps[..n]).value.db, kinds)
    ensures Apart(steps, kinds)
  {
    forall n | 0 <= n <= |steps| && Exec(steps[..n]).Some?
      ensures EnginesApart(Exec(steps[..n]).value)
    {
      var w := Exec(steps[..n]).value;
      assert CalmAt(steps, n);
      assert forall k :: 0 <= k <= n ==> steps[..n][..k] == steps[..k];
      AlwaysAwaited(steps[..n]);
      forall t, u | t in w.db.active && u in w.db.active && t != u
        ensures KeyOf(w.sys, t) != KeyOf(w.sys, u)
      {
        assert R.Working(w.sys, t) && R.Working(w.sys, u);
      }
    }
  }

  // ---- Why the gateway must be patient -----------------------------------------------------------

  lemma Then(steps: seq<Step>, step: Step) returns (more: seq<Step>)
    requires Exec(steps).Some? && OneAtATime(steps)
    requires Next(Exec(steps).value, step).Some? && R.NoOverlap(Next(Exec(steps).value, step).value.sys)
    ensures more == steps + [step] && Exec(more) == Next(Exec(steps).value, step) && OneAtATime(more)
  {
    more := steps + [step];
    assert more[..|steps|] == steps;
    forall n: nat | n <= |more|
      ensures CalmAt(more, n)
    {
      if n <= |steps| {
        assert CalmAt(steps, n) && more[..n] == steps[..n];
      } else {
        assert more[..n] == more;
      }
    }
  }

  lemma CalmNow(steps: seq<Step>)
    requires Exec(steps).Some? && OneAtATime(steps)
    ensures R.NoOverlap(Exec(steps).value.sys)
  {
    assert CalmAt(steps, |steps|) && steps[..|steps|] == steps;
  }

  /** A receiver with these tasks and handlers, the history left open. */
  predicate Shows(sys: R.System, tasks: map<string, R.Task>, handlers: map<nat, R.Handler>) {
    sys.tasks == tasks && sys.handlers == handlers
  }

  lemma ThenHandle(steps: seq<Step>, step: Step, tasks: map<string, R.Task>, handlers: map<nat, R.Handler>)
    returns (more: seq<Step>)
    requires Exec(steps).Some? && OneAtATime(steps) && !step.Reach? && !step.Statement?
    requires Next(Exec(steps).value, step).Some? && Shows(Next(Exec(steps).value, step).value.sys, tasks, handlers)
    requires handlers.Keys <= {0, 1} && 0 in handlers && (1 in handlers ==> !R.Active(handlers[0].pc))
    ensures Exec(more) == Next(Exec(steps).value, step) && OneAtATime(more)
  {
    more := Then(steps, step);
  }

  /** A first request for the key, posted. */
  lemma FirstPosts(key: string) returns (steps: seq<Step>)
    requires key != ""
    ensures Exec(steps).Some? && OneAtATime(steps)
    ensures
      var w := Exec(steps).value;
      && Shows(w.sys, map[key := R.Task(0, R.Tasks.Pending, None)], map[0 := R.Handler(key, 0, R.Waiting)])
      && w.db == Q.EMPTY && w.sent == {0} && w.evals == map[]
  {
    var pending := map[key := R.Task(0, R.Tasks.Pending, None)];
    steps := [];
    assert CalmAt(steps, 0);
    steps := ThenHandle(steps, Handle(R.Arrive(0, key)), map[], map[0 := R.Handler(key, 0, R.Arrived)]);
    steps := ThenHandle(steps, Handle(R.Create(0)), pending,
                        map[0 := R.Handler(key, 0, R.Routing(pending[key], true))]);
    steps := RoutesAndPosts(steps, key, pending[key]);
  }

  lemma RoutesAndPosts(steps: seq<Step>, key: string, task: R.Task) returns (more: seq<Step>)
    requires Exec(steps).Some? && OneAtATime(steps) && Exec(steps).value.sent == {}
    requires Shows(Exec(steps).value.sys, map[key := task], map[0 := R.Handler(key, 0, R.Routing(task, true))])
    ensures Exec(more).Some? && OneAtATime(more)
    ensures
      var w, w' := Exec(steps).value, Exec(more).value;
      && Shows(w'.sys, map[key := task], map[0 := R.Handler(key, 0, R.Waiting)])
      && w'.db == w.db && w'.sent == {0} && w'.evals == w.evals
  {
    more := ThenHandle(steps, Handle(R.Route(0)), map[key := task], map[0 := R.Handler(key, 0, R.Calling)]);
    more := ThenHandle(more, Post(0), map[key := task], map[0 := R.Handler(key, 0, R.Waiting)]);
  }

  /** The engine takes a posted request up and looks for its event, which is not there. */
  lemma LooksForEvent(steps: seq<Step>, h: nat, c: Candidate) returns (more: seq<Step>)
    requires Exec(steps).Some? && OneAtATime(steps) && h in Exec(steps).value.sent
    requires
      var w := Exec(steps).value;
      h !in w.db.active && w.db.events == {} && KeyOf(w.sys, h) != ""
    ensures OneAtATime(more)
    ensures
      var w := Exec(steps).value;
      Exec(more) == Some(w.(db := S.At(w.db, h, S.PastCheck(c, KeyOf(w.sys, h))), sent := w.sent - {h},
                            evals := w.evals[h := Reserving]))
  {
    var w := Exec(steps).value;
    var call := Call([c], KeyOf(w.sys, h));
    CalmNow(steps);
    more := Then(steps, Reach(h, Reserves([c])));
    more := Then(more, Statement(h, true));
    assert w.db.active[h := Q.Start(call)][h := S.PastCheck(c, KeyOf(w.sys, h))]
        == w.db.active[h := S.PastCheck(c, KeyOf(w.sys, h))];
    assert w.evals[h := Reserving][h := Reserving] == w.evals[h := Reserving];
  }

  /** A gateway answers for it meanwhile, and the receiver stores the failure. */
  lemma GatewayFails(steps: seq<Step>, key: string) returns (more: seq<Step>)
    requires Exec(steps).Some? && OneAtATime(steps)
    requires Shows(Exec(steps).value.sys, map[key := R.Task(0, R.Tasks.Pending, None)],
                   map[0 := R.Handler(key, 0, R.Waiting)])
    ensures Exec(more).Some? && OneAtATime(more)
    ensures
      var w, w' := Exec(steps).value, Exec(more).value;
      && Shows(w'.sys, map[key := FAILED], map[0 := Unavailable(key)])
      && w'.db == w.db && w'.sent == w.sent && w'.evals == w.evals
  {
    var reply := R.Reply(503, R.NoDecision(None), "");
    more := ThenHandle(steps, Deliver(0, Gateway(503)), map[key := R.Task(0, R.Tasks.Pending, None)],
                       map[0 := R.Handler(key, 0, R.Replied(reply))]);
    more := ThenHandle(more, Handle(R.Persist(0)), map[key := FAILED], map[0 := Unavailable(key)]);
  }

  const UNAVAILABLE := R.Tasks.Response(503, "PORTAUTH_ENGINE_UNAVAILABLE")
  const FAILED := R.Task(0, R.Tasks.Failed, Some(UNAVAILABLE))

  function Unavailable(key: string): R.Handler {
    R.Handler(key, 0, R.Done(UNAVAILABLE, R.Final))
  }

  /** The client tries again, alone. */
  lemma RetryReopens(steps: seq<Step>, key: string) returns (more: seq<Step>)
    requires Exec(steps).Some? && OneAtATime(steps) && key != ""
    requires Shows(Exec(steps).value.sys, map[key := FAILED], map[0 := Unavailable(key)])
    ensures Exec(more).Some? && OneAtATime(more)
    ensures
      var w := Exec(steps).value;
      && Exec(more).value == w.(sys := Exec(more).value.sys)
      && Shows(Exec(more).value.sys, map[key := FAILED],
               map[0 := Unavailable(key), 1 := R.Handler(key, 0, R.Reopening)])
  {
    var failed, first := map[key := FAILED], Unavailable(key);
    more := ThenHandle(steps, Handle(R.Arrive(1, key)), failed, map[0 := first, 1 := R.Handler(key, 1, R.Arrived)]);
    more := ThenHandle(more, Handle(R.Create(1)), failed,
                       map[0 := first, 1 := R.Handler(key, 0, R.Routing(FAILED, false))]);
    more := ThenHandle(more, Handle(R.Route(1)), failed, map[0 := first, 1 := R.Handler(key, 0, R.Reopening)]);
  }

  /** And its request is posted as well. */
  lemma RetryPosts(steps: seq<Step>, key: string) returns (more: seq<Step>)
    requires Exec(steps).Some? && OneAtATime(steps) && key != ""
    requires Shows(Exec(steps).value.sys, map[key := FAILED],
                   map[0 := Unavailable(key), 1 := R.Handler(key, 0, R.Reopening)])
    ensures Exec(more).Some? && OneAtATime(more)
    ensures
      var w, w' := Exec(steps).value, Exec(more).value;
      && Shows(w'.sys, map[key := R.Task(0, R.Tasks.Pending, None)],
               map[0 := Unavailable(key), 1 := R.Handler(key, 0, R.Waiting)])
      && w'.db == w.db && w'.sent == w.sent + {1} && w'.evals == w.evals
  {
    var pending, first := map[key := R.Task(0, R.Tasks.Pending, None)], Unavailable(key);
    more := ThenHandle(steps, Handle(R.Reopen(1)), pending, map[0 := first, 1 := R.Handler(key, 0, R.Calling)]);
    more := ThenHandle(more, Post(1), pending, map[0 := first, 1 := R.Handler(key, 0, R.Waiting)]);
  }

  /** Both requests are in the engine, past their event checks. */
  lemma BothLook(c: Candidate, key: string) returns (steps: seq<Step>)
    requires key != ""
    ensures Exec(steps).Some? && OneAtATime(steps) && Exec(steps).value.evals == map[0 := Reserving, 1 := Reserving]
    ensures Exec(steps).value.db == S.BothPastCheck(c, key)
  {
    steps := FirstPosts(key);
    steps := LooksForEvent(steps, 0, c);
    steps := GatewayFails(steps, key);
    steps := RetryReopens(steps, key);
    steps := RetryPosts(steps, key);
    steps := LooksForEvent(steps, 1, c);
    assert Exec(steps).value.db.active == S.BothPastCheck(c, key).active;
  }

  /** The evaluations of the other handlers are left alone. */
  predicate OthersKept(w: World, w': World, t: nat) {
    w'.sys == w.sys && forall u :: u in w.evals && u != t ==> u in w'.evals && w'.evals[u] == w.evals[u]
  }

  /** The run reaches `w`, one request of a key at a time, with transaction `t` `n` statements from `goal`. */
  ghost predicate StatementsLeft(steps: seq<Step>, w: World, t: nat, n: nat, goal: Q.Db) {
    && Exec(steps) == Some(w) && OneAtATime(steps) && S.Advances(w.db, t, n) == Some(goal)
    && (n > 0 ==> t in w.evals && w.evals[t].Reserving?)
  }

  lemma StillRunning(db: Q.Db, t: nat, n: nat)
    requires n > 0 && S.Advances(db, t, n).Some?
    ensures Q.Next(db, Q.Advance(t)).Some?
    ensures S.Advances(Q.Next(db, Q.Advance(t)).value, t, n - 1) == S.Advances(db, t, n)
    ensures n > 1 ==> t in Q.Next(db, Q.Advance(t)).value.active
  {
    var db' := Q.Next(db, Q.Advance(t)).value;
    if n > 1 { assert S.Advances(db', t, n - 1).Some? && Q.Next(db', Q.Advance(t)).Some?; }
  }

  lemma OneStatement(steps: seq<Step>, w: World, t: nat, n: nat, goal: Q.Db) returns (more: seq<Step>, w': World)
    requires n > 0 && StatementsLeft(steps, w, t, n, goal)
    ensures StatementsLeft(more, w', t, n - 1, goal) && OthersKept(w, w', t)
  {
    CalmNow(steps);
    StillRunning(w.db, t, n);
    more := Then(steps, Statement(t, true));
    w' := Exec(more).value;
  }

  /** Statements of one transaction, one after the other. */
  lemma {:induction false} RunStatements(steps: seq<Step>, w: World, t: nat, n: nat, goal: Q.Db)
    returns (more: seq<Step>, w': World)
    requires StatementsLeft(steps, w, t, n, goal)
    ensures StatementsLeft(more, w', t, 0, goal) && OthersKept(w, w', t)
    decreases n
  {
    more, w' := steps, w;
    if n > 0 {
      more, w' := OneStatement(steps, w, t, n, goal);
      var first := w';
      more, w' := RunStatements(more, first, t, n - 1, goal);
    }
  }

  /**
   No two handlers of the key at once, and still: a gateway answers for the first request while its
   transaction runs, the client retries, both transactions have looked for the event, both count.
   */
  lemma GatewayCountsTwice(c: Candidate, key: string) returns (steps: seq<Step>)
    requires key != "" && 0 < c.increment && c.increment + c.increment <= c.limit
    ensures Exec(steps).Some? && OneAtATime(steps)
    ensures
      var db := Exec(steps).value.db;
      && db.log == [Q.Outcome(Call([c], key), true), Q.Outcome(Call([c], key), true)]
      && c.key in db.rows && Q.Used(db.rows[c.key], c.metric) == c.increment + c.increment
  {
    var x, n := S.PastCheck(c, key), 6;
    steps := BothLook(c, key);
    var db, w := S.BothPastCheck(c, key), Exec(steps).value;
    assert db == S.At(db, 0, x);
    S.RaisesRegardless(db, 0, x, c, n);
    var once := S.Advances(db, 0, n).value;
    steps, w := RunStatements(steps, w, 0, n, once);
    assert once == S.At(once, 1, x);
    S.RaisesRegardless(once, 1, x, c, n);
    steps, w := RunStatements(steps, w, 1, n, S.Advances(once, 1, n).value);
  }
}
