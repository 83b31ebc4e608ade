/**
 A reservation transaction that runs alone comes to its end: it commits or is denied, with the verdict and
 the tables of the in-memory store, within a number of statements its call bounds.
 */
module SqlProgress {
  import opened Common
  import opened Reservations
  import opened ReservationRuns
  import opened SqlReservations
  import S = SqlStore

  /** How many statements a candidate still takes at most. */
  function Left(pc: Pc): nat {
    match pc
    case CheckEvent => 6
    case Upsert => 5
    case LockRow => 4
    case Decide => 3
    case Write => 2
    case InsertEvent => 1
  }

  /** How many statements the transaction still takes at most, the COMMIT not counted. */
  function Remaining(x: Txn): nat {
    if x.i >= |x.call.candidates| then 0 else 6 * (|x.call.candidates| - x.i - 1) + Left(x.pc)
  }

  /** Transaction `t` is the only one, in a state a schedule can reach. */
  ghost predicate Alone(db: Db, t: nat, x: Txn, kinds: string -> Metric) {
    Inv(db, kinds) && db.active == map[t := x] && GoodCall(x.call, kinds)
  }

  /** A statement moved it to `x'`, nearer to its end. */
  predicate Nearer(db: Db, t: nat, x: Txn, db': Db, x': Txn) {
    db'.active == map[t := x'] && x'.call == x.call && db'.log == db.log && Remaining(x') < Remaining(x)
  }

  predicate Ended(db: Db, x: Txn, db': Db, pass: bool) {
    db'.active == map[] && db'.log == db.log + [Outcome(x.call, pass)]
  }

  /** One statement brings it nearer to its end, or there. */
  ghost predicate Moves(db: Db, t: nat, x: Txn, db': Db) {
    (exists x' :: Nearer(db, t, x, db', x')) || (exists pass :: Ended(db, x, db', pass))
  }

  lemma NobodyElse(db: Db, t: nat, x: Txn)
    requires db.active == map[t := x]
    ensures forall key :: !LockedByOther(db, t, key)
    ensures forall e :: !EventHeldByOther(db, t, e)
    ensures RolledBack(db, t).active == map[]
  {
  }

  lemma MovesTo(db: Db, t: nat, x: Txn, x': Txn)
    requires db.active == map[t := x] && Statement(db, t, x) == Put(db, t, x')
    requires x'.call == x.call && Remaining(x') < Remaining(x)
    ensures Moves(db, t, x, Statement(db, t, x).value)
  {
    assert db.active[t := x'] == map[t := x'];
    assert Nearer(db, t, x, Statement(db, t, x).value, x');
  }

  lemma ChecksAndLocks(db: Db, t: nat, x: Txn, c: Candidate)
    requires db.active == map[t := x] && x.i < |x.call.candidates| && c == x.call.candidates[x.i]
    requires x.pc.CheckEvent? || x.pc.Upsert? || (x.pc.LockRow? && Visible(db, x, c.key))
    ensures Statement(db, t, x).Some? && Moves(db, t, x, Statement(db, t, x).value)
  {
    NobodyElse(db, t, x);
    match x.pc
    case CheckEvent =>
      var skips := x.call.idem != "" && (x.call.idem, c.key) in db.events + x.events;
      MovesTo(db, t, x, if skips then x.(i := x.i + 1) else x.(pc := Upsert));
    case Upsert =>
      MovesTo(db, t, x,
        if Visible(db, x, c.key) then x.(pc := LockRow)
        else x.(pc := LockRow, rows := x.rows[c.key := ZERO], locks := x.locks + {c.key}));
    case LockRow =>
      MovesTo(db, t, x, x.(pc := Decide, current := Used(Seen(db, x, c.key), c.metric), locks := x.locks + {c.key}));
  }

  lemma DecidesAndWrites(db: Db, t: nat, x: Txn, c: Candidate)
    requires db.active == map[t := x] && x.i < |x.call.candidates| && c == x.call.candidates[x.i]
    requires x.pc.Decide? || x.pc.Write? || x.pc.InsertEvent?
    ensures Statement(db, t, x).Some? && Moves(db, t, x, Statement(db, t, x).value)
  {
    NobodyElse(db, t, x);
    match x.pc
    case Decide =>
      if x.current + c.increment > c.limit {
        assert Ended(db, x, Statement(db, t, x).value, false);
      } else {
        MovesTo(db, t, x, x.(pc := Write));
      }
    case Write => MovesTo(db, t, x, x.(pc := InsertEvent, rows := x.rows[c.key := Bump(Seen(db, x, c.key), c)]));
    case InsertEvent =>
      var events := x.events + if x.call.idem == "" then {} else {(x.call.idem, c.key)};
      MovesTo(db, t, x, x.(pc := CheckEvent, i := x.i + 1, events := events));
  }

  lemma StatementMoves(db: Db, t: nat, x: Txn, kinds: string -> Metric)
    requires Alone(db, t, x, kinds)
    ensures Statement(db, t, x).Some? && Moves(db, t, x, Statement(db, t, x).value)
  {
    NobodyElse(db, t, x);
    assert TxnOk(db, db.active[t]);
    if x.i >= |x.call.candidates| {
      assert Ended(db, x, Statement(db, t, x).value, true);
    } else if x.pc.Decide? || x.pc.Write? || x.pc.InsertEvent? {
      DecidesAndWrites(db, t, x, x.call.candidates[x.i]);
    } else {
      ChecksAndLocks(db, t, x, x.call.candidates[x.i]);
    }
  }

  lemma StepMoves(db: Db, t: nat, x: Txn, kinds: string -> Metric)
    requires Alone(db, t, x, kinds)
    ensures Next(db, Advance(t)).Some?
    ensures Moves(db, t, x, Next(db, Advance(t)).value) && Inv(Next(db, Advance(t)).value, kinds)
  {
    StatementMoves(db, t, x, kinds);
    StepKeeps(db, Advance(t), kinds);
  }

  /** The transaction is over, with the serial verdict. */
  ghost predicate Over(log: seq<Outcome>, call: Call, done: Db, kinds: string -> Metric) {
    && done.active == map[] && Inv(done, kinds)
    && done.log == log + [Outcome(call, AllFit(Run(Calls(log)), call))]
  }

  lemma LastVerdict(log: seq<Outcome>, call: Call, pass: bool)
    requires LogAgrees(log + [Outcome(call, pass)])
    ensures pass <==> AllFit(Run(Calls(log)), call)
  {
    LogAppends(log, Outcome(call, pass));
  }

  lemma OneMore(db: Db, t: nat, n: nat, done: Db)
    requires Next(db, Advance(t)).Some? && S.Advances(Next(db, Advance(t)).value, t, n) == Some(done)
    ensures S.Advances(db, t, n + 1) == Some(done)
  {
  }

  lemma EndsNow(db: Db, t: nat, x: Txn, pass: bool, kinds: string -> Metric)
    requires Next(db, Advance(t)).Some? && Ended(db, x, Next(db, Advance(t)).value, pass)
    requires Inv(Next(db, Advance(t)).value, kinds)
    ensures S.Advances(db, t, 1) == Next(db, Advance(t)) && Over(db.log, x.call, Next(db, Advance(t)).value, kinds)
  {
    LastVerdict(db.log, x.call, pass);
    OneMore(db, t, 0, Next(db, Advance(t)).value);
  }

  lemma NextMove(db: Db, t: nat, x: Txn, kinds: string -> Metric) returns (db': Db, ended: bool, x': Txn)
    requires Alone(db, t, x, kinds)
    ensures forall n: nat, done :: S.Advances(db', t, n) == Some(done) ==> S.Advances(db, t, n + 1) == Some(done)
    ensures ended ==> S.Advances(db, t, 1) == Some(db') && Over(db.log, x.call, db', kinds)
    ensures !ended ==> Alone(db', t, x', kinds)
    ensures !ended ==> x'.call == x.call && db'.log == db.log && Remaining(x') < Remaining(x)
  {
    StepMoves(db, t, x, kinds);
    db', ended, x' := Next(db, Advance(t)).value, false, x;
    forall n: nat, done | S.Advances(db', t, n) == Some(done)
      ensures S.Advances(db, t, n + 1) == Some(done)
    {
      OneMore(db, t, n, done);
    }
    if pass :| Ended(db, x, db', pass) {
      ended := true;
      EndsNow(db, t, x, pass, kinds);
    } else {
      x' :| Nearer(db, t, x, db', x');
    }
  }

  lemma {:induction false} RunsOut(db: Db, t: nat, x: Txn, kinds: string -> Metric) returns (n: nat, done: Db)
    requires Alone(db, t, x, kinds)
    ensures n <= Remaining(x) + 1 && S.Advances(db, t, n) == Some(done) && Over(db.log, x.call, done, kinds)
    decreases Remaining(x)
  {
    var db', ended, x' := NextMove(db, t, x, kinds);
    if ended {
      n, done := 1, db';
    } else {
      n, done := RunsOut(db', t, x', kinds);
      n := n + 1;
    }
  }

  lemma Begins(steps: seq<Step>, t: nat, call: Call, kinds: string -> Metric)
    requires Exec(steps).Some? && Admissible(steps, kinds) && Exec(steps).value.active == map[] && GoodCall(call, kinds)
    ensures Exec(steps + [Begin(t, call)]).Some?
    ensures
      var db, begun := Exec(steps).value, Exec(steps + [Begin(t, call)]).value;
      begun.log == db.log && Alone(begun, t, Start(call), kinds)
  {
    var db := Exec(steps).value;
    InterleavingsAreSerial(steps, kinds);
    assert Separated(db) && GoodActive(db, kinds);
    S.ExecAppends(steps, Begin(t, call));
    StepKeeps(db, Begin(t, call), kinds);
    assert db.active[t := Start(call)] == map[t := Start(call)];
  }

  /**
   On a quiet database a transaction that nothing aborts ends within six statements a candidate and a
   COMMIT. It is granted exactly when the serial call is, and leaves the tables the serial call leaves.
   */
  lemma AloneIsSerial(steps: seq<Step>, t: nat, call: Call, kinds: string -> Metric) returns (n: nat)
    requires Exec(steps).Some? && Admissible(steps, kinds) && Exec(steps).value.active == map[] && GoodCall(call, kinds)
    ensures n <= 6 * |call.candidates| + 1 && Exec(steps + [Begin(t, call)] + S.Repeated(t, n)).Some?
    ensures
      var db, done := Exec(steps).value, Exec(steps + [Begin(t, call)] + S.Repeated(t, n)).value;
      var s := Run(Calls(db.log));
      && done.active == map[] && done.log == db.log + [Outcome(call, AllFit(s, call))]
      && Represents(done, AfterReserve(s, call), kinds)
  {
    Begins(steps, t, call, kinds);
    var begun := Exec(steps + [Begin(t, call)]).value;
    var done;
    n, done := RunsOut(begun, t, Start(call), kinds);
    S.ExecAdvances(steps + [Begin(t, call)], begun, t, n);
    LogAppends(begun.log, Outcome(call, AllFit(Run(Calls(begun.log)), call)));
  }
}
