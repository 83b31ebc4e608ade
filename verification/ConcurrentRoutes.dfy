/**
 The evaluation routes over the PostgreSQL store: requests arrive at any moment, and those that get
 past every earlier stage open a transaction among the others.
 */
module ConcurrentRoutes {
  import opened Common
  import C = Constraints
  import E = Evaluate
  import R = Reservations
  import Runs = ReservationRuns
  import Q = SqlReservations

  datatype Move = Arrives(t: nat, served: E.Served) | Continues(t: nat) | Fails(t: nat)

  /** What a move means to the database: an arrival that is refused earlier means nothing. */
  ghost function StepsOf(h: C.Host, move: Move): seq<Q.Step> {
    match move
    case Arrives(t, served) =>
      (match E.Reached(h, served.keyFor, served.config, served.req)
       case None => []
       case Some(call) => [Q.Begin(t, call)])
    case Continues(t) => [Q.Advance(t)]
    case Fails(t) => [Q.Abort(t)]
  }

  ghost function Schedule(h: C.Host, moves: seq<Move>): seq<Q.Step> {
    if moves == [] then [] else Schedule(h, moves[..|moves| - 1]) + StepsOf(h, moves[|moves| - 1])
  }

  /** The reservations of the requests that passed every stage before the stateful one, in order of arrival. */
  ghost function ReachedCalls(h: C.Host, moves: seq<Move>): seq<R.Call> {
    if moves == [] then []
    else ReachedCalls(h, moves[..|moves| - 1]) + BegunIn(StepsOf(h, moves[|moves| - 1]))
  }

  function BegunIn(steps: seq<Q.Step>): seq<R.Call> {
    if steps == [] then []
    else BegunIn(steps[..|steps| - 1]) + if steps[|steps| - 1].Begin? then [steps[|steps| - 1].call] else []
  }

  lemma BegunSnoc(steps: seq<Q.Step>, step: Q.Step)
    ensures BegunIn(steps + [step]) == BegunIn(steps) + if step.Begin? then [step.call] else []
  {
    assert (steps + [step])[..|steps|] == steps;
  }

  lemma {:induction false} BegunAreReached(h: C.Host, moves: seq<Move>)
    ensures BegunIn(Schedule(h, moves)) == ReachedCalls(h, moves)
  {
    if moves != [] {
      var before, last := Schedule(h, moves[..|moves| - 1]), StepsOf(h, moves[|moves| - 1]);
      BegunAreReached(h, moves[..|moves| - 1]);
      if last == [] {
        assert before + last == before && BegunIn(before) + BegunIn(last) == BegunIn(before);
      } else {
        assert last == [last[0]] == [] + last;
        BegunSnoc(before, last[0]);
        BegunSnoc([], last[0]);
      }
    }
  }

  // ---- Every transaction ends at most once -------------------------------------------------------

  ghost function Running(db: Q.Db, call: R.Call): set<nat> {
    set t | t in db.active && db.active[t].call == call
  }

  /** How often a call finished or is still running. */
  ghost function Seen(db: Q.Db, call: R.Call): nat {
    multiset(Q.Calls(db.log))[call] + |Running(db, call)|
  }

  lemma LogCounts(log: seq<Q.Outcome>, o: Q.Outcome, call: R.Call)
    ensures multiset(Q.Calls(log + [o]))[call] == multiset(Q.Calls(log))[call] + if o.call == call then 1 else 0
  {
    Q.LogAppends(log, o);
  }

  lemma BeginSeen(db: Q.Db, step: Q.Step, call: R.Call)
    requires step.Begin? && Q.Next(db, step).Some?
    ensures Seen(Q.Next(db, step).value, call) == Seen(db, call) + if step.call == call then 1 else 0
  {
    var db' := Q.Next(db, step).value;
    if step.call == call {
      assert Running(db', call) == Running(db, call) + {step.t};
    } else {
      assert Running(db', call) == Running(db, call);
    }
  }

  lemma EndedRuns(db: Q.Db, t: nat, call: R.Call)
    ensures Running(Q.RolledBack(db, t), call) == Running(db, call) - {t}
  {
  }

  lemma EndsSeen(db: Q.Db, t: nat, call: R.Call)
    requires t in db.active
    ensures |Running(Q.RolledBack(db, t), call)| == |Running(db, call)| - if db.active[t].call == call then 1 else 0
  {
    EndedRuns(db, t, call);
    assert t in Running(db, call) <==> db.active[t].call == call;
  }

  /** A statement leaves its transaction running, ends it with an outcome, or ends it without one. */
  lemma AdvanceCases(db: Q.Db, t: nat) returns (pass: bool)
    requires Q.Next(db, Q.Advance(t)).Some?
    ensures
      var db', x := Q.Next(db, Q.Advance(t)).value, db.active[t];
      || (t in db'.active && db'.active == db.active[t := db'.active[t]]
          && db'.active[t].call == x.call && db'.log == db.log)
      || (db'.active == db.active - {t} && db'.log == db.log)
      || (db'.active == db.active - {t} && db'.log == db.log + [Q.Outcome(x.call, pass)])
  {
    var x := db.active[t];
    pass := x.i >= |x.call.candidates|;
  }

  lemma AdvanceSeen(db: Q.Db, t: nat, call: R.Call)
    requires Q.Next(db, Q.Advance(t)).Some?
    ensures Seen(Q.Next(db, Q.Advance(t)).value, call) <= Seen(db, call)
  {
    var db', x := Q.Next(db, Q.Advance(t)).value, db.active[t];
    var pass := AdvanceCases(db, t);
    if t in db'.active {
      assert Running(db', call) == Running(db, call);
    } else {
      EndsSeen(db, t, call);
      assert Running(db', call) == Running(Q.RolledBack(db, t), call);
      LogCounts(db.log, Q.Outcome(x.call, pass), call);
    }
  }

  lemma {:induction false} SeenAtMostBegun(steps: seq<Q.Step>, call: R.Call)
    requires Q.Exec(steps).Some?
    ensures Seen(Q.Exec(steps).value, call) <= multiset(BegunIn(steps))[call]
  {
    if steps != [] {
      var before, last := steps[..|steps| - 1], steps[|steps| - 1];
      var db := Q.Exec(before).value;
      SeenAtMostBegun(before, call);
      match last
      case Begin(_, _) => BeginSeen(db, last, call);
      case Advance(t) => AdvanceSeen(db, t, call);
      case Abort(t) => EndsSeen(db, t, call);
    }
  }

  lemma {:induction false} CommittedAmongCalls(log: seq<Q.Outcome>, call: R.Call)
    ensures multiset(Q.CommittedCalls(log))[call] <= multiset(Q.Calls(log))[call]
  {
    if log != [] {
      var before, last := log[..|log| - 1], log[|log| - 1];
      CommittedAmongCalls(before, call);
      Q.CommittedAppends(before, last);
      LogCounts(before, last, call);
      assert log == before + [last];
    }
  }

  /**
   However requests overlap, the committed tables are those of the in-memory store run on the admitted
   reservations alone, each of them made by a request of its own that passed every earlier stage.
   */
  lemma OnlyReachedCount(h: C.Host, moves: seq<Move>, kinds: string -> R.Metric)
    requires Q.Exec(Schedule(h, moves)).Some? && Q.Admissible(Schedule(h, moves), kinds)
    ensures
      var db := Q.Exec(Schedule(h, moves)).value;
      && Q.Represents(db, Runs.Run(Q.CommittedCalls(db.log)), kinds)
      && multiset(Q.CommittedCalls(db.log)) <= multiset(ReachedCalls(h, moves))
  {
    var db := Q.Exec(Schedule(h, moves)).value;
    Q.CommittedIsSerialRun(Schedule(h, moves), kinds);
    BegunAreReached(h, moves);
    forall call
      ensures multiset(Q.CommittedCalls(db.log))[call] <= multiset(ReachedCalls(h, moves))[call]
    {
      SeenAtMostBegun(Schedule(h, moves), call);
      CommittedAmongCalls(db.log, call);
    }
  }
}
