/**
 One SQL reservation with no other running: it writes as it goes and rolls back on a denial, yet
 does what the in-memory store does by staging first. Also, why keyed calls must not overlap.
 */
module SqlStore {
  import opened Common
  import opened Reservations
  import opened ReservationRuns
  import opened SqlReservations

  lemma PrefixGood(call: Call, i: nat, kinds: string -> Metric)
    requires i < |call.candidates| && GoodCall(call, kinds)
    ensures DistinctKeys(call.candidates[..i]) && !Names(call.candidates[..i], call.candidates[i].key)
  {
  }

  /** What the i-th candidate still finds: nobody before it in the call touched its counter or event. */
  lemma UntouchedSoFar(s: Store, call: Call, i: nat, kinds: string -> Metric)
    requires i < |call.candidates| && GoodCall(call, kinds)
    ensures
      var due, c := Due(s, call.candidates[..i], call.idem), call.candidates[i];
      && Counter(Raise(s.counters, due), c.key) == Counter(s.counters, c.key)
      && (EventKey(call.idem, c.key) in Record(s.events, due, call.idem) <==> EventKey(call.idem, c.key) in s.events)
  {
    var due, c := Due(s, call.candidates[..i], call.idem), call.candidates[i];
    PrefixGood(call, i, kinds);
    DueDistinct(s, call.candidates[..i], call.idem);
    NamesMember(call.candidates[..i], c.key);
    NamesMember(due, c.key);
    SumAbsent(due, c.key);
    RaiseAddsSums(s.counters, due, c.key);
    RecordMembers(s.events, due, call.idem, EventKey(call.idem, c.key));
    forall d | d in due
      ensures EventKey(call.idem, d.key) != EventKey(call.idem, c.key)
    {
      EventKeyInjective(call.idem, d.key, call.idem, c.key);
    }
  }

  lemma EventRowSeen(rows: set<(string, string)>, events: set<string>, idem: string, key: string)
    requires EventsRepresent(rows, events) && idem != "" && |key| == KEY_LENGTH
    ensures (idem, key) in rows <==> EventKey(idem, key) in events
  {
    if EventKey(idem, key) in events {
      var f :| f in rows && EventKey(f.0, f.1) == EventKey(idem, key);
      EventKeyInjective(idem, key, f.0, f.1);
    }
  }

  lemma EventRowAdded(rows: set<(string, string)>, events: set<string>, idem: string, key: string)
    requires EventsRepresent(rows, events) && idem != "" && |key| == KEY_LENGTH
    ensures EventsRepresent(rows + {(idem, key)}, events + {EventKey(idem, key)})
  {
    var rows' := rows + {(idem, key)};
    forall e
      ensures e in events + {EventKey(idem, key)} <==> e in EventKeys(rows')
    {
      if e == EventKey(idem, key) { assert (idem, key) in rows'; }
      if e in events {
        var f :| f in rows && EventKey(f.0, f.1) == e;
        assert f in rows';
      }
    }
  }

  /** One result per candidate, in order. */
  function ResultFor(s: Store, idem: string, c: Candidate): Result {
    if IsReplay(s, idem, c.key) then Replayed(c.key, Counter(s.counters, c.key))
    else Reserved(c.key, Counter(s.counters, c.key) + c.increment)
  }

  class PostgresStatefulStore {
    var rows: map<string, Row>
    var events: set<(string, string)>

    constructor ()
      ensures rows == map[] && events == {}
    {
      rows := map[];
      events := {};
    }

    ghost predicate Shows(s: Store, kinds: string -> Metric)
      reads this
    {
      RowsRepresent(rows, s.counters, kinds) && EventsRepresent(events, s.events)
    }

    /** The statements for one candidate: event check, upsert, locked read, test, update, event insert. */
    method Attempt(c: Candidate, idem: string) returns (r: Result)
      modifies this
      ensures Attempted(old(rows), old(events), c, idem, r, rows, events)
    {
      if idem != "" && (idem, c.key) in events {
        return Replayed(c.key, Used(RowAt(rows, c.key), c.metric));
      }
      if c.key !in rows {
        rows := rows[c.key := ZERO];
      }
      var current := Used(rows[c.key], c.metric);
      var next := current + c.increment;
      if next > c.limit {
        return Denied(c.key, next);
      }
      rows := rows[c.key := Bump(rows[c.key], c)];
      if idem != "" {
        events := events + {(idem, c.key)};
      }
      r := Reserved(c.key, next);
    }

    /** A whole transaction; `s` is the in-memory store with the same contents. */
    method Reserve(candidates: seq<Candidate>, idem: string, ghost s: Store, ghost kinds: string -> Metric)
      returns (pass: bool, results: seq<Result>)
      requires Shows(s, kinds) && GoodCall(Call(candidates, idem), kinds)
      modifies this
      ensures pass <==> AllFit(s, Call(candidates, idem))
      ensures Shows(AfterReserve(s, Call(candidates, idem)), kinds)
      ensures pass ==> results == MapSeq(c => ResultFor(s, idem, c), candidates)
      ensures !pass ==> rows == old(rows) && events == old(events) && DeniedAfter(s, candidates, idem, results)
    {
      ghost var call := Call(candidates, idem);
      var savedRows, savedEvents := rows, events;
      results := [];
      for i := 0 to |candidates|
        invariant |results| == i
        invariant forall j :: 0 <= j < i ==>
                    Fits(s, idem, candidates[j]) && results[j] == ResultFor(s, idem, candidates[j])
        invariant ShowsPart(rows, events, s, candidates[..i], idem, kinds)
      {
        var c := candidates[i];
        ghost var rowsBefore, eventsBefore := rows, events;
        var r := Attempt(c, idem);
        AttemptAnswers(rowsBefore, eventsBefore, s, call, i, r, rows, events, kinds);
        results := results + [r];
        if r.Denied? {
          rows, events := savedRows, savedEvents;
          return false, results;
        }
        AttemptKeeps(rowsBefore, eventsBefore, s, call, i, r, rows, events, kinds);
      }
      assert candidates[..|candidates|] == candidates;
      pass := true;
    }
  }

  function RowAt(rows: map<string, Row>, key: string): Row {
    if key in rows then rows[key] else ZERO
  }

  predicate Attempted(
    rows: map<string, Row>, events: set<(string, string)>, c: Candidate, idem: string,
    r: Result, rows': map<string, Row>, events': set<(string, string)>)
  {
    var next := Used(RowAt(rows, c.key), c.metric) + c.increment;
    if idem != "" && (idem, c.key) in events then
      r == Replayed(c.key, next - c.increment) && rows' == rows && events' == events
    else if next > c.limit then r == Denied(c.key, next)
    else
      && r == Reserved(c.key, next) && rows' == rows[c.key := Bump(RowAt(rows, c.key), c)]
      && events' == events + EventRows(idem, c.key)
  }

  function EventRows(idem: string, key: string): set<(string, string)> {
    if idem == "" then {} else {(idem, key)}
  }

  /** The first misfit ends the call; before it every candidate has its result. */
  predicate DeniedAfter(s: Store, cs: seq<Candidate>, idem: string, results: seq<Result>) {
    && 0 < |results| <= |cs| && results[|results| - 1] == DenialFor(s, cs[|results| - 1])
    && FirstMisfit(s, cs, idem, |results| - 1)
    && forall j :: 0 <= j < |results| - 1 ==> results[j] == ResultFor(s, idem, cs[j])
  }

  /** Rows and events stand where the in-memory store would after applying these candidates. */
  ghost predicate ShowsPart(
    rows: map<string, Row>, events: set<(string, string)>, s: Store, cs: seq<Candidate>, idem: string,
      kinds: string -> Metric)
  {
    && RowsRepresent(rows, Raise(s.counters, Due(s, cs, idem)), kinds)
    && EventsRepresent(events, Record(s.events, Due(s, cs, idem), idem))
  }

  lemma RowRaised(rows: map<string, Row>, counters: map<string, int>, c: Candidate, kinds: string -> Metric)
    requires RowsRepresent(rows, counters, kinds) && c.metric == kinds(c.key)
    ensures Used(RowAt(rows, c.key), c.metric) == Counter(counters, c.key)
    ensures RowsRepresent(rows[c.key := Bump(RowAt(rows, c.key), c)],
                          counters[c.key := Counter(counters, c.key) + c.increment], kinds)
  {
  }

  lemma EventRecorded(rows: set<(string, string)>, events: set<string>, idem: string, key: string)
    requires EventsRepresent(rows, events) && |key| == KEY_LENGTH
    ensures EventsRepresent(rows + EventRows(idem, key), events + if idem == "" then {} else {EventKey(idem, key)})
  {
    if idem == "" {
      assert rows + EventRows(idem, key) == rows && events + {} == events;
    } else {
      EventRowAdded(rows, events, idem, key);
    }
  }

  lemma AttemptReplays(
    rows: map<string, Row>, events: set<(string, string)>, s: Store, call: Call, i: nat, kinds: string -> Metric)
    requires i < |call.candidates| && IsReplay(s, call.idem, call.candidates[i].key)
    requires ShowsPart(rows, events, s, call.candidates[..i], call.idem, kinds)
    ensures ShowsPart(rows, events, s, call.candidates[..i + 1], call.idem, kinds)
  {
    var cs, idem := call.candidates, call.idem;
    DueNext(s, cs, i, idem);
    assert Due(s, cs[..i], idem) + [] == Due(s, cs[..i], idem);
  }

  lemma AttemptRaises(
    rows: map<string, Row>, events: set<(string, string)>, s: Store, call: Call, i: nat, kinds: string -> Metric)
    requires i < |call.candidates| && GoodCall(call, kinds) && !IsReplay(s, call.idem, call.candidates[i].key)
    requires ShowsPart(rows, events, s, call.candidates[..i], call.idem, kinds)
    requires Counter(Raise(s.counters, Due(s, call.candidates[..i], call.idem)), call.candidates[i].key)
          == Counter(s.counters, call.candidates[i].key)
    ensures
      var c, cs, idem := call.candidates[i], call.candidates, call.idem;
      ShowsPart(rows[c.key := Bump(RowAt(rows, c.key), c)], events + EventRows(idem, c.key),
                s, cs[..i + 1], idem, kinds)
  {
    var c, cs, idem := call.candidates[i], call.candidates, call.idem;
    var due := Due(s, cs[..i], idem);
    DueNext(s, cs, i, idem);
    RaiseNext(s, due, c, idem);
    RowRaised(rows, Raise(s.counters, due), c, kinds);
    EventRecorded(events, Record(s.events, due, idem), idem, c.key);
  }

  lemma AttemptSees(
    rows: map<string, Row>, events: set<(string, string)>, s: Store, call: Call, i: nat, kinds: string -> Metric)
    requires i < |call.candidates| && GoodCall(call, kinds)
    requires ShowsPart(rows, events, s, call.candidates[..i], call.idem, kinds)
    ensures
      var c, idem := call.candidates[i], call.idem;
      && (idem != "" && (idem, c.key) in events <==> IsReplay(s, idem, c.key))
      && Used(RowAt(rows, c.key), c.metric) == Counter(s.counters, c.key)
      && Counter(Raise(s.counters, Due(s, call.candidates[..i], idem)), c.key) == Counter(s.counters, c.key)
  {
    var c, idem := call.candidates[i], call.idem;
    UntouchedSoFar(s, call, i, kinds);
    RowRaised(rows, Raise(s.counters, Due(s, call.candidates[..i], idem)), c, kinds);
    if idem != "" {
      EventRowSeen(events, Record(s.events, Due(s, call.candidates[..i], idem), idem), idem, c.key);
    }
  }

  /** Writing as it goes, the i-th candidate meets the same test as when staged. */
  lemma AttemptAnswers(
    rows: map<string, Row>, events: set<(string, string)>, s: Store, call: Call, i: nat,
    r: Result, rows': map<string, Row>, events': set<(string, string)>, kinds: string -> Metric)
    requires i < |call.candidates| && GoodCall(call, kinds)
    requires ShowsPart(rows, events, s, call.candidates[..i], call.idem, kinds)
    requires Attempted(rows, events, call.candidates[i], call.idem, r, rows', events')
    ensures r.Denied? <==> !Fits(s, call.idem, call.candidates[i])
    ensures r == if r.Denied? then DenialFor(s, call.candidates[i]) else ResultFor(s, call.idem, call.candidates[i])
  {
    AttemptSees(rows, events, s, call, i, kinds);
  }

  /** And leaves the counters and events that staging it would. */
  lemma AttemptKeeps(
    rows: map<string, Row>, events: set<(string, string)>, s: Store, call: Call, i: nat,
    r: Result, rows': map<string, Row>, events': set<(string, string)>, kinds: string -> Metric)
    requires i < |call.candidates| && GoodCall(call, kinds)
    requires ShowsPart(rows, events, s, call.candidates[..i], call.idem, kinds)
    requires Attempted(rows, events, call.candidates[i], call.idem, r, rows', events') && !r.Denied?
    ensures ShowsPart(rows', events', s, call.candidates[..i + 1], call.idem, kinds)
  {
    AttemptSees(rows, events, s, call, i, kinds);
    if IsReplay(s, call.idem, call.candidates[i].key) {
      AttemptReplays(rows, events, s, call, i, kinds);
    } else {
      AttemptRaises(rows, events, s, call, i, kinds);
    }
  }

  lemma RaiseNext(s: Store, due: seq<Candidate>, c: Candidate, idem: string)
    ensures Raise(s.counters, due + [c]) == Raise(s.counters, due)[c.key := Counter(s.counters, c.key) + c.increment]
    ensures Record(s.events, due + [c], idem)
         == Record(s.events, due, idem) + if idem == "" then {} else {EventKey(idem, c.key)}
  {
    assert (due + [c])[..|due|] == due;
  }

  // ---- Why overlapping calls need different idempotency keys -----------------------------------

  function Advances(db: Db, t: nat, n: nat): Option<Db>
    decreases n
  {
    if n == 0 then Some(db)
    else
      match Next(db, Advance(t))
      case None => None
      case Some(next) => Advances(next, t, n - 1)
  }

  function Repeated(t: nat, n: nat): seq<Step> {
    if n == 0 then [] else [Advance(t)] + Repeated(t, n - 1)
  }

  lemma ExecAppends(steps: seq<Step>, step: Step)
    requires Exec(steps).Some?
    ensures Exec(steps + [step]) == Next(Exec(steps).value, step)
  {
    assert (steps + [step])[..|steps|] == steps;
  }

  lemma AdvanceFirst(steps: seq<Step>, db: Db, t: nat, n: nat)
    requires n > 0 && Exec(steps) == Some(db) && Advances(db, t, n).Some?
    ensures Exec(steps + [Advance(t)]).Some? && Advances(Exec(steps + [Advance(t)]).value, t, n - 1) ==
            Advances(db, t, n)
  {
    ExecAppends(steps, Advance(t));
  }

  lemma RepeatedFirst(steps: seq<Step>, t: nat, n: nat)
    requires n > 0
    ensures steps + [Advance(t)] + Repeated(t, n - 1) == steps + Repeated(t, n)
  {
  }

  lemma {:induction false} ExecAdvances(steps: seq<Step>, db: Db, t: nat, n: nat)
    requires Exec(steps) == Some(db) && Advances(db, t, n).Some?
    ensures Exec(steps + Repeated(t, n)) == Advances(db, t, n)
    decreases n
  {
    if n == 0 {
      assert steps + Repeated(t, n) == steps;
    } else {
      AdvanceFirst(steps, db, t, n);
      ExecAdvances(steps + [Advance(t)], Exec(steps + [Advance(t)]).value, t, n - 1);
      RepeatedFirst(steps, t, n);
    }
  }

  predicate Unlocked(db: Db) {
    forall u :: u in db.active ==> db.active[u].locks == {} && db.active[u].events == {}
  }

  function At(db: Db, t: nat, x: Txn): Db {
    db.(active := db.active[t := x])
  }

  /** A transaction `t` whose statements no other transaction can hold up. */
  lemma Unhindered(db: Db, t: nat, x: Txn, x': Txn, n: nat)
    requires Unlocked(db) && x.i < |x.call.candidates|
    requires forall key :: !LockedByOther(At(db, t, x), t, key)
    requires Statement(At(db, t, x), t, x) == Put(At(db, t, x), t, x')
    ensures Advances(At(db, t, x), t, n + 1) == Advances(At(db, t, x'), t, n)
  {
    assert db.active[t := x][t := x'] == db.active[t := x'];
  }

  lemma NoneHeld(db: Db, t: nat, x: Txn)
    requires Unlocked(db)
    ensures forall key :: !LockedByOther(At(db, t, x), t, key)
    ensures forall e :: !EventHeldByOther(At(db, t, x), t, e)
  {
  }

  /** One candidate past its event check: the row is inserted if need be, and locked. */
  lemma TakesRow(db: Db, t: nat, x: Txn, c: Candidate, n: nat) returns (x': Txn)
    requires x == Start(Call([c], x.call.idem)).(pc := Upsert) && Unlocked(db)
    ensures x' == x.(pc := Decide, current := Used(CommittedRow(db, c.key), c.metric), locks := {c.key},
            rows := x'.rows)
    ensures x'.rows == (if c.key in db.rows then map[] else map[c.key := ZERO])
    ensures Advances(At(db, t, x), t, n + 2) == Advances(At(db, t, x'), t, n)
  {
    var x1 := if c.key in db.rows then x.(pc := LockRow)
      else x.(pc := LockRow, rows := x.rows[c.key := ZERO], locks := x.locks + {c.key});
    NoneHeld(db, t, x);
    Unhindered(db, t, x, x1, n + 1);
    x' := x1.(pc := Decide, current := Used(Seen(db, x1, c.key), c.metric), locks := x1.locks + {c.key});
    NoneHeld(db, t, x1);
    Unhindered(db, t, x1, x', n);
  }

  lemma WritesRow(db: Db, t: nat, x: Txn, c: Candidate, n: nat) returns (x': Txn)
    requires x.call.candidates == [c] && x.i == 0 && x.pc.Decide? && x.call.idem != "" && Unlocked(db)
    requires x.current + c.increment <= c.limit
    ensures x'.call == x.call && x'.i == 1 && x'.rows == x.rows[c.key := Bump(Seen(db, x, c.key), c)]
    ensures x'.events == x.events + {(x.call.idem, c.key)}
    ensures Advances(At(db, t, x), t, n + 3) == Advances(At(db, t, x'), t, n)
  {
    var x1 := x.(pc := Write);
    NoneHeld(db, t, x);
    Unhindered(db, t, x, x1, n + 2);
    var x2 := x1.(pc := InsertEvent, rows := x1.rows[c.key := Bump(Seen(db, x1, c.key), c)]);
    NoneHeld(db, t, x1);
    Unhindered(db, t, x1, x2, n + 1);
    x' := x2.(pc := CheckEvent, i := 1, events := x2.events + {(x2.call.idem, c.key)});
    NoneHeld(db, t, x2);
    Unhindered(db, t, x2, x', n);
  }

  lemma CommitsRow(db: Db, t: nat, x: Txn, n: nat)
    requires x.i == |x.call.candidates| && n == 1
    ensures Advances(At(db, t, x), t, n)
         == Some(Db(db.rows + x.rows, db.events + x.events, db.active - {t}, db.log + [Outcome(x.call, true)]))
  {
    assert At(db, t, x).active - {t} == db.active - {t};
    assert Next(At(db, t, x), Advance(t)) == Some(Committed(At(db, t, x), t, x));
  }

  /** A transaction past its event check raises its counter, whatever has been committed since. */
  lemma RaisesRegardless(db: Db, t: nat, x: Txn, c: Candidate, n: nat)
    requires x == Start(Call([c], x.call.idem)).(pc := Upsert) && x.call.idem != "" && Unlocked(db)
    requires Used(CommittedRow(db, c.key), c.metric) + c.increment <= c.limit && n == 6
    ensures
      var rows := db.rows[c.key := Bump(CommittedRow(db, c.key), c)];
      Advances(At(db, t, x), t, n) == Some(Db(rows, db.events + {(x.call.idem, c.key)}, db.active - {t},
        db.log + [Outcome(x.call, true)]))
  {
    var x1 := TakesRow(db, t, x, c, n - 2);
    var x2 := WritesRow(db, t, x1, c, n - 5);
    CommitsRow(db, t, x2, n - 5);
    assert db.rows + x2.rows == db.rows[c.key := Bump(CommittedRow(db, c.key), c)];
    assert x2.events == {(x.call.idem, c.key)};
  }

  function PastCheck(c: Candidate, idem: string): Txn {
    Start(Call([c], idem)).(pc := Upsert)
  }

  /** Both transactions have looked for the event before either recorded it. */
  function BothPastCheck(c: Candidate, idem: string): Db {
    Db(map[], {}, map[0 := PastCheck(c, idem), 1 := PastCheck(c, idem)], [])
  }

  lemma BothStart(c: Candidate, idem: string) returns (steps: seq<Step>)
    requires idem != ""
    ensures Exec(steps) == Some(BothPastCheck(c, idem))
  {
    var call := Call([c], idem);
    var x := Start(call);
    steps := [];
    ExecAppends(steps, Begin(0, call));
    steps := steps + [Begin(0, call)];
    assert Exec(steps) == Some(At(EMPTY, 0, x));
    ExecAppends(steps, Begin(1, call));
    steps := steps + [Begin(1, call)];
    assert Exec(steps) == Some(At(At(EMPTY, 0, x), 1, x));
    ExecAppends(steps, Advance(0));
    steps := steps + [Advance(0)];
    assert Exec(steps) == Some(At(At(EMPTY, 0, PastCheck(c, idem)), 1, x)) by {
      assert EMPTY.active[0 := x][1 := x][0 := PastCheck(c, idem)] == EMPTY.active[0 := PastCheck(c, idem)][1 := x];
    }
    ExecAppends(steps, Advance(1));
    steps := steps + [Advance(1)];
    assert EMPTY.active[0 := PastCheck(c, idem)][1 := x][1 := PastCheck(c, idem)] == BothPastCheck(c, idem).active;
  }

  lemma RunsToCommit(steps: seq<Step>, db: Db, t: nat, c: Candidate, idem: string, n: nat) returns (more: seq<Step>)
    requires Exec(steps) == Some(At(db, t, PastCheck(c, idem))) && idem != "" && Unlocked(db) && n == 6
    requires Used(CommittedRow(db, c.key), c.metric) + c.increment <= c.limit
    ensures
      var rows := db.rows[c.key := Bump(CommittedRow(db, c.key), c)];
      Exec(more) == Some(Db(rows, db.events + {(idem, c.key)}, db.active - {t},
                            db.log + [Outcome(Call([c], idem), true)]))
  {
    RaisesRegardless(db, t, PastCheck(c, idem), c, n);
    ExecAdvances(steps, At(db, t, PastCheck(c, idem)), t, n);
    more := steps + Repeated(t, n);
  }

  /** Two overlapping calls with one idempotency key are both counted. */
  lemma OverlapCountsTwice(c: Candidate, idem: string) returns (steps: seq<Step>)
    requires idem != "" && c.metric.Count? && 0 < c.increment && c.increment + c.increment <= c.limit
    ensures Exec(steps).Some? && c.key in Exec(steps).value.rows
    ensures Exec(steps).value.log == [Outcome(Call([c], idem), true), Outcome(Call([c], idem), true)]
    ensures Used(Exec(steps).value.rows[c.key], c.metric) == c.increment + c.increment
  {
    steps := BothStart(c, idem);
    var db, n := BothPastCheck(c, idem), 6;
    assert db == At(db, 0, PastCheck(c, idem));
    steps := RunsToCommit(steps, db, 0, c, idem, n);
    var once := Exec(steps).value;
    assert once == At(once, 1, PastCheck(c, idem));
    steps := RunsToCommit(steps, once, 1, c, idem, n);
  }

  lemma SingleDue(s: Store, c: Candidate, idem: string)
    requires !IsReplay(s, idem, c.key)
    ensures Due(s, [c], idem) == [c]
    ensures Raise(s.counters, [c]) == s.counters[c.key := Counter(s.counters, c.key) + c.increment]
  {
    assert [c][..0] == [];
  }

  lemma SingleCall(s: Store, c: Candidate, idem: string)
    requires !IsReplay(s, idem, c.key) && Counter(s.counters, c.key) + c.increment <= c.limit
    ensures AllFit(s, Call([c], idem))
    ensures Counter(AfterReserve(s, Call([c], idem)).counters, c.key) == Counter(s.counters, c.key) + c.increment
  {
    SingleDue(s, c, idem);
  }

  /** The serial store counts the second of two calls with one idempotency key as a replay. */
  lemma SerialCountsOnce(c: Candidate, idem: string)
    requires idem != "" && |c.key| == KEY_LENGTH && c.increment <= c.limit
    ensures Counter(Run([] + [Call([c], idem)] + [Call([c], idem)]).counters, c.key) == c.increment
  {
    var call := Call([c], idem);
    SingleCall(Run([]), c, idem);
    RunAppends([], call);
    RepeatedCallDropsOut([], call);
  }
}
