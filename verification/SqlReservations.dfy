/**
 The PostgreSQL store: any number of reservation transactions at READ COMMITTED, interleaved
 statement by statement, each holding the row locks it took until it commits or rolls back.
 */
module SqlReservations {
  import opened Common
  import opened Reservations
  import opened ReservationRuns

  /** A row of `portauth_authorization_counters`. */
  datatype Row = Row(amount: int, count: int)

  const ZERO := Row(0, 0)

  function Used(r: Row, m: Metric): int {
    if m.Amount? then r.amount else r.count
  }

  function Bump(r: Row, c: Candidate): Row {
    if c.metric.Amount? then Row(r.amount + c.increment, r.count) else Row(r.amount, r.count + c.increment)
  }

  /** The statement a transaction is about to issue for its current candidate. */
  datatype Pc = CheckEvent | Upsert | LockRow | Decide | Write | InsertEvent

  /** A transaction's progress, its own uncommitted writes, and the rows it has locked. */
  datatype Txn = Txn(
    call: Call, i: nat, pc: Pc, current: int,
    rows: map<string, Row>, events: set<(string, string)>, locks: set<string>)

  datatype Outcome = Outcome(call: Call, pass: bool)

  /** Committed tables, running transactions, and the finished calls in the order they finished. */
  datatype Db = Db(
    rows: map<string, Row>, events: set<(string, string)>, active: map<nat, Txn>, log: seq<Outcome>)

  datatype Step = Begin(t: nat, call: Call) | Advance(t: nat) | Abort(t: nat)

  const EMPTY := Db(map[], {}, map[], [])

  function Start(call: Call): Txn {
    Txn(call, 0, CheckEvent, 0, map[], {}, {})
  }

  predicate Visible(db: Db, x: Txn, key: string) {
    key in x.rows || key in db.rows
  }

  function CommittedRow(db: Db, key: string): Row {
    if key in db.rows then db.rows[key] else ZERO
  }

  /** A statement sees its own writes over what is committed when it runs. */
  function Seen(db: Db, x: Txn, key: string): Row {
    if key in x.rows then x.rows[key] else CommittedRow(db, key)
  }

  predicate LockedByOther(db: Db, t: nat, key: string) {
    exists u :: u in db.active && u != t && key in db.active[u].locks
  }

  predicate EventHeldByOther(db: Db, t: nat, e: (string, string)) {
    exists u :: u in db.active && u != t && e in db.active[u].events
  }

  function Put(db: Db, t: nat, x: Txn): Option<Db> {
    Some(db.(active := db.active[t := x]))
  }

  function RolledBack(db: Db, t: nat): Db {
    db.(active := db.active - {t})
  }

  function Committed(db: Db, t: nat, x: Txn): Db {
    Db(db.rows + x.rows, db.events + x.events, db.active - {t}, db.log + [Outcome(x.call, true)])
  }

  /** One statement of transaction `t`; `None` while it waits for another transaction. */
  function Statement(db: Db, t: nat, x: Txn): Option<Db> {
    if x.i >= |x.call.candidates| then Some(Committed(db, t, x))
    else
      var c, idem := x.call.candidates[x.i], x.call.idem;
      match x.pc {
        case CheckEvent =>
          if idem != "" && (idem, c.key) in db.events + x.events then Put(db, t, x.(i := x.i + 1))
          else Put(db, t, x.(pc := Upsert))
        case Upsert =>
          if Visible(db, x, c.key) then Put(db, t, x.(pc := LockRow))
          else if LockedByOther(db, t, c.key) then None
          else Put(db, t, x.(pc := LockRow, rows := x.rows[c.key := ZERO], locks := x.locks + {c.key}))
        case LockRow =>
          if LockedByOther(db, t, c.key) then None
          else if !Visible(db, x, c.key) then Some(RolledBack(db, t))
          else Put(db, t, x.(pc := Decide, current := Used(Seen(db, x, c.key), c.metric), locks := x.locks + {c.key}))
        case Decide =>
          if x.current + c.increment > c.limit then Some(RolledBack(db, t).(log := db.log + [Outcome(x.call, false)]))
          else Put(db, t, x.(pc := Write))
        case Write =>
          Put(db, t, x.(pc := InsertEvent, rows := x.rows[c.key := Bump(Seen(db, x, c.key), c)]))
        case InsertEvent =>
          if idem != "" && EventHeldByOther(db, t, (idem, c.key)) then None
          else
            var events := x.events + if idem == "" then {} else {(idem, c.key)};
            Put(db, t, x.(pc := CheckEvent, i := x.i + 1, events := events))
      }
  }

  function Next(db: Db, step: Step): Option<Db> {
    match step
    case Begin(t, call) => if t in db.active then None else Put(db, t, Start(call))
    case Advance(t) => if t in db.active then Statement(db, t, db.active[t]) else None
    case Abort(t) => if t in db.active then Some(RolledBack(db, t)) else None
  }

  function Calls(log: seq<Outcome>): seq<Call> {
    MapSeq((o: Outcome) => o.call, log)
  }

  /** A raise touches the column of its metric alone, by its increment. */
  lemma BumpsOneColumn(r: Row, c: Candidate, m: Metric)
    ensures Used(Bump(r, c), m) == Used(r, m) + if m == c.metric then c.increment else 0
  {
  }

  /**
   A transaction waits while another holds the row it inserts or locks, or has recorded the event it
   records, and neither has committed.
   */
  lemma WaitsForOther(db: Db, t: nat, x: Txn, u: nat)
    requires x.i < |x.call.candidates| && u in db.active && u != t
    requires
      var c, other := x.call.candidates[x.i], db.active[u];
      || (x.pc.Upsert? && c.key !in x.rows && c.key !in db.rows && c.key in other.locks)
      || (x.pc.LockRow? && c.key in other.locks)
      || (x.pc.InsertEvent? && x.call.idem != "" && (x.call.idem, c.key) in other.events)
    ensures Statement(db, t, x).None?
  {
  }

  // ---- The serial store a database represents ----------------------------------------------------

  function EventKeys(events: set<(string, string)>): set<string> {
    set e | e in events :: EventKey(e.0, e.1)
  }

  ghost predicate RowsRepresent(rows: map<string, Row>, counters: map<string, int>, kinds: string -> Metric) {
    && (forall key :: key in counters <==> key in rows)
    && (forall key :: key in rows ==> counters[key] == Used(rows[key], kinds(key)))
  }

  ghost predicate EventsRepresent(rows: set<(string, string)>, events: set<string>) {
    && (forall e :: e in rows ==> e.0 != "" && |e.1| == KEY_LENGTH)
    && events == EventKeys(rows)
  }

  ghost predicate Represents(db: Db, s: Store, kinds: string -> Metric) {
    RowsRepresent(db.rows, s.counters, kinds) && EventsRepresent(db.events, s.events)
  }

  /** Calls the model is about: hashed, distinct counter keys, each always of one metric. */
  ghost predicate GoodCall(call: Call, kinds: string -> Metric) {
    && DistinctKeys(call.candidates) && KeysWellFormed(call.candidates)
    && forall c :: c in call.candidates ==> c.metric == kinds(c.key)
  }

  predicate Recorded(db: Db, x: Txn, key: string) {
    x.call.idem != "" && (x.call.idem, key) in db.events
  }

  /** A candidate the transaction has dealt with: it fits, and its row holds the raised value. */
  predicate Raised(db: Db, x: Txn, c: Candidate) {
    && c.key in x.rows && x.rows[c.key] == Bump(CommittedRow(db, c.key), c)
    && Used(CommittedRow(db, c.key), c.metric) + c.increment <= c.limit
    && !Recorded(db, x, c.key)
  }

  predicate Settled(db: Db, x: Txn, c: Candidate) {
    if c.key in x.rows then Raised(db, x, c) && (x.call.idem != "" ==> (x.call.idem, c.key) in x.events)
    else Recorded(db, x, c.key)
  }

  /** Between the upsert and the write, the row is the committed one or the inserted zero row. */
  predicate RowReady(db: Db, x: Txn, c: Candidate) {
    && !Recorded(db, x, c.key)
    && Visible(db, x, c.key)
    && (c.key in x.rows ==> c.key !in db.rows && x.rows[c.key] == ZERO)
  }

  predicate AtStatement(db: Db, x: Txn, c: Candidate) {
    match x.pc
    case CheckEvent => c.key !in x.rows
    case Upsert => c.key !in x.rows && !Recorded(db, x, c.key)
    case LockRow => RowReady(db, x, c)
    case Decide => RowReady(db, x, c) && c.key in x.locks && x.current == Used(CommittedRow(db, c.key), c.metric)
    case Write =>
      && RowReady(db, x, c) && c.key in x.locks && x.current == Used(CommittedRow(db, c.key), c.metric)
      && x.current + c.increment <= c.limit
    case InsertEvent => Raised(db, x, c)
  }

  ghost predicate TxnOk(db: Db, x: Txn) {
    var cs := x.call.candidates;
    && x.i <= |cs|
    && x.rows.Keys <= x.locks
    && (forall j :: 0 <= j < x.i ==> Settled(db, x, cs[j]))
    && (forall j :: x.i < j < |cs| ==> cs[j].key !in x.rows)
    && (x.i < |cs| ==> AtStatement(db, x, cs[x.i]))
    && (forall key :: key in x.rows ==> Names(cs, key))
    && (forall e :: e in x.events ==> e.0 == x.call.idem != "" && e.1 in x.rows
                                      && (x.i < |cs| ==> e.1 != cs[x.i].key))
  }

  /** Running transactions never share a lock; under the key assumption they share no event either. */
  ghost predicate LocksDisjoint(db: Db) {
    forall t, u :: t in db.active && u in db.active && t != u ==> db.active[t].locks !! db.active[u].locks
  }

  /** The assumption on the schedule: overlapping keyed transactions use different keys. */
  ghost predicate Separated(db: Db) {
    forall t, u :: t in db.active && u in db.active && t != u && db.active[t].call.idem != "" ==>
      db.active[t].call.idem != db.active[u].call.idem
  }

  ghost predicate GoodActive(db: Db, kinds: string -> Metric) {
    forall t :: t in db.active ==> GoodCall(db.active[t].call, kinds)
  }

  /** Every logged verdict is the one the serial store gives at that point. */
  predicate LogAgrees(log: seq<Outcome>) {
    log == [] ||
    var before, last := log[..|log| - 1], log[|log| - 1];
    LogAgrees(before) && (last.pass <==> AllFit(Run(Calls(before)), last.call))
  }

  ghost predicate Inv(db: Db, kinds: string -> Metric) {
    && Represents(db, Run(Calls(db.log)), kinds)
    && LogAgrees(db.log)
    && (forall t :: t in db.active ==> TxnOk(db, db.active[t]))
    && LocksDisjoint(db)
  }

  // ---- Each kind of step -----------------------------------------------------------------------

  lemma RecordedMatches(db: Db, s: Store, x: Txn, key: string, kinds: string -> Metric)
    requires Represents(db, s, kinds) && |key| == KEY_LENGTH
    ensures Recorded(db, x, key) <==> IsReplay(s, x.call.idem, key)
  {
    var e := EventKey(x.call.idem, key);
    if e in s.events {
      var f :| f in db.events && EventKey(f.0, f.1) == e;
      EventKeyInjective(x.call.idem, key, f.0, f.1);
      assert f == (x.call.idem, key);
    }
  }

  lemma UsedMatches(db: Db, s: Store, c: Candidate, kinds: string -> Metric)
    requires Represents(db, s, kinds) && c.metric == kinds(c.key)
    ensures Used(CommittedRow(db, c.key), c.metric) == Counter(s.counters, c.key)
  {
  }

  /** A change that leaves a transaction's locked rows and its own key's events alone keeps it sound. */
  lemma TxnFramed(db: Db, db': Db, x: Txn)
    requires TxnOk(db, x)
    requires forall key :: key in db.rows ==> key in db'.rows
    requires forall key :: key in x.locks ==>
               (key in db.rows <==> key in db'.rows) && CommittedRow(db, key) == CommittedRow(db', key)
    requires forall key :: Recorded(db, x, key) <==> Recorded(db', x, key)
    ensures TxnOk(db', x)
  {
    var cs := x.call.candidates;
    forall j | 0 <= j < x.i
      ensures Settled(db', x, cs[j])
    {
      assert Settled(db, x, cs[j]);
    }
  }

  /** A step that only changes transaction `t`. */
  lemma PutKeeps(db: Db, t: nat, x: Txn, kinds: string -> Metric)
    requires Inv(db, kinds) && TxnOk(db, x)
    requires forall u :: u in db.active && u != t ==> x.locks !! db.active[u].locks
    ensures Inv(Put(db, t, x).value, kinds)
  {
    var db' := Put(db, t, x).value;
    forall u | u in db'.active
      ensures TxnOk(db', db'.active[u])
    {
      TxnFramed(db, db', db'.active[u]);
    }
  }

  lemma RollbackKeeps(db: Db, t: nat, kinds: string -> Metric)
    requires Inv(db, kinds)
    ensures Inv(RolledBack(db, t), kinds)
  {
    forall u | u in RolledBack(db, t).active
      ensures TxnOk(RolledBack(db, t), db.active[u])
    {
      TxnFramed(db, RolledBack(db, t), db.active[u]);
    }
  }

  lemma StartOk(db: Db, call: Call)
    ensures TxnOk(db, Start(call))
  {
  }

  lemma SkipOk(db: Db, x: Txn, c: Candidate)
    requires TxnOk(db, x) && x.i < |x.call.candidates| && c == x.call.candidates[x.i] && x.pc.CheckEvent?
    requires x.call.idem != "" && (x.call.idem, c.key) in db.events + x.events
    ensures TxnOk(db, x.(i := x.i + 1))
  {
    var x' := x.(i := x.i + 1);
    assert (x.call.idem, c.key) !in x.events;
    assert Settled(db, x', c);
    forall j | 0 <= j < x'.i
      ensures Settled(db, x', x'.call.candidates[j])
    {
      if j < x.i { assert Settled(db, x, x.call.candidates[j]); }
    }
    assert forall e :: e in x.events ==> e.1 in x.rows;
  }

  lemma StatementOk(db: Db, x: Txn, x': Txn, c: Candidate)
    requires TxnOk(db, x) && x.i < |x.call.candidates| && c == x.call.candidates[x.i]
    requires DistinctKeys(x.call.candidates)
    requires x'.call == x.call && x'.i == x.i && x'.events == x.events
    requires x'.locks == x.locks || x'.locks == x.locks + {c.key}
    requires x'.rows == x.rows || (c.key in x'.rows && c.key in x'.locks && x'.rows == x.rows[c.key := x'.rows[c.key]])
    requires AtStatement(db, x', c)
    ensures TxnOk(db, x')
  {
    var cs := x.call.candidates;
    forall j | 0 <= j < x.i
      ensures Settled(db, x', cs[j])
    {
      assert Settled(db, x, cs[j]);
      assert cs[j].key != c.key;
    }
    assert Names(cs, c.key);
  }

  lemma InsertOk(db: Db, x: Txn, c: Candidate)
    requires TxnOk(db, x) && x.i < |x.call.candidates| && c == x.call.candidates[x.i] && x.pc.InsertEvent?
    requires DistinctKeys(x.call.candidates)
    ensures
      var events := x.events + if x.call.idem == "" then {} else {(x.call.idem, c.key)};
      TxnOk(db, x.(pc := CheckEvent, i := x.i + 1, events := events))
  {
    var cs := x.call.candidates;
    var events := x.events + if x.call.idem == "" then {} else {(x.call.idem, c.key)};
    var x' := x.(pc := CheckEvent, i := x.i + 1, events := events);
    forall j | 0 <= j < x'.i
      ensures Settled(db, x', cs[j])
    {
      if j < x.i {
        assert Settled(db, x, cs[j]);
      }
    }
    forall e | e in x'.events && x'.i < |cs|
      ensures e.1 != cs[x'.i].key
    {
      assert e.1 in x.rows && cs[x'.i].key !in x.rows;
    }
  }

  // ---- Commit and denial -----------------------------------------------------------------------

  lemma SettledFits(db: Db, s: Store, x: Txn, c: Candidate, kinds: string -> Metric)
    requires Represents(db, s, kinds) && GoodCall(x.call, kinds) && c in x.call.candidates && Settled(db, x, c)
    ensures Fits(s, x.call.idem, c) && (IsReplay(s, x.call.idem, c.key) <==> c.key !in x.rows)
  {
    RecordedMatches(db, s, x, c.key, kinds);
    UsedMatches(db, s, c, kinds);
  }

  ghost predicate Finished(db: Db, x: Txn, kinds: string -> Metric) {
    TxnOk(db, x) && x.i >= |x.call.candidates| && GoodCall(x.call, kinds)
  }

  lemma FinishedSettled(db: Db, x: Txn, c: Candidate, kinds: string -> Metric)
    requires Finished(db, x, kinds) && c in x.call.candidates
    ensures Settled(db, x, c)
  {
    var j :| 0 <= j < |x.call.candidates| && x.call.candidates[j] == c;
    assert Settled(db, x, x.call.candidates[j]);
  }

  lemma {:induction false} SumSingle(cs: seq<Candidate>, c: Candidate)
    requires DistinctKeys(cs) && c in cs
    ensures SumFor(cs, c.key) == c.increment
  {
    var rest, last := cs[..|cs| - 1], cs[|cs| - 1];
    if last == c {
      NamesMember(rest, c.key);
      SumAbsent(rest, c.key);
    } else {
      assert c in rest;
      SumSingle(rest, c);
    }
  }

  lemma DueOther(s: Store, cs: seq<Candidate>, idem: string, c: Candidate)
    requires DistinctKeys(cs) && c in cs && IsReplay(s, idem, c.key)
    ensures !Names(Due(s, cs, idem), c.key)
  {
    NamesMember(Due(s, cs, idem), c.key);
  }

  lemma RaisedOnce(counters: map<string, int>, due: seq<Candidate>, c: Candidate)
    requires DistinctKeys(due) && c in due
    ensures c.key in Raise(counters, due) && Raise(counters, due)[c.key] == Counter(counters, c.key) + c.increment
  {
    RaiseAddsSums(counters, due, c.key);
    NamesMember(due, c.key);
    SumSingle(due, c);
  }

  lemma AppliedCounter(db: Db, s: Store, x: Txn, c: Candidate, kinds: string -> Metric)
    requires Represents(db, s, kinds) && GoodCall(x.call, kinds) && c in x.call.candidates
    requires Settled(db, x, c) && c.key in x.rows
    ensures
      var counters := Raise(s.counters, Due(s, x.call.candidates, x.call.idem));
      c.key in counters && counters[c.key] == Used(x.rows[c.key], c.metric)
  {
    var due := Due(s, x.call.candidates, x.call.idem);
    SettledFits(db, s, x, c, kinds);
    UsedMatches(db, s, c, kinds);
    assert Used(x.rows[c.key], c.metric) == Counter(s.counters, c.key) + c.increment;
    DueDistinct(s, x.call.candidates, x.call.idem);
    RaisedOnce(s.counters, due, c);
  }

  lemma ReplayedCounter(db: Db, s: Store, x: Txn, c: Candidate, kinds: string -> Metric)
    requires Represents(db, s, kinds) && GoodCall(x.call, kinds) && c in x.call.candidates
    requires Settled(db, x, c) && c.key !in x.rows
    ensures
      var counters := Raise(s.counters, Due(s, x.call.candidates, x.call.idem));
      (c.key in counters <==> c.key in db.rows) && Counter(counters, c.key) == Used(CommittedRow(db, c.key), c.metric)
  {
    var due := Due(s, x.call.candidates, x.call.idem);
    SettledFits(db, s, x, c, kinds);
    UsedMatches(db, s, c, kinds);
    DueDistinct(s, x.call.candidates, x.call.idem);
    RaiseAddsSums(s.counters, due, c.key);
    DueOther(s, x.call.candidates, x.call.idem, c);
    SumAbsent(due, c.key);
  }

  lemma UnnamedCounter(db: Db, s: Store, x: Txn, key: string, kinds: string -> Metric)
    requires Represents(db, s, kinds) && Finished(db, x, kinds) && !Names(x.call.candidates, key)
    ensures
      var counters := Raise(s.counters, Due(s, x.call.candidates, x.call.idem));
      && (key in counters <==> Visible(db, x, key))
      && Counter(counters, key) == Used(Seen(db, x, key), kinds(key))
  {
    var due := Due(s, x.call.candidates, x.call.idem);
    NamesMember(due, key);
    NamesMember(x.call.candidates, key);
    DueDistinct(s, x.call.candidates, x.call.idem);
    RaiseAddsSums(s.counters, due, key);
    SumAbsent(due, key);
  }

  /** On one counter the transaction's view is what the serial store's call sets. */
  lemma CommitCounter(db: Db, s: Store, x: Txn, key: string, kinds: string -> Metric)
    requires Represents(db, s, kinds) && Finished(db, x, kinds)
    ensures
      var counters := Raise(s.counters, Due(s, x.call.candidates, x.call.idem));
      && (key in counters <==> Visible(db, x, key))
      && Counter(counters, key) == Used(Seen(db, x, key), kinds(key))
  {
    if Names(x.call.candidates, key) {
      NamesMember(x.call.candidates, key);
      var c :| c in x.call.candidates && c.key == key;
      FinishedSettled(db, x, c, kinds);
      if key in x.rows {
        AppliedCounter(db, s, x, c, kinds);
      } else {
        ReplayedCounter(db, s, x, c, kinds);
      }
    } else {
      UnnamedCounter(db, s, x, key, kinds);
    }
  }

  lemma CommitEvents(db: Db, s: Store, x: Txn, e: string, kinds: string -> Metric)
    requires Represents(db, s, kinds) && Finished(db, x, kinds)
    ensures e in Record(s.events, Due(s, x.call.candidates, x.call.idem), x.call.idem) <==>
            e in EventKeys(db.events + x.events)
  {
    var cs, idem := x.call.candidates, x.call.idem;
    var due := Due(s, cs, idem);
    RecordMembers(s.events, due, idem, e);
    if f :| f in x.events && EventKey(f.0, f.1) == e {
      NamesMember(cs, f.1);
      var c :| c in cs && c.key == f.1;
      FinishedSettled(db, x, c, kinds);
      SettledFits(db, s, x, c, kinds);
      assert c in due;
    }
    if idem != "" {
      forall c | c in due
        ensures (idem, c.key) in x.events
      {
        FinishedSettled(db, x, c, kinds);
        SettledFits(db, s, x, c, kinds);
      }
      if c :| c in due && e == EventKey(idem, c.key) {
        assert (idem, c.key) in db.events + x.events;
      }
    }
  }

  lemma FinishedFits(db: Db, s: Store, x: Txn, kinds: string -> Metric)
    requires Represents(db, s, kinds) && Finished(db, x, kinds)
    ensures AllFit(s, x.call)
  {
    forall c | c in x.call.candidates
      ensures Fits(s, x.call.idem, c)
    {
      FinishedSettled(db, x, c, kinds);
      SettledFits(db, s, x, c, kinds);
    }
  }

  lemma OwnEventsWellFormed(db: Db, x: Txn, kinds: string -> Metric)
    requires Finished(db, x, kinds)
    ensures forall e :: e in x.events ==> e.0 != "" && |e.1| == KEY_LENGTH
  {
    forall e | e in x.events
      ensures |e.1| == KEY_LENGTH
    {
      NamesMember(x.call.candidates, e.1);
    }
  }

  lemma CommitRows(db: Db, s: Store, x: Txn, kinds: string -> Metric)
    requires Represents(db, s, kinds) && Finished(db, x, kinds)
    ensures RowsRepresent(db.rows + x.rows, Raise(s.counters, Due(s, x.call.candidates, x.call.idem)), kinds)
  {
    var rows, counters := db.rows + x.rows, Raise(s.counters, Due(s, x.call.candidates, x.call.idem));
    forall key
      ensures (key in counters <==> key in rows) && (key in rows ==> counters[key] == Used(rows[key], kinds(key)))
    {
      CommitCounter(db, s, x, key, kinds);
    }
  }

  lemma CommitEventRows(db: Db, s: Store, x: Txn, kinds: string -> Metric)
    requires Represents(db, s, kinds) && Finished(db, x, kinds)
    ensures EventsRepresent(db.events + x.events, Record(s.events, Due(s, x.call.candidates, x.call.idem), x.call.idem))
  {
    OwnEventsWellFormed(db, x, kinds);
    var events := Record(s.events, Due(s, x.call.candidates, x.call.idem), x.call.idem);
    forall e
      ensures e in events <==> e in EventKeys(db.events + x.events)
    {
      CommitEvents(db, s, x, e, kinds);
    }
  }

  /** A finished transaction commits exactly what the serial call would have done at that moment. */
  lemma CommitRepresents(db: Db, s: Store, t: nat, x: Txn, kinds: string -> Metric)
    requires Represents(db, s, kinds) && Finished(db, x, kinds)
    ensures AllFit(s, x.call) && Represents(Committed(db, t, x), AfterReserve(s, x.call), kinds)
  {
    FinishedFits(db, s, x, kinds);
    CommitRows(db, s, x, kinds);
    CommitEventRows(db, s, x, kinds);
  }

  lemma CommitFrames(db: Db, t: nat, u: nat)
    requires t in db.active && u in db.active && t != u
    requires TxnOk(db, db.active[t]) && TxnOk(db, db.active[u]) && LocksDisjoint(db) && Separated(db)
    ensures TxnOk(Committed(db, t, db.active[t]), db.active[u])
  {
    var x, y := db.active[t], db.active[u];
    var db' := Committed(db, t, x);
    forall key | key in y.locks
      ensures (key in db.rows <==> key in db'.rows) && CommittedRow(db, key) == CommittedRow(db', key)
    {
      assert key !in x.locks;
    }
    TxnFramed(db, db', y);
  }

  lemma LogAppends(log: seq<Outcome>, o: Outcome)
    ensures Calls(log + [o]) == Calls(log) + [o.call]
    ensures Run(Calls(log + [o])) == AfterReserve(Run(Calls(log)), o.call)
    ensures LogAgrees(log + [o]) <==> LogAgrees(log) && (o.pass <==> AllFit(Run(Calls(log)), o.call))
  {
    assert (log + [o])[..|log|] == log;
    assert Calls(log + [o]) == Calls(log) + [o.call];
    assert (Calls(log) + [o.call])[..|log|] == Calls(log);
  }

  lemma CommitKeeps(db: Db, t: nat, kinds: string -> Metric)
    requires Inv(db, kinds) && Separated(db) && t in db.active && Finished(db, db.active[t], kinds)
    ensures Inv(Committed(db, t, db.active[t]), kinds)
  {
    var x := db.active[t];
    CommitRepresents(db, Run(Calls(db.log)), t, x, kinds);
    LogAppends(db.log, Outcome(x.call, true));
    forall u | u in Committed(db, t, x).active
      ensures TxnOk(Committed(db, t, x), db.active[u])
    {
      CommitFrames(db, t, u);
    }
  }

  /** A denial comes where the serial call denies. */
  lemma DenialIsSerial(db: Db, s: Store, x: Txn, c: Candidate, kinds: string -> Metric)
    requires Represents(db, s, kinds) && TxnOk(db, x) && GoodCall(x.call, kinds)
    requires x.i < |x.call.candidates| && c == x.call.candidates[x.i] && x.pc.Decide? &&
             x.current + c.increment > c.limit
    ensures !AllFit(s, x.call)
  {
    RecordedMatches(db, s, x, c.key, kinds);
    UsedMatches(db, s, c, kinds);
    assert !Fits(s, x.call.idem, c);
  }

  lemma RecordDenied(db: Db, call: Call, kinds: string -> Metric)
    requires Inv(db, kinds) && !AllFit(Run(Calls(db.log)), call)
    ensures Inv(db.(log := db.log + [Outcome(call, false)]), kinds)
  {
    var db' := db.(log := db.log + [Outcome(call, false)]);
    LogAppends(db.log, Outcome(call, false));
    forall u | u in db'.active
      ensures TxnOk(db', db'.active[u])
    {
      TxnFramed(db, db', db'.active[u]);
    }
  }

  /** And leaves the tables alone. */
  lemma DenyKeeps(db: Db, t: nat, c: Candidate, kinds: string -> Metric)
    requires Inv(db, kinds) && t in db.active && GoodCall(db.active[t].call, kinds)
    requires
      var x := db.active[t];
      x.i < |x.call.candidates| && c == x.call.candidates[x.i] && x.pc.Decide? && x.current + c.increment > c.limit
    ensures Inv(RolledBack(db, t).(log := db.log + [Outcome(db.active[t].call, false)]), kinds)
  {
    DenialIsSerial(db, Run(Calls(db.log)), db.active[t], c, kinds);
    RollbackKeeps(db, t, kinds);
    RecordDenied(RolledBack(db, t), db.active[t].call, kinds);
  }

  // ---- Every interleaving ----------------------------------------------------------------------

  /** The database after a schedule of steps, `None` if some step was not possible. */
  function Exec(steps: seq<Step>): Option<Db> {
    if steps == [] then Some(EMPTY)
    else
      match Exec(steps[..|steps| - 1])
      case None => None
      case Some(db) => Next(db, steps[|steps| - 1])
  }

  /** In every state on the way, running calls are well formed and overlapping keyed ones differ in key. */
  ghost predicate Admissible(steps: seq<Step>, kinds: string -> Metric) {
    forall n :: 0 <= n <= |steps| && Exec(steps[..n]).Some? ==>
      Separated(Exec(steps[..n]).value) && GoodActive(Exec(steps[..n]).value, kinds)
  }

  lemma NotLocked(db: Db, t: nat, key: string)
    requires !LockedByOther(db, t, key)
    ensures forall u :: u in db.active && u != t ==> key !in db.active[u].locks
  {
  }

  lemma LockKeeps(db: Db, t: nat, x: Txn, key: string, kinds: string -> Metric)
    requires Inv(db, kinds) && t in db.active && TxnOk(db, x)
    requires x.locks == db.active[t].locks || (x.locks == db.active[t].locks + {key} && !LockedByOther(db, t, key))
    ensures Inv(Put(db, t, x).value, kinds)
  {
    if !LockedByOther(db, t, key) {
      NotLocked(db, t, key);
    }
    PutKeeps(db, t, x, kinds);
  }

  /** Transaction `t` is about to issue a statement for candidate `c`. */
  ghost predicate Poised(db: Db, t: nat, c: Candidate, kinds: string -> Metric) {
    && Inv(db, kinds) && t in db.active && GoodCall(db.active[t].call, kinds)
    && db.active[t].i < |db.active[t].call.candidates| && c == db.active[t].call.candidates[db.active[t].i]
    && Statement(db, t, db.active[t]).Some?
  }

  /** A statement that moves to `x'`, locking at most `c`'s row. */
  lemma MoveKeeps(db: Db, t: nat, c: Candidate, x': Txn, kinds: string -> Metric)
    requires Poised(db, t, c, kinds) && Statement(db, t, db.active[t]) == Put(db, t, x')
    requires x'.call == db.active[t].call && x'.i == db.active[t].i && x'.events == db.active[t].events
    requires
      var x := db.active[t];
      && (x'.locks == x.locks || (x'.locks == x.locks + {c.key} && !LockedByOther(db, t, c.key)))
      && (x'.rows == x.rows || (c.key in x'.rows && c.key in x'.locks && x'.rows == x.rows[c.key := x'.rows[c.key]]))
    requires AtStatement(db, x', c)
    ensures Inv(Statement(db, t, db.active[t]).value, kinds)
  {
    StatementOk(db, db.active[t], x', c);
    LockKeeps(db, t, x', c.key, kinds);
  }

  lemma CheckEventKeeps(db: Db, t: nat, c: Candidate, kinds: string -> Metric)
    requires Poised(db, t, c, kinds) && db.active[t].pc.CheckEvent?
    ensures Inv(Statement(db, t, db.active[t]).value, kinds)
  {
    var x := db.active[t];
    if x.call.idem != "" && (x.call.idem, c.key) in db.events + x.events {
      SkipOk(db, x, c);
      LockKeeps(db, t, x.(i := x.i + 1), c.key, kinds);
    } else {
      MoveKeeps(db, t, c, x.(pc := Upsert), kinds);
    }
  }

  lemma UpsertKeeps(db: Db, t: nat, c: Candidate, kinds: string -> Metric)
    requires Poised(db, t, c, kinds) && db.active[t].pc.Upsert?
    ensures Inv(Statement(db, t, db.active[t]).value, kinds)
  {
    var x := db.active[t];
    MoveKeeps(db, t, c,
      if Visible(db, x, c.key) then x.(pc := LockRow)
      else x.(pc := LockRow, rows := x.rows[c.key := ZERO], locks := x.locks + {c.key}), kinds);
  }

  lemma LockRowKeeps(db: Db, t: nat, c: Candidate, kinds: string -> Metric)
    requires Poised(db, t, c, kinds) && db.active[t].pc.LockRow?
    ensures Inv(Statement(db, t, db.active[t]).value, kinds)
  {
    var x := db.active[t];
    assert AtStatement(db, x, c);
    MoveKeeps(db, t, c, x.(pc := Decide, current := Used(Seen(db, x, c.key), c.metric), locks := x.locks + {c.key}),
      kinds);
  }

  lemma DenyStatement(db: Db, t: nat, x: Txn, c: Candidate)
    requires x.i < |x.call.candidates| && c == x.call.candidates[x.i] && x.pc.Decide? &&
             x.current + c.increment > c.limit
    ensures Statement(db, t, x) == Some(RolledBack(db, t).(log := db.log + [Outcome(x.call, false)]))
  {
  }

  lemma GrantKeeps(db: Db, t: nat, c: Candidate, kinds: string -> Metric)
    requires Poised(db, t, c, kinds) && db.active[t].pc.Decide? && db.active[t].current + c.increment <= c.limit
    ensures Inv(Statement(db, t, db.active[t]).value, kinds)
  {
    var x := db.active[t];
    assert AtStatement(db, x, c);
    MoveKeeps(db, t, c, x.(pc := Write), kinds);
  }

  lemma WriteKeeps(db: Db, t: nat, c: Candidate, kinds: string -> Metric)
    requires Poised(db, t, c, kinds) && db.active[t].pc.Write?
    ensures Inv(Statement(db, t, db.active[t]).value, kinds)
  {
    var x := db.active[t];
    assert AtStatement(db, x, c);
    MoveKeeps(db, t, c, x.(pc := InsertEvent, rows := x.rows[c.key := Bump(Seen(db, x, c.key), c)]), kinds);
  }

  lemma InsertEventKeeps(db: Db, t: nat, c: Candidate, kinds: string -> Metric)
    requires Poised(db, t, c, kinds) && db.active[t].pc.InsertEvent?
    ensures Inv(Statement(db, t, db.active[t]).value, kinds)
  {
    var x := db.active[t];
    var events := x.events + if x.call.idem == "" then {} else {(x.call.idem, c.key)};
    InsertOk(db, x, c);
    LockKeeps(db, t, x.(pc := CheckEvent, i := x.i + 1, events := events), c.key, kinds);
  }

  lemma StepKeeps(db: Db, step: Step, kinds: string -> Metric)
    requires Inv(db, kinds) && Separated(db) && GoodActive(db, kinds) && Next(db, step).Some?
    ensures Inv(Next(db, step).value, kinds)
  {
    match step
    case Begin(t, call) =>
      StartOk(db, call);
      PutKeeps(db, t, Start(call), kinds);
    case Abort(t) => RollbackKeeps(db, t, kinds);
    case Advance(t) =>
      var x := db.active[t];
      if x.i >= |x.call.candidates| {
        CommitKeeps(db, t, kinds);
      } else {
        var c := x.call.candidates[x.i];
        match x.pc
        case CheckEvent => CheckEventKeeps(db, t, c, kinds);
        case Upsert => UpsertKeeps(db, t, c, kinds);
        case LockRow => LockRowKeeps(db, t, c, kinds);
        case Decide =>
          if x.current + c.increment <= c.limit {
            GrantKeeps(db, t, c, kinds);
          } else {
            DenyStatement(db, t, x, c);
            DenyKeeps(db, t, c, kinds);
          }
        case Write => WriteKeeps(db, t, c, kinds);
        case InsertEvent => InsertEventKeeps(db, t, c, kinds);
      }
  }

  /**
   Serializability: after any schedule the committed tables are those of the in-memory store run
   serially on the finished calls in the order they finished, and each verdict is the serial one.
   */
  lemma {:induction false} InterleavingsAreSerial(steps: seq<Step>, kinds: string -> Metric)
    requires Exec(steps).Some? && Admissible(steps, kinds)
    ensures Inv(Exec(steps).value, kinds)
  {
    if steps != [] {
      var n := |steps| - 1;
      assert forall k :: 0 <= k <= n ==> steps[..n][..k] == steps[..k];
      InterleavingsAreSerial(steps[..n], kinds);
      StepKeeps(Exec(steps[..n]).value, steps[n], kinds);
    }
  }

  /** The calls that committed, in commit order. */
  function CommittedCalls(log: seq<Outcome>): seq<Call> {
    if log == [] then []
    else CommittedCalls(log[..|log| - 1]) + if log[|log| - 1].pass then [log[|log| - 1].call] else []
  }

  lemma CommittedAppends(log: seq<Outcome>, o: Outcome)
    ensures CommittedCalls(log + [o]) == CommittedCalls(log) + if o.pass then [o.call] else []
  {
    assert (log + [o])[..|log|] == log;
  }

  lemma OutcomeDropsOut(log: seq<Outcome>, o: Outcome)
    requires Run(CommittedCalls(log)) == Run(Calls(log)) && (o.pass <==> AllFit(Run(Calls(log)), o.call))
    ensures Run(CommittedCalls(log + [o])) == Run(Calls(log + [o]))
  {
    LogAppends(log, o);
    CommittedAppends(log, o);
    if o.pass {
      RunAppends(CommittedCalls(log), o.call);
    } else {
      assert CommittedCalls(log) + [] == CommittedCalls(log);
    }
  }

  lemma {:induction false} DeniedCallsDropOut(log: seq<Outcome>)
    requires LogAgrees(log)
    ensures Run(CommittedCalls(log)) == Run(Calls(log))
  {
    if log != [] {
      var before, last := log[..|log| - 1], log[|log| - 1];
      assert log == before + [last];
      DeniedCallsDropOut(before);
      OutcomeDropsOut(before, last);
    }
  }

  /** The committed tables are the serial run of the committed transactions in commit order. */
  lemma CommittedIsSerialRun(steps: seq<Step>, kinds: string -> Metric)
    requires Exec(steps).Some? && Admissible(steps, kinds)
    ensures Represents(Exec(steps).value, Run(CommittedCalls(Exec(steps).value.log)), kinds)
  {
    InterleavingsAreSerial(steps, kinds);
    DeniedCallsDropOut(Exec(steps).value.log);
  }

  /** With one fixed limit per counter key, no schedule commits a counter above its limit. */
  lemma NoOverspend(steps: seq<Step>, kinds: string -> Metric, limits: string -> int)
    requires Exec(steps).Some? && Admissible(steps, kinds)
    requires FixedLimits(Calls(Exec(steps).value.log), limits)
    ensures forall key :: key in Exec(steps).value.rows ==> Used(Exec(steps).value.rows[key], kinds(key)) <= limits(key)
  {
    InterleavingsAreSerial(steps, kinds);
    RunWithinLimits(Calls(Exec(steps).value.log), limits);
  }

  lemma LogGrows(db: Db, step: Step)
    requires Next(db, step).Some?
    ensures Next(db, step).value.log == db.log
         || exists t, pass :: t in db.active && Next(db, step).value.log == db.log + [Outcome(db.active[t].call, pass)]
  {
    if step.Advance? {
      var x := db.active[step.t];
      assert x == db.active[step.t];
    }
  }

  lemma {:induction false} LoggedCallsGood(steps: seq<Step>, kinds: string -> Metric)
    requires Exec(steps).Some? && Admissible(steps, kinds)
    ensures forall call :: call in Calls(Exec(steps).value.log) ==> GoodCall(call, kinds)
  {
    if steps != [] {
      var n := |steps| - 1;
      assert forall k :: 0 <= k <= n ==> steps[..n][..k] == steps[..k];
      LoggedCallsGood(steps[..n], kinds);
      var db := Exec(steps[..n]).value;
      LogGrows(db, steps[n]);
      assert GoodActive(db, kinds);
      if t, pass :| t in db.active && Next(db, steps[n]).value.log == db.log + [Outcome(db.active[t].call, pass)] {
        LogAppends(db.log, Outcome(db.active[t].call, pass));
      }
    }
  }

  /** Every committed counter is the sum of what was applied to it, and a keyed event was applied once if recorded. */
  lemma SchedulesCountOnce(steps: seq<Step>, kinds: string -> Metric, idem: string, key: string)
    requires Exec(steps).Some? && Admissible(steps, kinds) && idem != "" && |key| == KEY_LENGTH
    ensures
      var db := Exec(steps).value;
      && Used(CommittedRow(db, key), kinds(key)) == LedgerSum(Ledger(Calls(db.log)), key)
      && Counted(Ledger(Calls(db.log)), idem, key) == if (idem, key) in db.events then 1 else 0
  {
    var db := Exec(steps).value;
    InterleavingsAreSerial(steps, kinds);
    LoggedCallsGood(steps, kinds);
    CountersAreSums(Calls(db.log), key);
    EventsCountOnce(Calls(db.log), idem, key);
    RecordedMatches(db, Run(Calls(db.log)), Start(Call([], idem)), key, kinds);
  }
}
