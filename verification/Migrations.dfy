/** The task store's migrator: one transaction per pending migration, a ledger row in the same one. */
module Migrations {
  import opened Common

  datatype Migration = Migration(version: int, ddl: string)

  /** `schema` lists the committed DDL in the order it was applied. */
  datatype Db = Db(schema: seq<Migration>, ledger: set<int>)

  predicate Ascending(ms: seq<Migration>) {
    forall i, j :: 0 <= i < j < |ms| ==> ms[i].version < ms[j].version
  }

  predicate DistinctVersions(ms: seq<Migration>) {
    forall i, j :: 0 <= i < j < |ms| ==> ms[i].version != ms[j].version
  }

  function Insert(m: Migration, ms: seq<Migration>): seq<Migration> {
    if ms == [] || m.version <= ms[0].version then [m] + ms else [ms[0]] + Insert(m, ms[1..])
  }

  function Sorted(ms: seq<Migration>): seq<Migration> {
    if ms == [] then [] else Insert(ms[0], Sorted(ms[1..]))
  }

  function Missing(ms: seq<Migration>, ledger: set<int>): seq<Migration> {
    if ms == [] then []
    else if ms[0].version in ledger then Missing(ms[1..], ledger)
    else [ms[0]] + Missing(ms[1..], ledger)
  }

  /** What a run has to do, in order. */
  function Pending(ms: seq<Migration>, ledger: set<int>): seq<Migration> {
    Missing(Sorted(ms), ledger)
  }

  function Versions(ms: seq<Migration>): set<int> {
    set m | m in ms :: m.version
  }

  function VersionList(ms: seq<Migration>): seq<int> {
    MapSeq((m: Migration) => m.version, ms)
  }

  function WithApplied(db: Db, ms: seq<Migration>): Db {
    Db(db.schema + ms, db.ledger + Versions(ms))
  }

  /**
   How many migrations commit when the connection fails after `statements` statements; `lost` says that
   if the next one is a COMMIT it takes effect and only its acknowledgement is lost.
   */
  function Committed(pending: seq<Migration>, statements: nat, lost: bool): (n: nat)
    ensures n <= |pending|
  {
    if statements < 2 then 0
    else if (statements - 2) / 4 >= |pending| then |pending|
    else (statements - 2) / 4 + if lost && (statements - 2) % 4 == 3 then 1 else 0
  }

  class TaskDatabase {
    var schema: seq<Migration>
    var ledger: set<int>

    constructor ()
      ensures Contents() == Db([], {})
    {
      schema, ledger := [], {};
    }

    function Contents(): Db
      reads this
    {
      Db(schema, ledger)
    }

    /** The database answers `statements` statements and then fails; `None` is the error a caller sees. */
    method RunTaskStoreMigrations(migrations: seq<Migration>, statements: nat, lost: bool)
      returns (applied: Option<seq<int>>)
      modifies this
      ensures
        var pending := Pending(migrations, old(ledger));
        var n := Committed(pending, statements, lost);
        && Contents() == WithApplied(old(Contents()), pending[..n])
        && applied == if statements >= 2 + 4 * |pending| then Some(VersionList(pending)) else None
    {
      if statements < 2 {
        assert schema + [] == schema && ledger + Versions([]) == ledger;
        return None;
      }
      var left := statements - 2;
      var pending := Pending(migrations, ledger);
      var appliedNow := [];
      ghost var before := Contents();
      assert schema + [] == schema && ledger + Versions([]) == ledger;
      for n := 0 to |pending|
        invariant left == statements - 2 - 4 * n
        invariant Contents() == WithApplied(before, pending[..n])
        invariant appliedNow == VersionList(pending[..n])
      {
        AppliedNext(before, pending, n);
        var committed := ApplyOne(pending[n], left, lost);
        if left < 4 {
          return None;
        }
        left := left - 4;
        appliedNow := appliedNow + [pending[n].version];
      }
      assert pending[..|pending|] == pending;
      return Some(appliedNow);
    }

    /** BEGIN, the DDL, the ledger row, COMMIT; anything that fails before the commit is rolled back. */
    method ApplyOne(m: Migration, left: nat, lost: bool) returns (committed: bool)
      modifies this
      ensures committed <==> left >= 4 || (left == 3 && lost)
      ensures Contents() == if committed then Db(old(schema) + [m], old(ledger) + {m.version}) else old(Contents())
    {
      var savedSchema, savedLedger := schema, ledger;
      if left >= 2 { schema := schema + [m]; }
      if left >= 3 { ledger := ledger + {m.version}; }
      committed := left >= 4 || (left == 3 && lost);
      if !committed {
        schema, ledger := savedSchema, savedLedger;
      }
    }
  }

  lemma AppliedNext(db: Db, pending: seq<Migration>, n: nat)
    requires n < |pending|
    ensures
      var part := WithApplied(db, pending[..n]);
      WithApplied(db, pending[..n + 1]) == Db(part.schema + [pending[n]], part.ledger + {pending[n].version})
    ensures VersionList(pending[..n + 1]) == VersionList(pending[..n]) + [pending[n].version]
  {
    assert pending[..n + 1] == pending[..n] + [pending[n]];
    assert Versions(pending[..n + 1]) == Versions(pending[..n]) + {pending[n].version};
  }

  // ---- Runs ------------------------------------------------------------------------------------

  /** One run: the release's migrations in any order, and where the connection failed. */
  datatype Run = Run(migrations: seq<Migration>, statements: nat, lost: bool)

  function AfterRun(db: Db, run: Run): Db {
    var pending := Pending(run.migrations, db.ledger);
    WithApplied(db, pending[..Committed(pending, run.statements, run.lost)])
  }

  function After(runs: seq<Run>): Db {
    if runs == [] then Db([], {}) else AfterRun(After(runs[..|runs| - 1]), runs[|runs| - 1])
  }

  lemma {:induction false} InsertMembers(m: Migration, ms: seq<Migration>, x: Migration)
    ensures x in Insert(m, ms) <==> x == m || x in ms
  {
    if ms != [] && m.version > ms[0].version {
      InsertMembers(m, ms[1..], x);
      assert ms == [ms[0]] + ms[1..];
    }
  }

  lemma {:induction false} SortedMembers(ms: seq<Migration>, x: Migration)
    ensures x in Sorted(ms) <==> x in ms
  {
    if ms != [] {
      SortedMembers(ms[1..], x);
      InsertMembers(ms[0], Sorted(ms[1..]), x);
      assert ms == [ms[0]] + ms[1..];
    }
  }

  lemma {:induction false} InsertAscends(m: Migration, ms: seq<Migration>)
    requires Ascending(ms) && forall x :: x in ms ==> x.version != m.version
    ensures Ascending(Insert(m, ms))
  {
    if ms != [] && m.version > ms[0].version {
      InsertAscends(m, ms[1..]);
      var rest := Insert(m, ms[1..]);
      forall i | 0 <= i < |rest|
        ensures ms[0].version < rest[i].version
      {
        InsertMembers(m, ms[1..], rest[i]);
      }
    } else if ms != [] {
      assert ms[0] in ms;
    }
  }

  lemma {:induction false} SortedAscends(ms: seq<Migration>)
    requires DistinctVersions(ms)
    ensures Ascending(Sorted(ms))
  {
    if ms != [] {
      SortedAscends(ms[1..]);
      forall x | x in Sorted(ms[1..])
        ensures x.version != ms[0].version
      {
        SortedMembers(ms[1..], x);
      }
      InsertAscends(ms[0], Sorted(ms[1..]));
    }
  }

  lemma {:induction false} MissingMembers(ms: seq<Migration>, ledger: set<int>, x: Migration)
    ensures x in Missing(ms, ledger) <==> x in ms && x.version !in ledger
  {
    if ms != [] {
      MissingMembers(ms[1..], ledger, x);
      assert ms == [ms[0]] + ms[1..];
    }
  }

  lemma {:induction false} MissingAscends(ms: seq<Migration>, ledger: set<int>)
    requires Ascending(ms)
    ensures Ascending(Missing(ms, ledger))
  {
    if ms != [] {
      MissingAscends(ms[1..], ledger);
      var rest := Missing(ms[1..], ledger);
      forall i | 0 <= i < |rest|
        ensures ms[0].version < rest[i].version
      {
        MissingMembers(ms[1..], ledger, rest[i]);
      }
    }
  }

  /** A run's pending migrations are ascending and exactly those the ledger does not list. */
  lemma PendingExactly(ms: seq<Migration>, ledger: set<int>)
    requires DistinctVersions(ms)
    ensures Ascending(Pending(ms, ledger))
    ensures forall x :: x in Pending(ms, ledger) <==> x in ms && x.version !in ledger
  {
    SortedAscends(ms);
    MissingAscends(Sorted(ms), ledger);
    forall x
      ensures x in Pending(ms, ledger) <==> x in ms && x.version !in ledger
    {
      MissingMembers(Sorted(ms), ledger, x);
      SortedMembers(ms, x);
    }
  }

  /** Every ledger version has been applied once, and nothing else has. */
  ghost predicate AppliedOnce(db: Db) {
    DistinctVersions(db.schema) && Versions(db.schema) == db.ledger
  }

  lemma {:induction false} EachAppliedOnce(runs: seq<Run>)
    requires forall run :: run in runs ==> DistinctVersions(run.migrations)
    ensures AppliedOnce(After(runs))
  {
    if runs != [] {
      var last := runs[|runs| - 1];
      assert last in runs;
      EachAppliedOnce(runs[..|runs| - 1]);
      RunAppliesOnce(After(runs[..|runs| - 1]), last);
    }
  }

  lemma RunAppliesOnce(db: Db, run: Run)
    requires AppliedOnce(db) && DistinctVersions(run.migrations)
    ensures AppliedOnce(AfterRun(db, run))
  {
    var pending := Pending(run.migrations, db.ledger);
    var now := pending[..Committed(pending, run.statements, run.lost)];
    PendingExactly(run.migrations, db.ledger);
    assert forall m :: m in db.schema + now <==> m in db.schema || m in now;
    forall i, j | 0 <= i < |db.schema| && 0 <= j < |now|
      ensures db.schema[i].version != now[j].version
    {
      assert db.schema[i] in db.schema && now[j] in pending;
    }
  }

  // ---- Append-only releases --------------------------------------------------------------------

  /** Every release's list is, in version order, a beginning of the full history. */
  ghost predicate AppendOnly(runs: seq<Run>, history: seq<Migration>) {
    && Ascending(history)
    && forall run :: run in runs ==> Sorted(run.migrations) <= history
  }

  lemma {:induction false} MissingRest(history: seq<Migration>, k: nat)
    requires Ascending(history) && k <= |history|
    ensures Missing(history, Versions(history[..k])) == history[k..]
  {
    if k == 0 {
      NoneMissing(history, Versions(history[..0]));
    } else {
      assert history[0] in history[..k];
      assert history[1..][..k - 1] == history[..k][1..];
      MissingRest(history[1..], k - 1);
      IgnoresSmaller(history[1..], Versions(history[..k]), Versions(history[1..][..k - 1]));
    }
  }

  lemma {:induction false} NoneMissing(ms: seq<Migration>, ledger: set<int>)
    requires forall m :: m in ms ==> m.version !in ledger
    ensures Missing(ms, ledger) == ms
  {
    if ms != [] {
      assert ms[0] in ms;
      NoneMissing(ms[1..], ledger);
      assert ms == [ms[0]] + ms[1..];
    }
  }

  lemma {:induction false} IgnoresSmaller(ms: seq<Migration>, a: set<int>, b: set<int>)
    requires forall m :: m in ms ==> (m.version in a <==> m.version in b)
    ensures Missing(ms, a) == Missing(ms, b)
  {
    if ms != [] {
      assert ms[0] in ms;
      IgnoresSmaller(ms[1..], a, b);
    }
  }

  lemma {:induction false} NoneLeft(ms: seq<Migration>, ledger: set<int>)
    requires forall m :: m in ms ==> m.version in ledger
    ensures Missing(ms, ledger) == []
  {
    if ms != [] {
      assert ms[0] in ms;
      NoneLeft(ms[1..], ledger);
    }
  }

  lemma PendingRest(ms: seq<Migration>, history: seq<Migration>, k: nat)
    requires Ascending(history) && Sorted(ms) <= history && k <= |history|
    ensures Pending(ms, Versions(history[..k])) == if |Sorted(ms)| <= k then [] else history[k..|Sorted(ms)|]
  {
    var p := |Sorted(ms)|;
    assert Sorted(ms) == history[..p];
    if p <= k {
      assert forall m :: m in history[..p] ==> m in history[..k];
      NoneLeft(history[..p], Versions(history[..k]));
    } else {
      assert history[..p][..k] == history[..k] && history[..p][k..] == history[k..p];
      MissingRest(history[..p], k);
    }
  }

  /** A database to which the first `k` migrations of the history have been applied. */
  function Prefix(history: seq<Migration>, k: nat): Db
    requires k <= |history|
  {
    Db(history[..k], Versions(history[..k]))
  }

  lemma RunExtends(history: seq<Migration>, k: nat, n: nat)
    requires k + n <= |history|
    ensures WithApplied(Prefix(history, k), history[k..k + n]) == Prefix(history, k + n)
  {
    assert history[..k + n] == history[..k] + history[k..k + n];
    assert Versions(history[..k + n]) == Versions(history[..k]) + Versions(history[k..k + n]);
  }

  lemma SliceOfSlice(ms: seq<Migration>, from: nat, to: nat, n: nat)
    requires from + n <= to <= |ms|
    ensures ms[from..to][..n] == ms[from..from + n]
  {
  }

  lemma PartFollows(history: seq<Migration>, k: nat, pending: seq<Migration>, to: nat, n: nat)
    requires k <= |history| && to <= |history| && n <= |pending|
    requires pending == if to <= k then [] else history[k..to]
    ensures k + n <= |history| && WithApplied(Prefix(history, k), pending[..n]) == Prefix(history, k + n)
  {
    RunExtends(history, k, n);
    if n > 0 { SliceOfSlice(history, k, to, n); } else { assert history[k..k] == pending[..0]; }
  }

  lemma RunFollows(history: seq<Migration>, k: nat, run: Run) returns (next: nat)
    requires Ascending(history) && Sorted(run.migrations) <= history && k <= |history|
    ensures next <= |history| && AfterRun(Prefix(history, k), run) == Prefix(history, next)
  {
    PendingRest(run.migrations, history, k);
    var pending := Pending(run.migrations, Versions(history[..k]));
    var n := Committed(pending, run.statements, run.lost);
    PartFollows(history, k, pending, |Sorted(run.migrations)|, n);
    next := k + n;
  }

  /** After any runs that may crash anywhere, the schema is the ledger's migrations in ascending order. */
  lemma {:induction false} SchemaFollowsLedger(runs: seq<Run>, history: seq<Migration>) returns (k: nat)
    requires AppendOnly(runs, history)
    ensures k <= |history| && After(runs) == Prefix(history, k)
    ensures Ascending(After(runs).schema)
  {
    if runs == [] {
      k := 0;
    } else {
      var last := runs[|runs| - 1];
      assert last in runs;
      var before := SchemaFollowsLedger(runs[..|runs| - 1], history);
      k := RunFollows(history, before, last);
    }
  }

  /** A run that completes leaves the ledger full, and a further run, cut off or not, applies nothing. */
  lemma CompleteRunLeavesNothing(db: Db, ms: seq<Migration>, statements: nat, lost: bool, again: Run)
    requires DistinctVersions(ms) && statements >= 2 + 4 * |Pending(ms, db.ledger)| && again.migrations == ms
    ensures
      var done := AfterRun(db, Run(ms, statements, lost));
      && (forall m :: m in ms ==> m.version in done.ledger)
      && Pending(ms, done.ledger) == []
      && AfterRun(done, again) == done
  {
    var pending := Pending(ms, db.ledger);
    var done := AfterRun(db, Run(ms, statements, lost));
    assert pending[..|pending|] == pending;
    PendingExactly(ms, db.ledger);
    forall m | m in ms
      ensures m.version in done.ledger
    {
      if m.version !in db.ledger { assert m in pending; }
    }
    forall m | m in Sorted(ms)
      ensures m.version in done.ledger
    {
      SortedMembers(ms, m);
    }
    NoneLeft(Sorted(ms), done.ledger);
    assert done.schema + [] == done.schema && done.ledger + Versions([]) == done.ledger;
  }

  /** A release that adds a version below one already applied is where the order is lost, and nowhere else. */
  lemma OrderKeptExactly(db: Db, ms: seq<Migration>, statements: nat, lost: bool)
    requires AppliedOnce(db) && Ascending(db.schema) && DistinctVersions(ms)
    ensures
      var n := Committed(Pending(ms, db.ledger), statements, lost);
      Ascending(AfterRun(db, Run(ms, statements, lost)).schema)
      <==> n == 0 || forall v :: v in db.ledger ==> v < Pending(ms, db.ledger)[0].version
  {
    var pending := Pending(ms, db.ledger);
    var n := Committed(pending, statements, lost);
    PendingExactly(ms, db.ledger);
    var schema := db.schema + pending[..n];
    assert AfterRun(db, Run(ms, statements, lost)).schema == schema;
    if n > 0 {
      AppendedAscends(db.schema, pending[..n]);
      assert (forall v :: v in db.ledger ==> v < pending[0].version)
          <==> (forall m :: m in db.schema ==> m.version < pending[0].version) by {
        assert forall m :: m in db.schema ==> m.version in Versions(db.schema);
      }
    } else {
      assert schema == db.schema;
    }
  }

  lemma AppendedAscends(a: seq<Migration>, b: seq<Migration>)
    requires Ascending(a) && Ascending(b) && b != []
    ensures Ascending(a + b) <==> forall m :: m in a ==> m.version < b[0].version
  {
    var ab := a + b;
    if Ascending(ab) {
      forall i | 0 <= i < |a|
        ensures a[i].version < b[0].version
      {
        assert ab[i] == a[i] && ab[|a|] == b[0];
      }
    }
    if forall m :: m in a ==> m.version < b[0].version {
      forall i, j | 0 <= i < j < |ab|
        ensures ab[i].version < ab[j].version
      {
        if i < |a| { assert ab[i] in a; }
      }
    }
  }
}
