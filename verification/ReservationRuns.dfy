/** What holds of the in-memory store after any sequence of reservations. */
module ReservationRuns {
  import opened Common
  import opened Reservations

  /** The store after a sequence of calls, from empty. */
  function Run(calls: seq<Call>): Store {
    if calls == [] then Store(map[], {}) else AfterReserve(Run(calls[..|calls| - 1]), calls[|calls| - 1])
  }

  /** One increment that was really applied. */
  datatype Entry = Entry(idem: string, key: string, increment: int)

  function Entries(due: seq<Candidate>, idem: string): seq<Entry> {
    if due == [] then []
    else
      var last := due[|due| - 1];
      Entries(due[..|due| - 1], idem) + [Entry(idem, last.key, last.increment)]
  }

  /** What one call adds: nothing when it is denied, its non-replayed candidates when it passes. */
  function Applied(s: Store, call: Call): seq<Candidate> {
    if AllFit(s, call) then Due(s, call.candidates, call.idem) else []
  }

  /** Every increment applied by the accepted, non-replayed part of a run. */
  function Ledger(calls: seq<Call>): seq<Entry> {
    if calls == [] then []
    else
      var before, last := calls[..|calls| - 1], calls[|calls| - 1];
      Ledger(before) + Entries(Applied(Run(before), last), last.idem)
  }

  function LedgerSum(ledger: seq<Entry>, key: string): int {
    if ledger == [] then 0
    else
      var last := ledger[|ledger| - 1];
      LedgerSum(ledger[..|ledger| - 1], key) + if last.key == key then last.increment else 0
  }

  /** How often one idempotency key was counted in one counter. */
  function Counted(ledger: seq<Entry>, idem: string, key: string): nat {
    if ledger == [] then 0
    else
      var last := ledger[|ledger| - 1];
      Counted(ledger[..|ledger| - 1], idem, key) + if last.idem == idem && last.key == key then 1 else 0
  }

  /** Distinct counter keys of the hashed form in every call. */
  ghost predicate WellFormedCalls(calls: seq<Call>) {
    forall call :: call in calls ==> DistinctKeys(call.candidates) && KeysWellFormed(call.candidates)
  }

  lemma {:induction false} SumConcat(a: seq<Entry>, b: seq<Entry>, key: string)
    ensures LedgerSum(a + b, key) == LedgerSum(a, key) + LedgerSum(b, key)
  {
    if b == [] {
      assert a + b == a;
    } else {
      assert (a + b)[..|a + b| - 1] == a + b[..|b| - 1];
      SumConcat(a, b[..|b| - 1], key);
    }
  }

  lemma {:induction false} CountedConcat(a: seq<Entry>, b: seq<Entry>, idem: string, key: string)
    ensures Counted(a + b, idem, key) == Counted(a, idem, key) + Counted(b, idem, key)
  {
    if b == [] {
      assert a + b == a;
    } else {
      assert (a + b)[..|a + b| - 1] == a + b[..|b| - 1];
      CountedConcat(a, b[..|b| - 1], idem, key);
    }
  }

  lemma {:induction false} EntriesSum(due: seq<Candidate>, idem: string, key: string)
    ensures LedgerSum(Entries(due, idem), key) == SumFor(due, key)
  {
    if due != [] {
      EntriesSum(due[..|due| - 1], idem, key);
      var es := Entries(due, idem);
      assert es[..|es| - 1] == Entries(due[..|due| - 1], idem);
    }
  }

  lemma {:induction false} EntriesCounted(due: seq<Candidate>, idem: string, idem': string, key: string)
    requires DistinctKeys(due)
    ensures Counted(Entries(due, idem), idem', key) == if idem == idem' && Names(due, key) then 1 else 0
  {
    if due != [] {
      var rest := due[..|due| - 1];
      LastIsNew(due);
      NamesLast(due, key);
      EntriesCounted(rest, idem, idem', key);
      var es := Entries(due, idem);
      assert es[..|es| - 1] == Entries(rest, idem);
    }
  }

  lemma AppliedDistinct(s: Store, call: Call)
    requires DistinctKeys(call.candidates)
    ensures DistinctKeys(Applied(s, call))
  {
    DueDistinct(s, call.candidates, call.idem);
  }

  /** Each counter is the sum of the increments the ledger shows on it. */
  lemma {:induction false} CountersAreSums(calls: seq<Call>, key: string)
    requires WellFormedCalls(calls)
    ensures Counter(Run(calls).counters, key) == LedgerSum(Ledger(calls), key)
  {
    if calls != [] {
      var before, last := calls[..|calls| - 1], calls[|calls| - 1];
      var s := Run(before);
      assert last in calls;
      CountersAreSums(before, key);
      AppliedDistinct(s, last);
      RaiseAddsSums(s.counters, Applied(s, last), key);
      EntriesSum(Applied(s, last), last.idem, key);
      SumConcat(Ledger(before), Entries(Applied(s, last), last.idem), key);
    }
  }

  lemma NamesMember(cs: seq<Candidate>, key: string)
    ensures Names(cs, key) <==> exists c :: c in cs && c.key == key
  {
    if c :| c in cs && c.key == key {
      var i :| 0 <= i < |cs| && cs[i] == c;
      assert cs[i].key == key;
    }
  }

  /** One call records the event of (idem, key) exactly when it was there or the call applied it. */
  lemma CallRecords(s: Store, call: Call, idem: string, key: string)
    requires idem != "" && |key| == KEY_LENGTH && KeysWellFormed(call.candidates)
    ensures EventKey(idem, key) in AfterReserve(s, call).events
            <==> EventKey(idem, key) in s.events || (call.idem == idem && Names(Applied(s, call), key))
    ensures call.idem == idem && EventKey(idem, key) in s.events ==> !Names(Applied(s, call), key)
  {
    var due, e := Applied(s, call), EventKey(idem, key);
    NamesMember(due, key);
    RecordMembers(s.events, due, call.idem, e);
    forall c | c in due
      ensures e == EventKey(call.idem, c.key) <==> idem == call.idem && key == c.key
    {
      EventKeyInjective(idem, key, call.idem, c.key);
    }
  }

  /** A keyed event is counted once if it is recorded and never otherwise. */
  lemma {:induction false} EventsCountOnce(calls: seq<Call>, idem: string, key: string)
    requires WellFormedCalls(calls) && idem != "" && |key| == KEY_LENGTH
    ensures Counted(Ledger(calls), idem, key) == if EventKey(idem, key) in Run(calls).events then 1 else 0
  {
    if calls != [] {
      var before, last := calls[..|calls| - 1], calls[|calls| - 1];
      var s := Run(before);
      assert last in calls;
      EventsCountOnce(before, idem, key);
      AppliedDistinct(s, last);
      CallRecords(s, last, idem, key);
      EntriesCounted(Applied(s, last), last.idem, idem, key);
      CountedConcat(Ledger(before), Entries(Applied(s, last), last.idem), idem, key);
    }
  }

  /** The limit a counter key carries never changes over the run. */
  ghost predicate FixedLimits(calls: seq<Call>, limits: string -> int) {
    forall call, c :: call in calls && c in call.candidates ==> c.limit == limits(c.key)
  }

  ghost predicate WithinLimits(counters: map<string, int>, limits: string -> int) {
    forall key :: key in counters ==> counters[key] <= limits(key)
  }

  lemma {:induction false} RaiseWithin(counters: map<string, int>, due: seq<Candidate>, limits: string -> int)
    requires WithinLimits(counters, limits)
    requires forall c :: c in due ==> Counter(counters, c.key) + c.increment <= limits(c.key)
    ensures WithinLimits(Raise(counters, due), limits)
  {
    if due != [] {
      assert due[|due| - 1] in due;
      RaiseWithin(counters, due[..|due| - 1], limits);
    }
  }

  /** With one fixed limit per counter key, no stored counter ever exceeds it. */
  lemma {:induction false} RunWithinLimits(calls: seq<Call>, limits: string -> int)
    requires FixedLimits(calls, limits)
    ensures WithinLimits(Run(calls).counters, limits)
  {
    if calls != [] {
      var before, last := calls[..|calls| - 1], calls[|calls| - 1];
      var s := Run(before);
      assert last in calls;
      RunWithinLimits(before, limits);
      RaiseWithin(s.counters, Applied(s, last), limits);
    }
  }

  /** A denied call changes neither counters nor events, and adds nothing to the ledger. */
  lemma DeniedChangesNothing(calls: seq<Call>, call: Call)
    requires !AllFit(Run(calls), call)
    ensures Run(calls + [call]) == Run(calls) && Ledger(calls + [call]) == Ledger(calls)
  {
    assert (calls + [call])[..|calls|] == calls;
  }

  lemma {:induction false} NothingDue(s: Store, cs: seq<Candidate>, idem: string)
    requires forall c :: c in cs ==> IsReplay(s, idem, c.key)
    ensures Due(s, cs, idem) == []
  {
    if cs != [] {
      assert cs[|cs| - 1] in cs;
      NothingDue(s, cs[..|cs| - 1], idem);
    }
  }

  lemma RecordedByCall(s: Store, call: Call, c: Candidate)
    requires call.idem != "" && KeysWellFormed(call.candidates) && AllFit(s, call) && c in call.candidates
    ensures IsReplay(AfterReserve(s, call), call.idem, c.key)
  {
    CallRecords(s, call, call.idem, c.key);
    NamesMember(Due(s, call.candidates, call.idem), c.key);
  }

  /** Making a passed keyed call again passes and changes nothing. */
  lemma ReplayChangesNothing(s: Store, call: Call)
    requires call.idem != "" && KeysWellFormed(call.candidates) && AllFit(s, call)
    ensures AllFit(AfterReserve(s, call), call) && Applied(AfterReserve(s, call), call) == []
    ensures AfterReserve(AfterReserve(s, call), call) == AfterReserve(s, call)
  {
    var s' := AfterReserve(s, call);
    forall c | c in call.candidates
      ensures IsReplay(s', call.idem, c.key)
    {
      RecordedByCall(s, call, c);
    }
    NothingDue(s', call.candidates, call.idem);
  }

  lemma RunAppends(calls: seq<Call>, call: Call)
    ensures Run(calls + [call]) == AfterReserve(Run(calls), call)
    ensures Ledger(calls + [call]) == Ledger(calls) + Entries(Applied(Run(calls), call), call.idem)
  {
    assert (calls + [call])[..|calls|] == calls;
  }

  /** So a run that repeats a granted keyed call has the same store and the same ledger. */
  lemma RepeatedCallDropsOut(calls: seq<Call>, call: Call)
    requires call.idem != "" && KeysWellFormed(call.candidates) && AllFit(Run(calls), call)
    ensures Run(calls + [call] + [call]) == Run(calls + [call]) &&
            Ledger(calls + [call] + [call]) == Ledger(calls + [call])
  {
    RunAppends(calls, call);
    RunAppends(calls + [call], call);
    ReplayChangesNothing(Run(calls), call);
    assert Ledger(calls + [call]) + [] == Ledger(calls + [call]);
  }

  lemma {:induction false} EventsStay(calls: seq<Call>, n: nat, e: string)
    requires n <= |calls| && e in Run(calls[..n]).events
    ensures e in Run(calls).events
    decreases |calls|
  {
    if n < |calls| {
      var before, last := calls[..|calls| - 1], calls[|calls| - 1];
      assert before[..n] == calls[..n];
      EventsStay(before, n, e);
      RecordMembers(Run(before).events, Due(Run(before), last.candidates, last.idem), last.idem, e);
    } else {
      assert calls[..n] == calls;
    }
  }

  lemma RunPrefix(calls: seq<Call>, n: nat)
    requires n < |calls|
    ensures Run(calls[..n + 1]) == AfterReserve(Run(calls[..n]), calls[n])
  {
    assert calls[..n + 1][..n] == calls[..n];
  }

  lemma GrantedIsRecorded(calls: seq<Call>, n: nat, call: Call, c: Candidate)
    requires n < |calls| && calls[n] == call && AllFit(Run(calls[..n]), call)
    requires call.idem != "" && KeysWellFormed(call.candidates) && c in call.candidates
    ensures EventKey(call.idem, c.key) in Run(calls).events
  {
    RunPrefix(calls, n);
    RecordedByCall(Run(calls[..n]), call, c);
    EventsStay(calls, n + 1, EventKey(call.idem, c.key));
  }

  /** A granted keyed call is counted exactly once in every counter it names, now or before. */
  lemma GrantedIsCounted(calls: seq<Call>, n: nat, c: Candidate)
    requires WellFormedCalls(calls) && n < |calls| && AllFit(Run(calls[..n]), calls[n]) && calls[n].idem != ""
    requires c in calls[n].candidates
    ensures Counted(Ledger(calls), calls[n].idem, c.key) == 1
  {
    var call := calls[n];
    assert call in calls;
    GrantedIsRecorded(calls, n, call, c);
    EventsCountOnce(calls, call.idem, c.key);
  }
}
