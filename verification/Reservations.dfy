/**
 Stateful reservations: what one call asks of the counters, and the in-memory store that the
 transactional store is measured against.
 */
module Reservations {
  import opened Common

  datatype Metric = Amount | Count

  /** One counter a reservation wants to raise by `increment` without passing `limit`. */
  datatype Candidate = Candidate(key: string, metric: Metric, increment: int, limit: int)

  /** One call of `reserve`; `""` stands for no idempotency key. */
  datatype Call = Call(candidates: seq<Candidate>, idem: string)

  /** The two maps of the in-memory store. */
  datatype Store = Store(counters: map<string, int>, events: set<string>)

  datatype Result =
    | Replayed(key: string, current: int)
    | Reserved(key: string, next: int)
    | Denied(key: string, next: int)

  function Counter(counters: map<string, int>, key: string): int {
    if key in counters then counters[key] else 0
  }

  function EventKey(idem: string, key: string): string {
    idem + ":" + key
  }

  /** Counter keys are "stateful:" and a SHA-256 in hex: 73 characters. */
  const KEY_LENGTH := 73

  predicate KeysWellFormed(cs: seq<Candidate>) {
    forall c :: c in cs ==> |c.key| == KEY_LENGTH
  }

  predicate DistinctKeys(cs: seq<Candidate>) {
    forall i, j :: 0 <= i < j < |cs| ==> cs[i].key != cs[j].key
  }

  /** Event keys are strings, yet no two (idempotency key, counter key) pairs share one. */
  lemma EventKeyInjective(idem: string, key: string, idem': string, key': string)
    requires |key| == |key'| == KEY_LENGTH
    ensures EventKey(idem, key) == EventKey(idem', key') <==> idem == idem' && key == key'
  {
    var a, b := EventKey(idem, key), EventKey(idem', key');
    assert a[|a| - KEY_LENGTH..] == key && a[..|a| - KEY_LENGTH - 1] == idem;
    assert b[|b| - KEY_LENGTH..] == key' && b[..|b| - KEY_LENGTH - 1] == idem';
  }

  predicate IsReplay(s: Store, idem: string, key: string) {
    idem != "" && EventKey(idem, key) in s.events
  }

  predicate Fits(s: Store, idem: string, c: Candidate) {
    IsReplay(s, idem, c.key) || Counter(s.counters, c.key) + c.increment <= c.limit
  }

  predicate AllFit(s: Store, call: Call) {
    forall c :: c in call.candidates ==> Fits(s, call.idem, c)
  }

  /** The candidates a passing call raises: those whose event is not recorded yet. */
  function Due(s: Store, cs: seq<Candidate>, idem: string): (due: seq<Candidate>)
    ensures forall c :: c in due <==> c in cs && !IsReplay(s, idem, c.key)
  {
    if cs == [] then []
    else
      var rest := Due(s, cs[..|cs| - 1], idem);
      var last := cs[|cs| - 1];
      if IsReplay(s, idem, last.key) then rest else rest + [last]
  }

  /** Sets each counter to its value before the call plus the candidate's increment. */
  function Raise(before: map<string, int>, due: seq<Candidate>): map<string, int> {
    if due == [] then before
    else
      var last := due[|due| - 1];
      Raise(before, due[..|due| - 1])[last.key := Counter(before, last.key) + last.increment]
  }

  function Record(events: set<string>, due: seq<Candidate>, idem: string): set<string> {
    if idem == "" || due == [] then events
    else Record(events, due[..|due| - 1], idem) + {EventKey(idem, due[|due| - 1].key)}
  }

  /** The store after a call: unchanged when any candidate does not fit. */
  function AfterReserve(s: Store, call: Call): Store {
    if AllFit(s, call) then
      var due := Due(s, call.candidates, call.idem);
      Store(Raise(s.counters, due), Record(s.events, due, call.idem))
    else s
  }

  predicate FirstMisfit(s: Store, cs: seq<Candidate>, idem: string, i: nat) {
    i < |cs| && !Fits(s, idem, cs[i]) && forall j :: 0 <= j < i ==> Fits(s, idem, cs[j])
  }

  function DenialFor(s: Store, c: Candidate): Result {
    Denied(c.key, Counter(s.counters, c.key) + c.increment)
  }

  /** A denied call reports the replays up to the first misfit, and that misfit. */
  ghost predicate DeniedAt(s: Store, cs: seq<Candidate>, idem: string, results: seq<Result>) {
    exists i: nat :: FirstMisfit(s, cs, idem, i) && results == Replays(s, cs[..i], idem) + [DenialFor(s, cs[i])]
  }

  class MemoryStatefulStore {
    var counters: map<string, int>
    var events: set<string>

    constructor ()
      ensures Contents() == Store(map[], {})
    {
      counters := map[];
      events := {};
    }

    function Contents(): Store
      reads this
    {
      Store(counters, events)
    }

    /** The first loop: replays are answered, the rest staged, and the first misfit denies. */
    method Stage(candidates: seq<Candidate>, idem: string)
      returns (pass: bool, pending: seq<Candidate>, results: seq<Result>)
      ensures pass <==> AllFit(Contents(), Call(candidates, idem))
      ensures pass ==> pending == Due(Contents(), candidates, idem) && results == Replays(Contents(), candidates, idem)
      ensures !pass ==> DeniedAt(Contents(), candidates, idem, results)
    {
      results, pending := [], [];
      for i := 0 to |candidates|
        invariant Staged(Contents(), candidates, idem, i, pending, results)
      {
        var c := candidates[i];
        var current := Counter(counters, c.key);
        StagedNext(Contents(), candidates, idem, i, pending, results);
        if idem != "" && EventKey(idem, c.key) in events {
          results := results + [Replayed(c.key, current)];
        } else {
          if current + c.increment > c.limit {
            return false, pending, results + [Denied(c.key, current + c.increment)];
          }
          pending := pending + [c];
        }
      }
      StagedAll(Contents(), candidates, idem, pending, results);
      pass := true;
    }

    /** Checks every candidate first, then applies the staged updates. */
    method Reserve(candidates: seq<Candidate>, idem: string) returns (pass: bool, results: seq<Result>)
      modifies this
      ensures Contents() == AfterReserve(old(Contents()), Call(candidates, idem))
      ensures pass <==> AllFit(old(Contents()), Call(candidates, idem))
      ensures pass ==> results == PassResults(old(Contents()), candidates, idem)
      ensures !pass ==> DeniedAt(old(Contents()), candidates, idem, results)
    {
      var pending;
      pass, pending, results := Stage(candidates, idem);
      if pass {
        var granted := Apply(pending, idem);
        results := results + granted;
      }
    }

    /** The second loop, over the staged candidates. */
    method Apply(pending: seq<Candidate>, idem: string) returns (results: seq<Result>)
      modifies this
      ensures counters == Raise(old(counters), pending)
      ensures events == Record(old(events), pending, idem)
      ensures results == Granted(old(counters), pending)
    {
      var before := counters;
      results := [];
      for k := 0 to |pending|
        invariant counters == Raise(before, pending[..k])
        invariant events == Record(old(events), pending[..k], idem)
        invariant results == Granted(before, pending[..k])
      {
        var item := pending[k];
        ApplyNext(before, old(events), pending, k, idem);
        var next := Counter(before, item.key) + item.increment;
        counters := counters[item.key := next];
        if idem != "" {
          events := events + {EventKey(idem, item.key)};
        }
        results := results + [Reserved(item.key, next)];
      }
      assert pending[..|pending|] == pending;
    }
  }

  lemma DueNext(s: Store, cs: seq<Candidate>, i: nat, idem: string)
    requires i < |cs|
    ensures Due(s, cs[..i + 1], idem) == Due(s, cs[..i], idem) + if IsReplay(s, idem, cs[i].key) then [] else [cs[i]]
  {
    assert cs[..i + 1][..i] == cs[..i];
    assert Due(s, cs[..i], idem) + [] == Due(s, cs[..i], idem);
  }

  lemma ReplaysNext(s: Store, cs: seq<Candidate>, i: nat, idem: string)
    requires i < |cs|
    ensures Replays(s, cs[..i + 1], idem) == Replays(s, cs[..i], idem)
              + if IsReplay(s, idem, cs[i].key) then [Replayed(cs[i].key, Counter(s.counters, cs[i].key))] else []
  {
    assert cs[..i + 1][..i] == cs[..i];
    assert Replays(s, cs[..i], idem) + [] == Replays(s, cs[..i], idem);
  }

  /** The staging loop's state before candidate `i`. */
  ghost predicate Staged(
    s: Store, cs: seq<Candidate>, idem: string, i: nat, pending: seq<Candidate>, results: seq<Result>)
  {
    && i <= |cs| && (forall j :: 0 <= j < i ==> Fits(s, idem, cs[j]))
    && pending == Due(s, cs[..i], idem) && results == Replays(s, cs[..i], idem)
  }

  lemma StagedNext(s: Store, cs: seq<Candidate>, idem: string, i: nat, pending: seq<Candidate>, results: seq<Result>)
    requires i < |cs| && Staged(s, cs, idem, i, pending, results)
    ensures
      var c := cs[i];
      if IsReplay(s, idem, c.key) then
        Staged(s, cs, idem, i + 1, pending, results + [Replayed(c.key, Counter(s.counters, c.key))])
      else if Fits(s, idem, c) then Staged(s, cs, idem, i + 1, pending + [c], results)
      else !AllFit(s, Call(cs, idem)) && DeniedAt(s, cs, idem, results + [DenialFor(s, c)])
  {
    DueNext(s, cs, i, idem);
    ReplaysNext(s, cs, i, idem);
    if !Fits(s, idem, cs[i]) {
      assert FirstMisfit(s, cs, idem, i);
      assert cs[i] in cs;
    } else if IsReplay(s, idem, cs[i].key) {
      assert pending + [] == pending;
    } else {
      assert results + [] == results;
    }
  }

  lemma StagedAll(s: Store, cs: seq<Candidate>, idem: string, pending: seq<Candidate>, results: seq<Result>)
    requires Staged(s, cs, idem, |cs|, pending, results)
    ensures AllFit(s, Call(cs, idem)) && pending == Due(s, cs, idem) && results == Replays(s, cs, idem)
  {
    assert cs[..|cs|] == cs;
  }

  lemma ApplyNext(counters: map<string, int>, events: set<string>, due: seq<Candidate>, k: nat, idem: string)
    requires k < |due|
    ensures
      var item := due[k];
      var next := Counter(counters, item.key) + item.increment;
      && Raise(counters, due[..k + 1]) == Raise(counters, due[..k])[item.key := next]
      && Record(events, due[..k + 1], idem)
         == Record(events, due[..k], idem) + (if idem == "" then {} else {EventKey(idem, item.key)})
      && Granted(counters, due[..k + 1]) == Granted(counters, due[..k]) + [Reserved(item.key, next)]
  {
    assert due[..k + 1][..k] == due[..k];
  }

  function Replays(s: Store, cs: seq<Candidate>, idem: string): seq<Result> {
    if cs == [] then []
    else
      var rest, last := Replays(s, cs[..|cs| - 1], idem), cs[|cs| - 1];
      if IsReplay(s, idem, last.key) then rest + [Replayed(last.key, Counter(s.counters, last.key))] else rest
  }

  function Granted(counters: map<string, int>, due: seq<Candidate>): seq<Result> {
    seq(|due|, i requires 0 <= i < |due| => Reserved(due[i].key, Counter(counters, due[i].key) + due[i].increment))
  }

  /** A passing call reports its replays first, then what it raised. */
  function PassResults(s: Store, cs: seq<Candidate>, idem: string): seq<Result> {
    Replays(s, cs, idem) + Granted(s.counters, Due(s, cs, idem))
  }

  // ---- What a call means -----------------------------------------------------------------------

  /** The summed increments of the candidates on one counter. */
  function SumFor(cs: seq<Candidate>, key: string): int {
    if cs == [] then 0
    else SumFor(cs[..|cs| - 1], key) + if cs[|cs| - 1].key == key then cs[|cs| - 1].increment else 0
  }

  predicate Names(cs: seq<Candidate>, key: string) {
    exists i :: 0 <= i < |cs| && cs[i].key == key
  }

  lemma {:induction false} DueDistinct(s: Store, cs: seq<Candidate>, idem: string)
    requires DistinctKeys(cs)
    ensures DistinctKeys(Due(s, cs, idem))
  {
    if cs != [] {
      DueDistinct(s, cs[..|cs| - 1], idem);
      var rest := Due(s, cs[..|cs| - 1], idem);
      forall i | 0 <= i < |rest|
        ensures rest[i].key != cs[|cs| - 1].key
      {
        assert rest[i] in cs[..|cs| - 1];
      }
    }
  }

  lemma NamesLast(cs: seq<Candidate>, key: string)
    requires cs != []
    ensures Names(cs, key) <==> Names(cs[..|cs| - 1], key) || cs[|cs| - 1].key == key
  {
    var rest := cs[..|cs| - 1];
    if Names(rest, key) {
      var i :| 0 <= i < |rest| && rest[i].key == key;
      assert cs[i].key == key;
    }
    if Names(cs, key) && cs[|cs| - 1].key != key {
      var i :| 0 <= i < |cs| && cs[i].key == key;
      assert rest[i].key == key;
    }
  }

  lemma LastIsNew(cs: seq<Candidate>)
    requires cs != [] && DistinctKeys(cs)
    ensures DistinctKeys(cs[..|cs| - 1]) && !Names(cs[..|cs| - 1], cs[|cs| - 1].key)
  {
  }

  lemma {:induction false} SumAbsent(cs: seq<Candidate>, key: string)
    requires !Names(cs, key)
    ensures SumFor(cs, key) == 0
  {
    if cs != [] {
      NamesLast(cs, key);
      SumAbsent(cs[..|cs| - 1], key);
    }
  }

  /** With distinct keys, applying the staged candidates raises each counter by its sum. */
  lemma {:induction false} RaiseAddsSums(counters: map<string, int>, due: seq<Candidate>, key: string)
    requires DistinctKeys(due)
    ensures Counter(Raise(counters, due), key) == Counter(counters, key) + SumFor(due, key)
    ensures key in Raise(counters, due) <==> key in counters || Names(due, key)
  {
    if due != [] {
      var rest, last := due[..|due| - 1], due[|due| - 1];
      LastIsNew(due);
      NamesLast(due, key);
      RaiseAddsSums(counters, rest, key);
      if last.key == key {
        SumAbsent(rest, key);
      }
    }
  }

  lemma {:induction false} RecordMembers(events: set<string>, due: seq<Candidate>, idem: string, e: string)
    ensures e in Record(events, due, idem) <==>
            e in events || (idem != "" && exists c :: c in due && e == EventKey(idem, c.key))
  {
    if idem != "" && due != [] {
      var rest, last := due[..|due| - 1], due[|due| - 1];
      assert due == rest + [last];
      RecordMembers(events, rest, idem, e);
    }
  }

  /**
   Two candidates on one counter lose an update: with positive increments, a passing call raises
   every counter by the sum of its increments exactly when its keys are distinct.
   */
  lemma RaisesSumsExactly(counters: map<string, int>, due: seq<Candidate>)
    requires forall c :: c in due ==> c.increment > 0
    ensures (forall key :: Counter(Raise(counters, due), key) == Counter(counters, key) + SumFor(due, key)) <==>
            DistinctKeys(due)
  {
    if DistinctKeys(due) {
      forall key
        ensures Counter(Raise(counters, due), key) == Counter(counters, key) + SumFor(due, key)
      {
        RaiseAddsSums(counters, due, key);
      }
    } else {
      var i, j :| 0 <= i < j < |due| && due[i].key == due[j].key;
      LosesUpdate(counters, due, i, j);
    }
  }

  lemma {:induction false} SumPositive(cs: seq<Candidate>, key: string)
    requires forall c :: c in cs ==> c.increment > 0
    ensures SumFor(cs, key) >= 0
    ensures Names(cs, key) ==> SumFor(cs, key) > 0
  {
    if cs != [] {
      var rest, last := cs[..|cs| - 1], cs[|cs| - 1];
      SumPositive(rest, key);
      assert last in cs;
      if Names(cs, key) && last.key != key {
        var i :| 0 <= i < |cs| && cs[i].key == key;
        assert rest[i].key == key;
      }
    }
  }

  lemma {:induction false} LosesUpdate(counters: map<string, int>, due: seq<Candidate>, i: nat, j: nat)
    requires i < j < |due| && due[i].key == due[j].key && forall c :: c in due ==> c.increment > 0
    ensures Counter(Raise(counters, due), due[i].key) < Counter(counters, due[i].key) + SumFor(due, due[i].key)
  {
    var rest, last, key := due[..|due| - 1], due[|due| - 1], due[i].key;
    assert last in due;
    if last.key == key {
      assert rest[i].key == key;
      SumPositive(rest, key);
    } else {
      LosesUpdate(counters, rest, i, j);
    }
  }
}
