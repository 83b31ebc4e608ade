/**
 What a limit of a credential counts over a run of requests: the amounts their field reads as, or the
 requests themselves; and which request is the one too many.
 */
module Quotas {
  import opened Common
  import opened Constraints
  import A = Attenuation
  import E = Evaluate
  import R = Reservations
  import Runs = ReservationRuns

  /** What a request's field reads as, if it reads as a number. */
  function Amount(h: Host, req: E.Request, field: string): Option<int> {
    match req.ctx.resolve(field)
    case Unresolved(_) => None
    case Resolved(v) => h.number(v)
  }

  /** What one request uses up of a limit: one use, or its amount. */
  function Charge(h: Host, req: E.Request, c: Constraint): int {
    if c.rule.UsageLimit? then 1
    else if Amount(h, req, c.field).Some? then Amount(h, req, c.field).value else 0
  }

  function LimitOf(c: Constraint): Option<int> {
    match c.rule
    case UsageLimit(limit, _, _, _) => limit
    case CumulativeLimit(limit, _, _, _) => limit
    case _ => None
  }

  /** The limit stands at `i`, is charged to `key`, and no other constraint of the list is. */
  predicate ChargedAt(keyFor: E.KeyFor, cs: seq<Constraint>, c: Constraint, key: string, i: nat) {
    && i < |cs| && cs[i] == c && keyFor(c, i) == key
    && forall j: nat :: j < |cs| && j != i && cs[j].rule.Stateful() ==> keyFor(cs[j], j) != key
  }

  /** A verified request whose credential carries the limit, and hashed counter keys. */
  ghost predicate Charged(h: Host, v: E.Served, c: Constraint, key: string) {
    && E.Valid(v.req) && E.Verified(h, v.config, v.req)
    && (exists i :: ChargedAt(v.keyFor, E.Leaf(h, v.config, v.req).constraints, c, key, i))
    && var call := E.Reached(h, v.keyFor, v.config, v.req);
       call.Some? ==> R.KeysWellFormed(call.value.candidates)
  }

  /** Each request of the run carries the limit, and no two the same idempotency key. */
  ghost predicate ChargedRun(h: Host, run: seq<E.Served>, c: Constraint, key: string) {
    && c.rule.Stateful() && LimitOf(c).Some? && |key| == R.KEY_LENGTH
    && (forall v :: v in run ==> Charged(h, v, c, key))
    && (forall i, j :: 0 <= i < j < |run| && E.IdempotencyKey(run[i].req) != "" ==>
          E.IdempotencyKey(run[i].req) != E.IdempotencyKey(run[j].req))
  }

  ghost predicate AdmittedNext(h: Host, run: seq<E.Served>, v: E.Served) {
    E.Admitted(h, v.keyFor, v.config, v.req, E.After(h, run))
  }

  /** The charges of the admitted requests of a run. */
  ghost function Spent(h: Host, run: seq<E.Served>, c: Constraint): int {
    if run == [] then 0
    else
      var before, last := run[..|run| - 1], run[|run| - 1];
      Spent(h, before, c) + if AdmittedNext(h, before, last) then Charge(h, last.req, c) else 0
  }

  // ---- The one candidate on the key ----------------------------------------------------------------

  /** What is built from a limit whose field, if it has one, reads as a number. */
  lemma BuiltFromLimit(h: Host, keyFor: E.KeyFor, c: Constraint, i: nat, req: E.Request)
    requires c.rule.Stateful() && LimitOf(c).Some?
    requires E.BuildCandidate(h, keyFor, c, i, req.ctx).Candidates?
    ensures
      var built := E.BuildCandidate(h, keyFor, c, i, req.ctx).candidates;
      |built| == 1 && built[0].key == keyFor(c, i) && built[0].increment == Charge(h, req, c)
      && built[0].limit == LimitOf(c).value
    ensures c.rule.CumulativeLimit? ==> c.field != "" && Amount(h, req, c.field).Some?
  {
  }

  lemma {:induction false} BuiltFrom(h: Host, keyFor: E.KeyFor, cs: seq<Constraint>, ctx: Context, d: R.Candidate)
    returns (j: nat)
    requires E.BuildAll(h, keyFor, cs, ctx).Candidates? && d in E.BuildAll(h, keyFor, cs, ctx).candidates
    ensures j < |cs| && cs[j].rule.Stateful() && E.BuildCandidate(h, keyFor, cs[j], j, ctx).Candidates?
    ensures d in E.BuildCandidate(h, keyFor, cs[j], j, ctx).candidates
  {
    var n := |cs| - 1;
    if d in E.BuildAll(h, keyFor, cs[..n], ctx).candidates {
      j := BuiltFrom(h, keyFor, cs[..n], ctx, d);
    } else {
      j := n;
    }
  }

  lemma KeyOfBuilt(h: Host, keyFor: E.KeyFor, c: Constraint, i: nat, ctx: Context, d: R.Candidate)
    requires c.rule.Stateful() && E.BuildCandidate(h, keyFor, c, i, ctx).Candidates?
    requires d in E.BuildCandidate(h, keyFor, c, i, ctx).candidates
    ensures d.key == keyFor(c, i)
  {
  }

  /** The candidate of the limit, the only one on its key. */
  ghost predicate OnlyCandidate(h: Host, call: R.Call, req: E.Request, c: Constraint, key: string, d: R.Candidate)
    requires LimitOf(c).Some?
  {
    && d in call.candidates && d.key == key && d.increment == Charge(h, req, c) && d.limit == LimitOf(c).value
    && forall e :: e in call.candidates && e.key == key ==> e == d
  }

  lemma CandidateOnKey(h: Host, v: E.Served, c: Constraint, key: string) returns (d: R.Candidate)
    requires c.rule.Stateful() && LimitOf(c).Some? && Charged(h, v, c, key)
    requires E.Reached(h, v.keyFor, v.config, v.req).Some?
    ensures OnlyCandidate(h, E.Reached(h, v.keyFor, v.config, v.req).value, v.req, c, key, d)
  {
    var cs, ctx := E.Leaf(h, v.config, v.req).constraints, v.req.ctx;
    var i :| ChargedAt(v.keyFor, cs, c, key, i);
    E.NoneSkipped(h, v.keyFor, cs, ctx, i);
    BuiltFromLimit(h, v.keyFor, c, i, v.req);
    d := E.BuildCandidate(h, v.keyFor, c, i, ctx).candidates[0];
    forall e | e in E.BuildAll(h, v.keyFor, cs, ctx).candidates && e.key == key
      ensures e == d
    {
      var j := BuiltFrom(h, v.keyFor, cs, ctx, e);
      KeyOfBuilt(h, v.keyFor, cs[j], j, ctx, e);
      assert j == i;
    }
  }

  // ---- One more request ----------------------------------------------------------------------------

  lemma {:induction false} RaisesOnly(counters: map<string, int>, due: seq<R.Candidate>, d: R.Candidate)
    requires d in due && forall e :: e in due && e.key == d.key ==> e == d
    ensures R.Counter(R.Raise(counters, due), d.key) == R.Counter(counters, d.key) + d.increment
  {
    var rest, last := due[..|due| - 1], due[|due| - 1];
    if last.key != d.key {
      assert d in rest;
      RaisesOnly(counters, rest, d);
    } else {
      assert last in due;
    }
  }

  /** Every recorded event is of a request that was made. */
  lemma {:induction false} EventsOfRun(h: Host, run: seq<E.Served>, c: Constraint, key: string, idem: string)
    requires ChargedRun(h, run, c, key) && idem != ""
    requires forall v :: v in run ==> E.IdempotencyKey(v.req) != idem
    ensures R.EventKey(idem, key) !in E.After(h, run).events
  {
    if run != [] {
      var before, last := run[..|run| - 1], run[|run| - 1];
      assert last in run;
      EventsOfRun(h, before, c, key, idem);
      var call := E.Reached(h, last.keyFor, last.config, last.req);
      if call.Some? { Runs.CallRecords(E.After(h, before), call.value, idem, key); }
    }
  }

  lemma NotAReplay(h: Host, run: seq<E.Served>, v: E.Served, c: Constraint, key: string)
    requires ChargedRun(h, run + [v], c, key)
    ensures ChargedRun(h, run, c, key) && Charged(h, v, c, key)
    ensures !R.IsReplay(E.After(h, run), E.IdempotencyKey(v.req), key)
  {
    var all := run + [v];
    assert all[|run|] == v && v in all;
    forall i | 0 <= i < |run|
      ensures all[i] == run[i] && run[i] in all
    {
    }
    if E.IdempotencyKey(v.req) != "" {
      forall u | u in run
        ensures E.IdempotencyKey(u.req) != E.IdempotencyKey(v.req)
      {
        var i :| 0 <= i < |run| && run[i] == u;
        assert all[i] == u && all[|run|] == v;
      }
      EventsOfRun(h, run, c, key, E.IdempotencyKey(v.req));
    }
  }

  function CounterAt(s: R.Store, key: string): int {
    R.Counter(s.counters, key)
  }

  lemma ChargesOnce(h: Host, s: R.Store, v: E.Served, c: Constraint, key: string)
    requires c.rule.Stateful() && LimitOf(c).Some? && Charged(h, v, c, key)
    requires !R.IsReplay(s, E.IdempotencyKey(v.req), key)
    ensures
      var after := E.StoreAfter(h, v.keyFor, v.config, v.req, s);
      if E.Admitted(h, v.keyFor, v.config, v.req, s)
      then CounterAt(after, key) == CounterAt(s, key) + Charge(h, v.req, c) <= LimitOf(c).value
      else CounterAt(after, key) == CounterAt(s, key)
  {
    if E.Admitted(h, v.keyFor, v.config, v.req, s) {
      var call := E.Reached(h, v.keyFor, v.config, v.req).value;
      var d := CandidateOnKey(h, v, c, key);
      assert R.Fits(s, call.idem, d);
      RaisesOnly(s.counters, R.Due(s, call.candidates, call.idem), d);
    }
  }

  /**
   Without replays the counter of a limit is the sum of what the admitted requests' field reads as, or their
   number; it never passes the limit once a request was admitted, nor at all a limit that is not negative.
   */
  lemma {:induction false} SpentIsSum(h: Host, run: seq<E.Served>, c: Constraint, key: string)
    requires ChargedRun(h, run, c, key)
    ensures CounterAt(E.After(h, run), key) == Spent(h, run, c)
    ensures run != [] && AdmittedNext(h, run[..|run| - 1], run[|run| - 1]) ==> Spent(h, run, c) <= LimitOf(c).value
    ensures 0 <= LimitOf(c).value ==> Spent(h, run, c) <= LimitOf(c).value
  {
    if run != [] {
      var before, last := run[..|run| - 1], run[|run| - 1];
      assert run == before + [last];
      NotAReplay(h, before, last, c, key);
      SpentIsSum(h, before, c, key);
      ChargesOnce(h, E.After(h, before), last, c, key);
    }
  }

  /** A request that would take the sum over the limit is not admitted, and adds nothing. */
  lemma OverTheLimit(h: Host, run: seq<E.Served>, v: E.Served, c: Constraint, key: string)
    requires ChargedRun(h, run + [v], c, key) && Spent(h, run, c) + Charge(h, v.req, c) > LimitOf(c).value
    ensures !AdmittedNext(h, run, v) && CounterAt(E.After(h, run + [v]), key) == CounterAt(E.After(h, run), key)
  {
    NotAReplay(h, run, v, c, key);
    SpentIsSum(h, run, c, key);
    ChargesOnce(h, E.After(h, run), v, c, key);
    assert (run + [v])[..|run|] == run;
  }

  lemma {:induction false} UnbuiltFrom(h: Host, keyFor: E.KeyFor, cs: seq<Constraint>, ctx: Context) returns (j: nat)
    requires E.BuildAll(h, keyFor, cs, ctx).Unbuilt?
    ensures j < |cs| && cs[j].rule.Stateful() && E.BuildCandidate(h, keyFor, cs[j], j, ctx).Unbuilt?
  {
    var n := |cs| - 1;
    if E.BuildAll(h, keyFor, cs[..n], ctx).Unbuilt? {
      j := UnbuiltFrom(h, keyFor, cs[..n], ctx);
    } else {
      j := n;
    }
  }

  lemma BuiltExactly(h: Host, keyFor: E.KeyFor, c: Constraint, i: nat, req: E.Request)
    requires c.rule.Stateful() && LimitOf(c).Some?
    ensures E.BuildCandidate(h, keyFor, c, i, req.ctx).Candidates? <==>
            (c.rule.CumulativeLimit? ==> c.field != "" && Amount(h, req, c.field).Some?)
  {
  }

  /** Every limit of the verified credential is charged to the key. */
  ghost predicate OnlyLimit(h: Host, v: E.Served, key: string)
    requires E.Valid(v.req) && E.Verified(h, v.config, v.req)
  {
    var cs := E.Leaf(h, v.config, v.req).constraints;
    forall j: nat :: j < |cs| && cs[j].rule.Stateful() ==> v.keyFor(cs[j], j) == key
  }

  lemma ReachedExactly(h: Host, v: E.Served, c: Constraint, key: string)
    requires c.rule.Stateful() && LimitOf(c).Some? && Charged(h, v, c, key) && OnlyLimit(h, v, key)
    requires E.Cleared(h, v.config, E.Leaf(h, v.config, v.req), v.req)
    ensures E.Reached(h, v.keyFor, v.config, v.req).Some? <==>
            (c.rule.CumulativeLimit? ==> c.field != "" && Amount(h, v.req, c.field).Some?)
  {
    var cs, ctx := E.Leaf(h, v.config, v.req).constraints, v.req.ctx;
    var i :| ChargedAt(v.keyFor, cs, c, key, i);
    BuiltExactly(h, v.keyFor, c, i, v.req);
    if E.BuildAll(h, v.keyFor, cs, ctx).Unbuilt? {
      var j := UnbuiltFrom(h, v.keyFor, cs, ctx);
      assert j == i;
    } else {
      E.NoneSkipped(h, v.keyFor, cs, ctx, i);
    }
  }

  lemma OnlyOneFits(h: Host, s: R.Store, v: E.Served, c: Constraint, key: string)
    requires c.rule.Stateful() && LimitOf(c).Some? && Charged(h, v, c, key) && OnlyLimit(h, v, key)
    requires E.Reached(h, v.keyFor, v.config, v.req).Some? && !R.IsReplay(s, E.IdempotencyKey(v.req), key)
    ensures E.Admitted(h, v.keyFor, v.config, v.req, s) <==>
            CounterAt(s, key) + Charge(h, v.req, c) <= LimitOf(c).value
  {
    var cs, ctx := E.Leaf(h, v.config, v.req).constraints, v.req.ctx;
    var call := E.Reached(h, v.keyFor, v.config, v.req).value;
    var d := CandidateOnKey(h, v, c, key);
    forall e | e in call.candidates
      ensures e == d
    {
      var j := BuiltFrom(h, v.keyFor, cs, ctx, e);
      KeyOfBuilt(h, v.keyFor, cs[j], j, ctx, e);
    }
  }

  /**
   With no other limit on the credential that is also the only reason left: a request that passed every
   earlier stage is admitted exactly when its field reads as an amount that still fits.
   */
  lemma AdmittedExactly(h: Host, run: seq<E.Served>, v: E.Served, c: Constraint, key: string)
    requires ChargedRun(h, run + [v], c, key) && Charged(h, v, c, key) && OnlyLimit(h, v, key)
    requires E.Cleared(h, v.config, E.Leaf(h, v.config, v.req), v.req)
    ensures AdmittedNext(h, run, v) <==>
            && (c.rule.CumulativeLimit? ==> c.field != "" && Amount(h, v.req, c.field).Some?)
            && Spent(h, run, c) + Charge(h, v.req, c) <= LimitOf(c).value
  {
    NotAReplay(h, run, v, c, key);
    SpentIsSum(h, run, c, key);
    ReachedExactly(h, v, c, key);
    if E.Reached(h, v.keyFor, v.config, v.req).Some? { OnlyOneFits(h, E.After(h, run), v, c, key); }
  }
}
