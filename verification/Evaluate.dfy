/**
 The evaluation routes: verification, permission, credential constraints, local policy, stateful
 reservation and audit, in that order, for one credential or for a delegation chain.
 */
module Evaluate {
  import opened Common
  import opened Constraints
  import A = Attenuation
  import D = DelegationChain
  import L = LocalPolicy
  import R = Reservations
  import Runs = ReservationRuns

  // ---- Candidates for the stateful gate --------------------------------------------------------

  datatype Built = Candidates(candidates: seq<R.Candidate>) | Unbuilt(error: string)

  /** The counter key of the constraint at an index: a hash of its scope, fixed for one evaluation. */
  type KeyFor = (Constraint, nat) -> string

  function BuildCandidate(h: Host, keyFor: KeyFor, c: Constraint, index: nat, ctx: Context): Built
    requires c.rule.Stateful()
  {
    match c.rule
    case UsageLimit(None, _, _, _) => Unbuilt(VIOLATED)
    case UsageLimit(Some(limit), _, _, _) => Candidates([R.Candidate(keyFor(c, index), R.Count, 1, limit)])
    case CumulativeLimit(maxAmount, _, _, _) =>
      if c.field == "" || maxAmount.None? then Unbuilt(VIOLATED)
      else if ctx.resolve(c.field).Unresolved? then Unbuilt(MissingCode(ctx, c.field))
      else
        match h.number(ctx.resolve(c.field).value)
        case None => Unbuilt(VIOLATED)
        case Some(amount) => Candidates([R.Candidate(keyFor(c, index), R.Amount, amount, maxAmount.value)])
  }

  /** The candidates of all stateful constraints in order, or the first reason one cannot be built. */
  function BuildAll(h: Host, keyFor: KeyFor, cs: seq<Constraint>, ctx: Context): Built {
    if cs == [] then Candidates([])
    else
      var n := |cs| - 1;
      match BuildAll(h, keyFor, cs[..n], ctx)
      case Unbuilt(error) => Unbuilt(error)
      case Candidates(done) =>
        if !cs[n].rule.Stateful() then Candidates(done)
        else
          match BuildCandidate(h, keyFor, cs[n], n, ctx)
          case Unbuilt(error) => Unbuilt(error)
          case Candidates(more) => Candidates(done + more)
  }

  method BuildCandidates(h: Host, keyFor: KeyFor, cs: seq<Constraint>, ctx: Context) returns (b: Built)
    ensures b == BuildAll(h, keyFor, cs, ctx)
  {
    var candidates: seq<R.Candidate> := [];
    for i := 0 to |cs|
      invariant BuildAll(h, keyFor, cs[..i], ctx) == Candidates(candidates)
    {
      assert cs[..i + 1][..i] == cs[..i];
      if cs[i].rule.Stateful() {
        var built := BuildCandidate(h, keyFor, cs[i], i, ctx);
        if built.Unbuilt? {
          StaysUnbuilt(h, keyFor, cs, i + 1, ctx);
          return built;
        }
        candidates := candidates + built.candidates;
      }
    }
    assert cs[..|cs|] == cs;
    return Candidates(candidates);
  }

  lemma {:induction false} StaysUnbuilt(h: Host, keyFor: KeyFor, cs: seq<Constraint>, n: nat, ctx: Context)
    requires n <= |cs| && BuildAll(h, keyFor, cs[..n], ctx).Unbuilt?
    ensures BuildAll(h, keyFor, cs, ctx) == BuildAll(h, keyFor, cs[..n], ctx)
    decreases |cs|
  {
    if n == |cs| {
      assert cs[..n] == cs;
    } else {
      assert cs[..|cs| - 1][..n] == cs[..n];
      StaysUnbuilt(h, keyFor, cs[..|cs| - 1], n, ctx);
    }
  }

  /** Every stateful constraint of the credential contributes its candidate. */
  lemma {:induction false} NoneSkipped(h: Host, keyFor: KeyFor, cs: seq<Constraint>, ctx: Context, i: nat)
    requires i < |cs| && cs[i].rule.Stateful() && BuildAll(h, keyFor, cs, ctx).Candidates?
    ensures BuildCandidate(h, keyFor, cs[i], i, ctx).Candidates?
    ensures forall c :: c in BuildCandidate(h, keyFor, cs[i], i, ctx).candidates ==>
            c in BuildAll(h, keyFor, cs, ctx).candidates
  {
    if i < |cs| - 1 { NoneSkipped(h, keyFor, cs[..|cs| - 1], ctx, i); }
  }

  // ---- A request and its stages ----------------------------------------------------------------

  /** What a request brings; `presented` is what verifying each credential returned. */
  datatype Request = Request(
    complete: bool, batch: bool, presented: seq<D.Verification>, action: string, ctx: Context,
    bodyKey: string, headerKey: string, contextKey: string, audited: bool)

  datatype Config = Config(maxDepth: nat, attenuate: bool, policies: seq<L.Policy>)

  datatype Outcome = Invalid | Deny(error: string) | Allow | ServerError

  const TOO_DEEP := "delegation_depth_exceeded"
  const NO_PERMISSION := "permission_denied"
  const LOCAL_POLICY := "local_policy_denied"
  const OVER_LIMIT := "stateful_limit_exceeded"

  /** The request names what its route needs. */
  predicate Valid(req: Request) {
    req.complete && req.action != "" && if req.batch then req.presented != [] else |req.presented| == 1
  }

  /** The first idempotency key given: body, header, then context. */
  function IdempotencyKey(req: Request): string {
    if req.bodyKey != "" then req.bodyKey else if req.headerKey != "" then req.headerKey else req.contextKey
  }

  /** The body's key wins over the header's, the header's over the context's. */
  lemma FirstKeyGiven(req: Request)
    ensures req.bodyKey != "" ==> IdempotencyKey(req) == req.bodyKey
    ensures req.bodyKey == "" && req.headerKey != "" ==> IdempotencyKey(req) == req.headerKey
    ensures req.bodyKey == "" && req.headerKey == "" ==> IdempotencyKey(req) == req.contextKey
  {
  }

  ghost predicate Verified(h: Host, config: Config, req: Request)
    requires Valid(req)
  {
    if req.batch then
      |req.presented| <= config.maxDepth
      && forall i :: 0 <= i < |req.presented| ==> D.LinkError(h, req.presented, config.attenuate, i).None?
    else req.presented[0].Verified?
  }

  ghost function Leaf(h: Host, config: Config, req: Request): A.Payload
    requires Valid(req) && Verified(h, config, req)
  {
    assert req.batch ==> D.LinkError(h, req.presented, config.attenuate, |req.presented| - 1).None?;
    req.presented[|req.presented| - 1].payload
  }

  /** Why verification stops: the first bad credential or link. */
  ghost predicate UnverifiedWith(h: Host, config: Config, req: Request, error: string)
    requires Valid(req)
  {
    if !req.batch then req.presented[0] == D.Unverified(error)
    else if |req.presented| > config.maxDepth then error == TOO_DEEP
    else exists i :: 0 <= i < |req.presented| && D.LinkError(h, req.presented, config.attenuate, i) == Some(error)
                     && forall j :: 0 <= j < i ==> D.LinkError(h, req.presented, config.attenuate, j).None?
  }

  function LocalMerge(h: Host, config: Config, payload: A.Payload, req: Request): L.Merge {
    L.ApplyLocalPolicyMerge(h, config.policies, req.action, payload.permissions, req.ctx)
  }

  /** Permission, constraints and local policy let the payload through to the stateful gate. */
  ghost predicate Cleared(h: Host, config: Config, payload: A.Payload, req: Request) {
    && req.action in payload.permissions
    && PassesAll(h, payload.constraints, req.ctx)
    && !LocalMerge(h, config, payload, req).DeniedBy?
  }

  /** The reservation a payload makes: none when no candidate list can be built. */
  function CallOf(h: Host, keyFor: KeyFor, payload: A.Payload, req: Request): Option<R.Call> {
    match BuildAll(h, keyFor, payload.constraints, req.ctx)
    case Unbuilt(_) => None
    case Candidates(cs) => Some(R.Call(cs, IdempotencyKey(req)))
  }

  /** The reservation a request gets to make. */
  ghost function Reached(h: Host, keyFor: KeyFor, config: Config, req: Request): Option<R.Call> {
    if !Valid(req) || !Verified(h, config, req) || !Cleared(h, config, Leaf(h, config, req), req) then None
    else CallOf(h, keyFor, Leaf(h, config, req), req)
  }

  ghost function StoreAfter(h: Host, keyFor: KeyFor, config: Config, req: Request, s: R.Store): R.Store {
    match Reached(h, keyFor, config, req)
    case None => s
    case Some(call) => R.AfterReserve(s, call)
  }

  ghost predicate Admitted(h: Host, keyFor: KeyFor, config: Config, req: Request, s: R.Store) {
    Reached(h, keyFor, config, req).Some? && R.AllFit(s, Reached(h, keyFor, config, req).value)
  }

  /** The refusal a cleared or uncleared payload gets, stage by stage. */
  ghost predicate RefusedWith(
    h: Host, keyFor: KeyFor, config: Config, payload: A.Payload, req: Request, error: string)
  {
    if req.action !in payload.permissions then error == NO_PERMISSION
    else if !PassesAll(h, payload.constraints, req.ctx) then FirstError(h, payload.constraints, req.ctx, error)
    else if LocalMerge(h, config, payload, req).DeniedBy? then error == LOCAL_POLICY
    else
      match BuildAll(h, keyFor, payload.constraints, req.ctx)
      case Unbuilt(e) => error == e
      case Candidates(_) => error == OVER_LIMIT
  }

  ghost predicate FirstError(h: Host, cs: seq<Constraint>, ctx: Context, error: string) {
    exists i ::
      0 <= i < |cs| && EvaluateOne(h, cs[i], ctx) == Failed(error) && forall j :: 0 <= j < i ==> Passes(h, cs[j], ctx)
  }

  class EvaluateRoute {
    const store: R.MemoryStatefulStore
    /** The outcomes of the audit rows written. */
    var audit: seq<Outcome>

    constructor (store: R.MemoryStatefulStore)
      ensures this.store == store && audit == []
    {
      this.store := store;
      audit := [];
    }

    /** The shared stages after verification: permission, constraints, local policy, reservation. */
    method DecidePayload(h: Host, keyFor: KeyFor, config: Config, payload: A.Payload, req: Request) returns (r: Outcome)
      modifies store
      ensures
        var call := CallOf(h, keyFor, payload, req);
        && (r.Allow? <==> Cleared(h, config, payload, req) && call.Some? && R.AllFit(old(store.Contents()), call.value))
        && (r.Allow? || (r.Deny? && RefusedWith(h, keyFor, config, payload, req, r.error)))
        && store.Contents() == if Cleared(h, config, payload, req) && call.Some?
                               then R.AfterReserve(old(store.Contents()), call.value) else old(store.Contents())
    {
      if req.action !in payload.permissions {
        return Deny(NO_PERMISSION);
      }
      var evaluation := EvaluateConstraints(h, payload.constraints, req.ctx);
      if !evaluation.pass {
        assert FirstError(h, payload.constraints, req.ctx, evaluation.error.value);
        return Deny(evaluation.error.value);
      }
      if LocalMerge(h, config, payload, req).DeniedBy? {
        return Deny(LOCAL_POLICY);
      }
      var built := BuildCandidates(h, keyFor, payload.constraints, req.ctx);
      if built.Unbuilt? {
        return Deny(built.error);
      }
      var pass, _ := store.Reserve(built.candidates, IdempotencyKey(req));
      r := if pass then Allow else Deny(OVER_LIMIT);
    }

    /** An outcome is answered only once its audit row is signed and written. */
    method Audited(r: Outcome, audited: bool) returns (answer: Outcome)
      modifies `audit
      ensures answer == if audited then r else ServerError
      ensures audit == if audited then old(audit) + [r] else old(audit)
    {
      if !audited {
        return ServerError;
      }
      audit := audit + [r];
      answer := r;
    }

    method VerifyPresented(h: Host, config: Config, req: Request) returns (leaf: Option<A.Payload>, error: string)
      requires Valid(req)
      ensures leaf.Some? <==> Verified(h, config, req)
      ensures leaf.Some? ==> leaf.value == Leaf(h, config, req)
      ensures leaf.None? ==> UnverifiedWith(h, config, req, error)
    {
      if req.batch {
        var chain := D.VerifyDelegationChain(h, req.presented, config.maxDepth, config.attenuate);
        match chain {
          case TooDeep => return None, TOO_DEEP;
          case Refused(code, _) => return None, code;
          case Accepted(payload, _) => return payload, "";
        }
      } else if req.presented[0].Unverified? {
        return None, req.presented[0].errorCode;
      } else {
        return Some(req.presented[0].payload), "";
      }
    }

    /** `POST /evaluate` and `POST /evaluate/batch`. */
    method Evaluate(h: Host, keyFor: KeyFor, config: Config, req: Request) returns (r: Outcome)
      modifies this, store
      ensures store.Contents() == StoreAfter(h, keyFor, config, req, old(store.Contents()))
      ensures r.Allow? <==> req.audited && Admitted(h, keyFor, config, req, old(store.Contents()))
      ensures r.Invalid? <==> !req.complete || req.action == "" ||
                              (if req.batch then req.presented == [] else |req.presented| != 1)
      ensures r.ServerError? <==> Valid(req) && !req.audited
      ensures r.Deny? ==> if Verified(h, config, req)
                          then RefusedWith(h, keyFor, config, Leaf(h, config, req), req, r.error)
                          else UnverifiedWith(h, config, req, r.error)
      ensures audit == if Valid(req) && req.audited then old(audit) + [r] else old(audit)
    {
      if !Valid(req) {
        return Invalid;
      }
      var leaf, error := VerifyPresented(h, config, req);
      if leaf.None? {
        r := Deny(error);
      } else {
        r := DecidePayload(h, keyFor, config, leaf.value, req);
      }
      r := Audited(r, req.audited);
    }
  }

  // ---- Whole runs ------------------------------------------------------------------------------

  /** One request as it met the engine: its own counter keys and the configuration at the time. */
  datatype Served = Served(keyFor: KeyFor, config: Config, req: Request)

  ghost function After(h: Host, run: seq<Served>): R.Store {
    if run == [] then R.Store(map[], {})
    else
      var last := run[|run| - 1];
      StoreAfter(h, last.keyFor, last.config, last.req, After(h, run[..|run| - 1]))
  }

  /** The reservations of the requests that passed every stage, the reservation included. */
  ghost function AdmittedCalls(h: Host, run: seq<Served>): seq<R.Call> {
    if run == [] then []
    else
      var before, last := run[..|run| - 1], run[|run| - 1];
      AdmittedCalls(h, before)
      + if Admitted(h, last.keyFor, last.config, last.req, After(h, before))
        then [Reached(h, last.keyFor, last.config, last.req).value] else []
  }

  /**
   Over all runs the counters are those of the admitted requests alone: one denied by verification,
   permission, constraints, local policy or the limit itself leaves no trace.
   */
  lemma {:induction false} OnlyAdmittedCount(h: Host, run: seq<Served>)
    ensures After(h, run) == Runs.Run(AdmittedCalls(h, run))
  {
    if run != [] {
      var before, last := run[..|run| - 1], run[|run| - 1];
      OnlyAdmittedCount(h, before);
      var calls := AdmittedCalls(h, before);
      if Admitted(h, last.keyFor, last.config, last.req, After(h, before)) {
        var call := Reached(h, last.keyFor, last.config, last.req).value;
        assert (calls + [call])[..|calls|] == calls;
      } else {
        assert calls + [] == calls;
      }
    }
  }

  /** An allowed request passed all four checks and its reservation, with every stateful limit in it. */
  lemma AllowedPassedAll(h: Host, keyFor: KeyFor, config: Config, req: Request, s: R.Store, i: nat)
    requires Admitted(h, keyFor, config, req, s)
    ensures Valid(req) && Verified(h, config, req) && Cleared(h, config, Leaf(h, config, req), req)
    ensures
      var cs := Leaf(h, config, req).constraints;
      i < |cs| && cs[i].rule.Stateful() ==>
        && BuildCandidate(h, keyFor, cs[i], i, req.ctx).Candidates?
        && forall c :: c in BuildCandidate(h, keyFor, cs[i], i, req.ctx).candidates ==>
             R.Fits(s, IdempotencyKey(req), c)
  {
    var cs := Leaf(h, config, req).constraints;
    if i < |cs| && cs[i].rule.Stateful() {
      NoneSkipped(h, keyFor, cs, req.ctx, i);
    }
  }

  lemma VerifiedChain(h: Host, config: Config, req: Request)
    requires Valid(req) && Verified(h, config, req) && req.batch && config.attenuate
    ensures D.AcceptedChain(h, req.presented)
    ensures Verified(h, config, req) && Leaf(h, config, req) == req.presented[|req.presented| - 1].payload
  {
    assert forall i :: 0 <= i < |req.presented| ==> D.LinkError(h, req.presented, config.attenuate, i).None?;
    D.NoErrorIsAccepted(h, req.presented);
  }

  /**
   A chain allowed under attenuation is allowed by every ancestor's permissions and stateless constraints;
   stateful ones are charged for the leaf alone, see `CounterKeys.ChargesAncestorExactly`.
   */
  lemma AllowedByEveryAncestor(h: Host, keyFor: KeyFor, config: Config, req: Request, s: R.Store, i: nat)
    requires Admitted(h, keyFor, config, req, s) && req.batch && config.attenuate && i < |req.presented|
    requires D.AcceptedChain(h, req.presented) ==> D.ChainRestates(h, req.presented)
    requires A.OneLineContext(req.ctx)
    ensures req.presented[i].Verified?
    ensures req.action in req.presented[i].payload.permissions &&
            PassesAll(h, req.presented[i].payload.constraints, req.ctx)
  {
    VerifiedChain(h, config, req);
    var last := |req.presented| - 1;
    assert D.LinkError(h, req.presented, true, i).None?;
    assert Cleared(h, config, req.presented[last].payload, req);
    if i < last {
      D.AcceptedChainSound(h, req.presented, i, last, req.ctx);
    }
  }

  /**
   A keyed request whose audit row fails is answered with an error although it was counted; sent
   again it is admitted and counts nothing more.
   */
  lemma RetryAfterAuditFailure(h: Host, s: R.Store, first: Served, again: Served)
    requires Admitted(h, first.keyFor, first.config, first.req, s) && IdempotencyKey(first.req) != ""
    requires R.KeysWellFormed(Reached(h, first.keyFor, first.config, first.req).value.candidates)
    requires Reached(h, again.keyFor, again.config, again.req) == Reached(h, first.keyFor, first.config, first.req)
    ensures
      var counted := StoreAfter(h, first.keyFor, first.config, first.req, s);
      && Admitted(h, again.keyFor, again.config, again.req, counted)
      && StoreAfter(h, again.keyFor, again.config, again.req, counted) == counted
  {
    Runs.ReplayChangesNothing(s, Reached(h, first.keyFor, first.config, first.req).value);
  }
}
