/** Merging receiver-local policies: more constraints of the same kind, which can only deny. */
module LocalPolicy {
  import opened Common
  import opened Constraints

  /** An active policy; no target permissions means it applies to every request. */
  datatype Policy = Policy(id: string, targets: seq<string>, constraints: seq<Constraint>)

  /** A collected constraint tagged with the policy it came from. */
  datatype Owned = Owned(owner: string, constraint: Constraint)

  datatype Merge = NotApplied | Applied | DeniedBy(policyId: string, error: string)

  /** `""` is an absent action, for which the credential's own permissions are compared. */
  predicate Applies(p: Policy, action: string, permissions: seq<string>) {
    p.targets == [] || if action != "" then action in p.targets else exists x :: x in permissions && x in p.targets
  }

  function Applicable(ps: seq<Policy>, action: string, permissions: seq<string>): seq<Policy> {
    if ps == [] then []
    else
      var rest := Applicable(ps[1..], action, permissions);
      if Applies(ps[0], action, permissions) then [ps[0]] + rest else rest
  }

  function Tagged(p: Policy): seq<Owned> {
    MapSeq((c: Constraint) => Owned(p.id, c), p.constraints)
  }

  /** `flatMap`. */
  function Collected(ps: seq<Policy>): seq<Owned> {
    if ps == [] then [] else Tagged(ps[0]) + Collected(ps[1..])
  }

  /** `find` and `indexOf`: the first result that does not pass, `|vs|` if every one does. */
  function FirstFailed(vs: seq<Verdict>): (i: nat)
    ensures i <= |vs| && forall j :: 0 <= j < i ==> !vs[j].Failed?
    ensures i < |vs| ==> vs[i].Failed?
  {
    if vs == [] || vs[0].Failed? then 0 else 1 + FirstFailed(vs[1..])
  }

  function Verdicts(h: Host, cs: seq<Owned>, ctx: Context): seq<Verdict> {
    MapSeq((o: Owned) => EvaluateOne(h, o.constraint, ctx), cs)
  }

  function ApplyLocalPolicyMerge(
    h: Host, ps: seq<Policy>, action: string, permissions: seq<string>, ctx: Context): Merge
  {
    var applicable := Applicable(ps, action, permissions);
    var all := Collected(applicable);
    var verdicts := Verdicts(h, all, ctx);
    var i := FirstFailed(verdicts);
    if applicable == [] then NotApplied
    else if i == |verdicts| then Applied
    else DeniedBy(all[i].owner, verdicts[i].error)
  }

  ghost predicate Fails(h: Host, p: Policy, ctx: Context) {
    !PassesAll(h, p.constraints, ctx)
  }

  /** The first policy of a list with a failing constraint. */
  ghost predicate FirstToFail(h: Host, ps: seq<Policy>, ctx: Context, k: nat) {
    k < |ps| && Fails(h, ps[k], ctx) && forall j :: 0 <= j < k ==> !Fails(h, ps[j], ctx)
  }

  /** Where the first failing collected constraint is, `|Collected(ps)|` if none fails. */
  function FirstFailure(h: Host, ps: seq<Policy>, ctx: Context): nat {
    FirstFailed(Verdicts(h, Collected(ps), ctx))
  }

  lemma TaggedFailure(h: Host, p: Policy, ctx: Context)
    ensures FirstFailed(Verdicts(h, Tagged(p), ctx)) < |Tagged(p)| <==> Fails(h, p, ctx)
  {
    var vs := Verdicts(h, Tagged(p), ctx);
    assert forall i :: 0 <= i < |vs| ==> vs[i] == EvaluateOne(h, p.constraints[i], ctx);
    if Fails(h, p, ctx) {
      var c :| c in p.constraints && !Passes(h, c, ctx);
      var i :| 0 <= i < |p.constraints| && p.constraints[i] == c;
      assert vs[i].Failed?;
    }
    if FirstFailed(vs) < |vs| {
      assert p.constraints[FirstFailed(vs)] in p.constraints && !Passes(h, p.constraints[FirstFailed(vs)], ctx);
    }
  }

  lemma {:induction false} FailedIn(a: seq<Verdict>, b: seq<Verdict>)
    ensures FirstFailed(a + b) == if FirstFailed(a) < |a| then FirstFailed(a) else |a| + FirstFailed(b)
  {
    if a == [] {
      assert a + b == b;
    } else {
      assert (a + b)[1..] == a[1..] + b;
      FailedIn(a[1..], b);
    }
  }

  lemma FailureAfter(h: Host, ps: seq<Policy>, ctx: Context)
    requires ps != []
    ensures FirstFailure(h, ps, ctx) == if Fails(h, ps[0], ctx) then FirstFailed(Verdicts(h, Tagged(ps[0]), ctx))
                                        else |Tagged(ps[0])| + FirstFailure(h, ps[1..], ctx)
    ensures Fails(h, ps[0], ctx) ==> FirstFailure(h, ps, ctx) < |Tagged(ps[0])|
  {
    var a, b := Tagged(ps[0]), Collected(ps[1..]);
    TaggedFailure(h, ps[0], ctx);
    FailedIn(Verdicts(h, a, ctx), Verdicts(h, b, ctx));
    assert Verdicts(h, a + b, ctx) == Verdicts(h, a, ctx) + Verdicts(h, b, ctx);
  }

  lemma {:induction false} FailureSomewhere(h: Host, ps: seq<Policy>, ctx: Context)
    ensures FirstFailure(h, ps, ctx) < |Collected(ps)| <==> exists k :: 0 <= k < |ps| && Fails(h, ps[k], ctx)
  {
    if ps != [] {
      FailureSomewhere(h, ps[1..], ctx);
      FailureAfter(h, ps, ctx);
      assert forall k :: 0 < k < |ps| ==> ps[k] == ps[1..][k - 1];
    }
  }

  ghost predicate OwnedBy(h: Host, ps: seq<Policy>, ctx: Context, i: nat, k: nat) {
    FirstToFail(h, ps, ctx, k) && i < |Collected(ps)| && Collected(ps)[i].owner == ps[k].id
  }

  lemma OwnedByRest(h: Host, ps: seq<Policy>, ctx: Context, i: nat, k: nat)
    requires ps != [] && !Fails(h, ps[0], ctx) && OwnedBy(h, ps[1..], ctx, i, k)
    ensures OwnedBy(h, ps, ctx, |Tagged(ps[0])| + i, k + 1)
  {
    assert Collected(ps)[|Tagged(ps[0])| + i] == Collected(ps[1..])[i];
    assert forall j :: 0 < j < |ps| ==> ps[j] == ps[1..][j - 1];
  }

  /** The first failing collected constraint belongs to the first policy that has a failing one. */
  lemma {:induction false} OwnerOfFirst(h: Host, ps: seq<Policy>, ctx: Context) returns (k: nat)
    requires FirstFailure(h, ps, ctx) < |Collected(ps)|
    ensures OwnedBy(h, ps, ctx, FirstFailure(h, ps, ctx), k)
  {
    FailureAfter(h, ps, ctx);
    if Fails(h, ps[0], ctx) {
      k := 0;
    } else {
      var rest := OwnerOfFirst(h, ps[1..], ctx);
      OwnedByRest(h, ps, ctx, FirstFailure(h, ps[1..], ctx), rest);
      k := rest + 1;
    }
  }

  lemma {:induction false} ApplicableMembers(ps: seq<Policy>, action: string, permissions: seq<string>, p: Policy)
    ensures p in Applicable(ps, action, permissions) <==> p in ps && Applies(p, action, permissions)
  {
    if ps != [] {
      ApplicableMembers(ps[1..], action, permissions, p);
      assert ps == [ps[0]] + ps[1..];
    }
  }

  /** A policy without targets always applies; else the action must be a target, or, without one, a permission. */
  lemma AppliesExactly(p: Policy, action: string, permissions: seq<string>)
    ensures Applies(p, action, permissions) <==>
            || |p.targets| == 0
            || (action != "" && action in p.targets)
            || (action == "" && exists x :: x in p.targets && x in permissions)
  {
  }

  /** Nothing is merged exactly when no policy applies. */
  lemma NotAppliedExactly(h: Host, ps: seq<Policy>, action: string, permissions: seq<string>, ctx: Context)
    ensures ApplyLocalPolicyMerge(h, ps, action, permissions, ctx).NotApplied?
            <==> forall p :: p in ps ==> !Applies(p, action, permissions)
  {
    var applicable := Applicable(ps, action, permissions);
    forall p
      ensures p in applicable <==> p in ps && Applies(p, action, permissions)
    {
      ApplicableMembers(ps, action, permissions, p);
    }
    if applicable != [] { assert applicable[0] in applicable; }
  }

  /** Local policy denies exactly when some applicable policy has a failing constraint. */
  lemma DeniesExactly(h: Host, ps: seq<Policy>, action: string, permissions: seq<string>, ctx: Context)
    ensures ApplyLocalPolicyMerge(h, ps, action, permissions, ctx).DeniedBy?
            <==> exists p :: p in ps && Applies(p, action, permissions) && Fails(h, p, ctx)
  {
    var applicable := Applicable(ps, action, permissions);
    FailureSomewhere(h, applicable, ctx);
    forall p
      ensures p in applicable <==> p in ps && Applies(p, action, permissions)
    {
      ApplicableMembers(ps, action, permissions, p);
    }
    if k :| 0 <= k < |applicable| && Fails(h, applicable[k], ctx) {
      assert applicable[k] in applicable;
    }
  }

  /** And it names the first applicable policy with a failing constraint. */
  lemma NamesFirstOwner(h: Host, ps: seq<Policy>, action: string, permissions: seq<string>, ctx: Context)
    returns (k: nat)
    requires ApplyLocalPolicyMerge(h, ps, action, permissions, ctx).DeniedBy?
    ensures FirstToFail(h, Applicable(ps, action, permissions), ctx, k)
    ensures ApplyLocalPolicyMerge(h, ps, action, permissions, ctx).policyId == Applicable(ps, action, permissions)[k].id
  {
    k := OwnerOfFirst(h, Applicable(ps, action, permissions), ctx);
  }

  /** Policy `n` applies and has a failing constraint, and none before it does both. */
  ghost predicate FirstDenier(
    h: Host, ps: seq<Policy>, action: string, permissions: seq<string>, ctx: Context, n: nat)
  {
    && n < |ps| && Applies(ps[n], action, permissions) && Fails(h, ps[n], ctx)
    && forall m :: 0 <= m < n ==> !(Applies(ps[m], action, permissions) && Fails(h, ps[m], ctx))
  }

  lemma DenierAfter(
    h: Host, ps: seq<Policy>, action: string, permissions: seq<string>, ctx: Context, n: nat)
    requires ps != [] && FirstDenier(h, ps[1..], action, permissions, ctx, n)
    requires !(Applies(ps[0], action, permissions) && Fails(h, ps[0], ctx))
    ensures FirstDenier(h, ps, action, permissions, ctx, n + 1)
  {
    assert forall m :: 0 < m < |ps| ==> ps[m] == ps[1..][m - 1];
  }

  lemma {:induction false} DenierInOrder(
    h: Host, ps: seq<Policy>, action: string, permissions: seq<string>, ctx: Context, k: nat) returns (n: nat)
    requires FirstToFail(h, Applicable(ps, action, permissions), ctx, k)
    ensures FirstDenier(h, ps, action, permissions, ctx, n) && ps[n] == Applicable(ps, action, permissions)[k]
  {
    var applicable, rest := Applicable(ps, action, permissions), Applicable(ps[1..], action, permissions);
    if Applies(ps[0], action, permissions) {
      if k == 0 {
        n := 0;
      } else {
        assert forall j :: 0 <= j < |rest| ==> rest[j] == applicable[j + 1];
        assert !Fails(h, applicable[0], ctx);
        n := DenierInOrder(h, ps[1..], action, permissions, ctx, k - 1);
        DenierAfter(h, ps, action, permissions, ctx, n);
        n := n + 1;
      }
    } else {
      n := DenierInOrder(h, ps[1..], action, permissions, ctx, k);
      DenierAfter(h, ps, action, permissions, ctx, n);
      n := n + 1;
    }
  }

  /** In the order the policies are fetched, the one named is the first to apply and fail. */
  lemma NamesFirstDenier(h: Host, ps: seq<Policy>, action: string, permissions: seq<string>, ctx: Context)
    returns (n: nat)
    requires ApplyLocalPolicyMerge(h, ps, action, permissions, ctx).DeniedBy?
    ensures FirstDenier(h, ps, action, permissions, ctx, n)
    ensures ApplyLocalPolicyMerge(h, ps, action, permissions, ctx).policyId == ps[n].id
  {
    var k := NamesFirstOwner(h, ps, action, permissions, ctx);
    n := DenierInOrder(h, ps, action, permissions, ctx, k);
  }
}
