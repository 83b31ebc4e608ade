/**
 Delegation chains, root first: the verifier's walk, what an accepted chain guarantees the leaf
 against every ancestor, and the intermediate that builds the next link.
 */
module DelegationChain {
  import opened Common
  import opened Constraints
  import opened Attenuation

  /** The outcome of verifying one credential of the chain on its own. */
  datatype Verification = Verified(payload: Payload) | Unverified(errorCode: string)

  datatype ChainResult =
    | Accepted(leaf: Option<Payload>, depth: nat)
    | TooDeep
    | Refused(errorCode: string, at: nat)

  const BROKEN := "delegation_chain_broken"
  const WIDENED := "delegation_widened"
  const UNTRUSTED := "issuer_untrusted"

  predicate ValidLink(parent: Payload, delegate: Payload) {
    && delegate.issuerId == parent.agentId
    && delegate.delegatedFrom != ""
    && delegate.delegatedFrom == parent.credentialId
  }

  /** Why link `i` stops the walk, given that the links before it did not. */
  function LinkError(h: Host, creds: seq<Verification>, attenuate: bool, i: nat): Option<string>
    requires i < |creds|
  {
    match creds[i]
    case Unverified(code) => Some(if code == UNTRUSTED && i != 0 then BROKEN else code)
    case Verified(payload) =>
      if i == 0 || creds[i - 1].Unverified? then None
      else if !ValidLink(creds[i - 1].payload, payload) then Some(BROKEN)
      else if attenuate && !VerifyAttenuation(h, creds[i - 1].payload, payload) then Some(WIDENED)
      else None
  }

  /** Every credential verifies, and every link after the root attenuates the one before. */
  ghost predicate AcceptedChain(h: Host, creds: seq<Verification>) {
    forall i :: 0 <= i < |creds| ==> creds[i].Verified? && LinkError(h, creds, true, i).None?
  }

  /** One pass of the verifier's loop: the credential's own result, continuity, then attenuation. */
  method CheckLink(h: Host, creds: seq<Verification>, i: nat, parent: Option<Payload>, attenuate: bool)
    returns (error: Option<string>)
    requires i < |creds|
    requires if i == 0 then parent.None? else creds[i - 1].Verified? && parent == Some(creds[i - 1].payload)
    ensures error == LinkError(h, creds, attenuate, i)
    ensures error.None? ==> creds[i].Verified?
  {
    match creds[i]
    case Unverified(code) =>
      return Some(if code == UNTRUSTED && i != 0 then BROKEN else code);
    case Verified(payload) =>
      if parent.Some? {
        if !ValidLink(parent.value, payload) { return Some(BROKEN); }
        if attenuate && !VerifyAttenuation(h, parent.value, payload) { return Some(WIDENED); }
      }
      return None;
  }

  /** The walk's result: too deep, refused at the first link with an error, or accepted with the last payload. */
  ghost predicate Walked(h: Host, creds: seq<Verification>, maxDepth: nat, attenuate: bool, r: ChainResult) {
    && (r.TooDeep? <==> |creds| > maxDepth)
    && (r.Accepted? <==>
          |creds| <= maxDepth && forall i :: 0 <= i < |creds| ==> LinkError(h, creds, attenuate, i).None?)
    && (r.Accepted? ==> r.depth == |creds|)
    && (r.Accepted? && creds == [] ==> r.leaf.None?)
    && (r.Accepted? && creds != [] ==> r.leaf.Some? && Verified(r.leaf.value) == creds[|creds| - 1])
    && (r.Refused? ==>
          && r.at < |creds| && LinkError(h, creds, attenuate, r.at) == Some(r.errorCode)
          && forall i :: 0 <= i < r.at ==> LinkError(h, creds, attenuate, i).None?)
  }

  /** The verifier's loop over the chain; `creds[i]` is what verifying credential `i` returned. */
  method VerifyDelegationChain(h: Host, creds: seq<Verification>, maxDepth: nat, attenuate: bool)
    returns (r: ChainResult)
    ensures Walked(h, creds, maxDepth, attenuate, r)
  {
    if |creds| > maxDepth { return TooDeep; }
    var parent: Option<Payload> := None;
    var leaf: Option<Payload> := None;
    for i := 0 to |creds|
      invariant forall k :: 0 <= k < i ==> LinkError(h, creds, attenuate, k).None?
      invariant if i == 0 then parent.None? else creds[i - 1].Verified? && parent == Some(creds[i - 1].payload)
      invariant i == |creds| ==> leaf == parent
    {
      var error := CheckLink(h, creds, i, parent, attenuate);
      if error.Some? { return Refused(error.value, i); }
      parent := Some(creds[i].payload);
      if i == |creds| - 1 { leaf := parent; }
    }
    return Accepted(leaf, |creds|);
  }

  /** In an accepted chain every credential names the one before it, its id and its subject, and attenuates it. */
  lemma AcceptedNamesParents(h: Host, creds: seq<Verification>, maxDepth: nat, attenuate: bool, r: ChainResult, i: nat)
    requires Walked(h, creds, maxDepth, attenuate, r) && r.Accepted? && i + 1 < |creds|
    ensures creds[i].Verified? && creds[i + 1].Verified?
    ensures creds[i + 1].payload.delegatedFrom == creds[i].payload.credentialId != ""
    ensures creds[i + 1].payload.issuerId == creds[i].payload.agentId
    ensures attenuate ==> VerifyAttenuation(h, creds[i].payload, creds[i + 1].payload)
  {
    assert LinkError(h, creds, attenuate, i).None? && LinkError(h, creds, attenuate, i + 1).None?;
  }

  /** Nothing is wrong with the credentials before `n`. */
  ghost predicate UnbrokenBefore(h: Host, creds: seq<Verification>, attenuate: bool, n: nat) {
    && n <= |creds| && (forall i :: 0 <= i < n ==> creds[i].Verified?)
    && forall i, j :: 0 <= i && j == i + 1 && j < n ==>
         && creds[j].payload.delegatedFrom == creds[i].payload.credentialId != ""
         && creds[j].payload.issuerId == creds[i].payload.agentId
         && (attenuate ==> VerifyAttenuation(h, creds[i].payload, creds[j].payload))
  }

  lemma UnbrokenHasNoError(h: Host, creds: seq<Verification>, attenuate: bool, n: nat, i: nat)
    requires UnbrokenBefore(h, creds, attenuate, n) && i < n
    ensures LinkError(h, creds, attenuate, i).None?
  {
    if i > 0 { assert creds[i - 1].Verified? && creds[i].Verified?; }
  }

  /**
   The first credential that is bad, or does not follow from the one before it, is where the walk stops,
   with the code of what is wrong; and a chain with none is accepted.
   */
  lemma FirstFaultDecides(h: Host, creds: seq<Verification>, maxDepth: nat, attenuate: bool, r: ChainResult, n: nat)
    requires Walked(h, creds, maxDepth, attenuate, r) && |creds| <= maxDepth
    requires UnbrokenBefore(h, creds, attenuate, n)
    ensures n == |creds| ==> r.Accepted?
    ensures n < |creds| && creds[n].Unverified? ==>
              r == Refused(if creds[n].errorCode == "issuer_untrusted" && n > 0 then "delegation_chain_broken"
                           else creds[n].errorCode, n)
    ensures 0 < n < |creds| && creds[n].Verified? ==>
              var parent, child := creds[n - 1].payload, creds[n].payload;
              if child.delegatedFrom != parent.credentialId || parent.credentialId == ""
                 || child.issuerId != parent.agentId
              then r == Refused("delegation_chain_broken", n)
              else attenuate && !VerifyAttenuation(h, parent, child) ==> r == Refused("delegation_widened", n)
  {
    forall i: nat | i < n
      ensures LinkError(h, creds, attenuate, i).None?
    {
      UnbrokenHasNoError(h, creds, attenuate, n, i);
    }
    if n < |creds| && LinkError(h, creds, attenuate, n).Some? {
      assert r.Refused? && r.at == n;
    }
  }

  lemma NoErrorVerified(h: Host, creds: seq<Verification>, attenuate: bool, i: nat)
    requires i < |creds| && LinkError(h, creds, attenuate, i).None?
    ensures creds[i].Verified?
  {
  }

  /** What the verifier accepts with attenuation required is an accepted chain. */
  lemma NoErrorIsAccepted(h: Host, creds: seq<Verification>)
    requires forall i :: 0 <= i < |creds| ==> LinkError(h, creds, true, i).None?
    ensures AcceptedChain(h, creds)
  {
    forall i | 0 <= i < |creds|
      ensures creds[i].Verified? && LinkError(h, creds, true, i).None?
    {
      NoErrorVerified(h, creds, true, i);
    }
  }

  ghost predicate ChainRestates(h: Host, creds: seq<Verification>)
    requires AcceptedChain(h, creds)
  {
    forall i, j :: 0 <= i && j == i + 1 && j < |creds| ==> RestatesAll(h, creds[i].payload, creds[j].payload)
  }

  /** Each stateful parent constraint has a delegate of its type over its window, no higher. */
  predicate StatefulNarrowed(p: Constraint, d: Constraint) {
    match (p.rule, d.rule)
    case (CumulativeLimit(pl, pp, ps, _), CumulativeLimit(dl, dp, ds, _)) =>
      p.field == d.field && SameWindow(pp, ps, dp, ds) && LimitLowered(pl, dl)
    case (UsageLimit(pl, pp, ps, _), UsageLimit(dl, dp, ds, _)) => SameWindow(pp, ps, dp, ds) && LimitLowered(pl, dl)
    case _ => false
  }

  ghost predicate KeepsStateful(parent: Payload, delegate: Payload) {
    forall p :: p in parent.constraints && p.rule.Stateful() ==>
      exists d :: d in delegate.constraints && StatefulNarrowed(p, d)
  }

  lemma HopKeepsStateful(h: Host, parent: Payload, delegate: Payload)
    requires VerifyAttenuation(h, parent, delegate)
    ensures KeepsStateful(parent, delegate)
  {
    forall p | p in parent.constraints && p.rule.Stateful()
      ensures exists d :: d in delegate.constraints && StatefulNarrowed(p, d)
    {
      var d := FindTarget(p, delegate.constraints).value;
      assert d in delegate.constraints && StatefulNarrowed(p, d);
    }
  }

  lemma KeepsStatefulTransitive(a: Payload, b: Payload, c: Payload)
    requires KeepsStateful(a, b) && KeepsStateful(b, c)
    ensures KeepsStateful(a, c)
  {
    forall p | p in a.constraints && p.rule.Stateful()
      ensures exists d :: d in c.constraints && StatefulNarrowed(p, d)
    {
      var q :| q in b.constraints && StatefulNarrowed(p, q);
      var d :| d in c.constraints && StatefulNarrowed(q, d);
      assert StatefulNarrowed(p, d);
    }
  }

  ghost predicate SubsetOf(perms: seq<string>, of: seq<string>) {
    forall perm :: perm in perms ==> perm in of
  }

  /** What the payload after a hop, or after several, keeps of the one before. */
  ghost predicate Narrows(h: Host, parent: Payload, delegate: Payload, ctx: Context) {
    && SubsetOf(delegate.permissions, parent.permissions)
    && KeepsStateful(parent, delegate)
    && (PassesAll(h, delegate.constraints, ctx) ==> PassesAll(h, parent.constraints, ctx))
  }

  lemma HopNarrows(h: Host, parent: Payload, delegate: Payload, ctx: Context)
    requires VerifyAttenuation(h, parent, delegate) && RestatesAll(h, parent, delegate) && OneLineContext(ctx)
    ensures Narrows(h, parent, delegate, ctx)
  {
    HopKeepsStateful(h, parent, delegate);
    AcceptedHopSound(h, parent, delegate, ctx);
  }

  lemma NarrowsTransitive(h: Host, a: Payload, b: Payload, c: Payload, ctx: Context)
    requires Narrows(h, a, b, ctx) && Narrows(h, b, c, ctx)
    ensures Narrows(h, a, c, ctx)
  {
    KeepsStatefulTransitive(a, b, c);
  }

  /** The hop from link `j` to the next. */
  ghost predicate HopAt(h: Host, creds: seq<Verification>, j: nat, ctx: Context) {
    j + 1 < |creds| && creds[j].Verified? && creds[j + 1].Verified? &&
      Narrows(h, creds[j].payload, creds[j + 1].payload, ctx)
  }

  lemma AcceptedHopNarrows(h: Host, creds: seq<Verification>, j: nat, ctx: Context)
    requires AcceptedChain(h, creds) && ChainRestates(h, creds) && OneLineContext(ctx) && j + 1 < |creds|
    ensures HopAt(h, creds, j, ctx)
  {
    var k := j + 1;
    assert LinkError(h, creds, true, k).None? && creds[j].Verified?;
    HopNarrows(h, creds[j].payload, creds[k].payload, ctx);
  }

  ghost predicate HopsNarrow(h: Host, creds: seq<Verification>, ctx: Context) {
    forall j: nat :: j + 1 < |creds| ==> HopAt(h, creds, j, ctx)
  }

  lemma {:induction false} HopsCompose(h: Host, creds: seq<Verification>, i: nat, k: nat, ctx: Context)
    requires HopsNarrow(h, creds, ctx) && i < k < |creds|
    ensures creds[i].Verified? && creds[k].Verified? && Narrows(h, creds[i].payload, creds[k].payload, ctx)
    decreases k - i
  {
    assert HopAt(h, creds, k - 1, ctx);
    if i < k - 1 {
      HopsCompose(h, creds, i, k - 1, ctx);
      NarrowsTransitive(h, creds[i].payload, creds[k - 1].payload, creds[k].payload, ctx);
    }
  }

  lemma AcceptedHopsNarrow(h: Host, creds: seq<Verification>, ctx: Context)
    requires AcceptedChain(h, creds) && ChainRestates(h, creds) && OneLineContext(ctx)
    ensures HopsNarrow(h, creds, ctx)
  {
    forall j: nat | j + 1 < |creds|
      ensures HopAt(h, creds, j, ctx)
    {
      AcceptedHopNarrows(h, creds, j, ctx);
    }
  }

  /**
   Whole-chain soundness: against every ancestor `i`, a later payload `k` holds no extra
   permission, keeps every stateful limit, and passes no context the ancestor would fail.
   */
  lemma AcceptedChainSound(h: Host, creds: seq<Verification>, i: nat, k: nat, ctx: Context)
    requires AcceptedChain(h, creds) && ChainRestates(h, creds) && OneLineContext(ctx)
    requires i < k < |creds|
    ensures Narrows(h, creds[i].payload, creds[k].payload, ctx)
  {
    AcceptedHopsNarrow(h, creds, ctx);
    HopsCompose(h, creds, i, k, ctx);
  }

  // ---- The producer ----------------------------------------------------------------------------

  datatype Built = Claims(payload: Payload) | MissingArgument

  /** `buildAttenuatedClaims`: permissions and constraints default to the parent's. */
  function BuildAttenuatedClaims(parent: Payload, issuerId: string, audience: string,
                                 permissions: Option<seq<string>>, constraints: Option<seq<Constraint>>,
                                 credentialId: string): Built
  {
    if issuerId == "" || audience == "" then MissingArgument
    else Claims(Payload(credentialId, issuerId, audience, parent.credentialId,
                        if permissions.Some? then permissions.value else parent.permissions,
                        if constraints.Some? then constraints.value else parent.constraints))
  }

  /** Built claims are issued by the given identity to the audience, name the parent, and hold what was given. */
  lemma ClaimsHold(parent: Payload, issuerId: string, audience: string, permissions: Option<seq<string>>,
                   constraints: Option<seq<Constraint>>, credentialId: string)
    requires issuerId != "" && audience != ""
    ensures
      var built := BuildAttenuatedClaims(parent, issuerId, audience, permissions, constraints, credentialId);
      && built.Claims?
      && var child := built.payload;
         && child.issuerId == issuerId && child.agentId == audience && child.credentialId == credentialId
         && child.delegatedFrom == parent.credentialId
         && (permissions.Some? ==> child.permissions == permissions.value)
         && (permissions.None? ==> child.permissions == parent.permissions)
         && (constraints.Some? ==> child.constraints == constraints.value)
         && (constraints.None? ==> child.constraints == parent.constraints)
  {
  }

  /** No two constraints of a payload are one another's target. */
  predicate DistinctTargets(cs: seq<Constraint>) {
    forall i, j :: 0 <= i < j < |cs| ==> !SameTarget(cs[i], cs[j])
  }

  /** A known type, with a finite limit where the rule is stateful. */
  predicate Comparable(c: Constraint) {
    match c.rule
    case CumulativeLimit(limit, _, _, _) => limit.Some?
    case UsageLimit(limit, _, _, _) => limit.Some?
    case UnknownRule(_) => false
    case _ => true
  }

  lemma ComparesToItself(h: Host, c: Constraint)
    ensures SameTarget(c, c)
    ensures IsMoreRestrictive(h, c, c) <==> Comparable(c)
  {
  }

  lemma {:induction false} FindsItself(cs: seq<Constraint>, i: nat)
    requires i < |cs| && DistinctTargets(cs)
    ensures FindTarget(cs[i], cs) == Some(cs[i])
  {
    if i > 0 {
      assert forall a, b :: 0 <= a < b < |cs[1..]| ==> cs[1..][a] == cs[a + 1] && cs[1..][b] == cs[b + 1];
      SameTargetSymmetric(cs[0], cs[i]);
      FindsItself(cs[1..], i - 1);
    }
  }

  lemma SameTargetSymmetric(a: Constraint, b: Constraint)
    ensures SameTarget(a, b) <==> SameTarget(b, a)
  {
  }

  /**
   Claims built with the defaults pass the link check exactly when the issuer is the parent's agent and
   the parent has a credential id, and the attenuation check exactly when every constraint can be compared.
   */
  lemma DefaultsAttenuate(h: Host, parent: Payload, issuerId: string, audience: string, credentialId: string)
    requires DistinctTargets(parent.constraints)
    ensures
      var child := BuildAttenuatedClaims(parent, issuerId, audience, None, None, credentialId);
      && (child.Claims? <==> issuerId != "" && audience != "")
      && (child.Claims? ==>
            && (ValidLink(parent, child.payload) <==> issuerId == parent.agentId && parent.credentialId != "")
            && (VerifyAttenuation(h, parent, child.payload) <==> forall c :: c in parent.constraints ==> Comparable(c)))
  {
    forall c | c in parent.constraints
      ensures FindTarget(c, parent.constraints) == Some(c) && (IsMoreRestrictive(h, c, c) <==> Comparable(c))
    {
      var i :| 0 <= i < |parent.constraints| && parent.constraints[i] == c;
      FindsItself(parent.constraints, i);
      ComparesToItself(h, c);
    }
  }

  /** Each payload after the root was built from its predecessor by that predecessor's subject. */
  ghost predicate ProducedChain(chain: seq<Payload>) {
    && chain != [] && chain[0].agentId != "" && chain[0].credentialId != ""
    && DistinctTargets(chain[0].constraints) && (forall c :: c in chain[0].constraints ==> Comparable(c))
    && forall i, j :: 0 <= i && j == i + 1 && j < |chain| ==>
         chain[j].credentialId != "" &&
         BuildAttenuatedClaims(chain[i], chain[i].agentId, chain[j].agentId, None, None, chain[j].credentialId) ==
           Claims(chain[j])
  }

  lemma {:induction false} ProducedKeepsConstraints(chain: seq<Payload>, i: nat)
    requires ProducedChain(chain) && i < |chain|
    ensures chain[i].constraints == chain[0].constraints && chain[i].agentId != "" && chain[i].credentialId != ""
  {
    if i > 0 {
      ProducedKeepsConstraints(chain, i - 1);
      assert BuildAttenuatedClaims(chain[i - 1], chain[i - 1].agentId, chain[i].agentId, None, None,
        chain[i].credentialId)
             == Claims(chain[i]);
    }
  }

  /** Producer and verifier agree for any number of hops. */
  lemma ProducedChainVerifies(h: Host, chain: seq<Payload>, i: nat)
    requires ProducedChain(chain) && i + 1 < |chain|
    ensures ValidLink(chain[i], chain[i + 1]) && VerifyAttenuation(h, chain[i], chain[i + 1])
  {
    ProducedKeepsConstraints(chain, i);
    var j := i + 1;
    assert BuildAttenuatedClaims(chain[i], chain[i].agentId, chain[j].agentId, None, None, chain[j].credentialId) ==
      Claims(chain[j]);
    DefaultsAttenuate(h, chain[i], chain[i].agentId, chain[j].agentId, chain[j].credentialId);
  }
}
