/** The delegation checker's attenuation rules, and what they guarantee to the evaluator. */
module Attenuation {
  import opened Common
  import opened Glob
  import opened GlobRefinement
  import opened GlobSoundness
  import opened Constraints

  datatype Payload = Payload(
    credentialId: string, issuerId: string, agentId: string, delegatedFrom: string,
    permissions: seq<string>, constraints: seq<Constraint>)

  predicate NumericAttenuation(p: Rule, d: Rule)
    requires p.NumericLimit? && d.NumericLimit?
  {
    && p.operator == d.operator
    && (p.operator in {"lte", "lt"} ==> d.value <= p.value)
    && (p.operator in {"gte", "gt"} ==> d.value >= p.value)
    && (p.operator == "eq" ==> d.value == p.value)
  }

  /** A bound is compared only when both sides set it and both parse. */
  predicate BoundsOrdered(h: Host, low: string, high: string) {
    (low != "" && high != "" && h.minutes(low).Some? && h.minutes(high).Some?) ==>
      h.minutes(low).value <= h.minutes(high).value
  }

  predicate TemporalAttenuation(h: Host, p: Rule, d: Rule)
    requires p.TemporalWindow? && d.TemporalWindow?
  {
    && BoundsOrdered(h, p.validFrom, d.validFrom)
    && BoundsOrdered(h, d.validUntil, p.validUntil)
    && (d.daysOfWeek.Some? && p.daysOfWeek.Some? ==>
          forall day :: day in d.daysOfWeek.value ==> day in p.daysOfWeek.value)
  }

  predicate EnumeratedAttenuation(p: Rule, d: Rule)
    requires p.EnumeratedList? && d.EnumeratedList?
  {
    && (d.allowed.Some? && p.allowed.Some? ==> forall v :: v in d.allowed.value ==> v in p.allowed.value)
    && (p.denied.Some? && d.denied.Some? ==> forall v :: v in p.denied.value ==> v in d.denied.value)
  }

  predicate PatternAttenuation(p: Rule, d: Rule)
    requires p.StringPattern? && d.StringPattern?
  {
    && p.matchType == d.matchType
    && (p.matchType == "exact" ==> d.pattern == p.pattern)
    && (p.matchType == "prefix" ==> StartsWith(d.pattern, p.pattern))
    && (p.matchType == "suffix" ==> EndsWith(d.pattern, p.pattern))
    && (p.matchType == "restricted_glob" ==> IsRestrictedGlobRefinement(p.pattern, d.pattern))
  }

  function OrDefault(s: string, default: string): string {
    if s == "" then default else s
  }

  predicate SameWindow(pPeriod: string, pScope: string, dPeriod: string, dScope: string) {
    && OrDefault(dPeriod, "forever") == OrDefault(pPeriod, "forever")
    && OrDefault(dScope, "credential") == OrDefault(pScope, "credential")
  }

  predicate LimitLowered(p: Option<int>, d: Option<int>) {
    p.Some? && d.Some? && d.value <= p.value
  }

  predicate IsMoreRestrictive(h: Host, p: Constraint, d: Constraint)
    requires p.rule.SameType(d.rule)
  {
    match p.rule
    case NumericLimit(_, _) => NumericAttenuation(p.rule, d.rule)
    case TemporalWindow(_, _, _, _) => TemporalAttenuation(h, p.rule, d.rule)
    case EnumeratedList(_, _) => EnumeratedAttenuation(p.rule, d.rule)
    case StringPattern(_, _) => PatternAttenuation(p.rule, d.rule)
    case CumulativeLimit(limit, period, scope, _) =>
      && p.field == d.field
      && SameWindow(period, scope, d.rule.cumulativePeriod, d.rule.cumulativeScope)
      && LimitLowered(limit, d.rule.maxAmount)
    case UsageLimit(limit, period, scope, _) =>
      && SameWindow(period, scope, d.rule.usagePeriod, d.rule.usageScope)
      && LimitLowered(limit, d.rule.maxUses)
    case UnknownRule(_) => false
  }

  predicate SameTarget(p: Constraint, d: Constraint) {
    && p.rule.SameType(d.rule)
    && (if p.id != "" || d.id != "" then p.id == d.id else d.field == p.field)
  }

  /** `delegate.constraints.find(...)`. */
  function FindTarget(p: Constraint, ds: seq<Constraint>): (r: Option<Constraint>)
    ensures r.Some? ==> r.value in ds && SameTarget(p, r.value)
    ensures r.None? ==> forall d :: d in ds ==> !SameTarget(p, d)
  {
    if ds == [] then None else if SameTarget(p, ds[0]) then Some(ds[0]) else FindTarget(p, ds[1..])
  }

  predicate VerifyAttenuation(h: Host, parent: Payload, delegate: Payload) {
    && (forall perm :: perm in delegate.permissions ==> perm in parent.permissions)
    && (forall p :: p in parent.constraints ==>
          var d := FindTarget(p, delegate.constraints);
          d.Some? && IsMoreRestrictive(h, p, d.value))
  }

  // ---- What an accepted pair guarantees ----------------------------------------------------

  /** The glob pair is the parent's own pattern or stays where the glob checker is sound. */
  predicate GlobCovered(parent: string, delegate: string) {
    || parent == delegate
    || (&& WholeStars(Split(parent)) && WholeStars(Split(delegate)) && OneLine(delegate)
        && CountDoubleStars(Split(parent)) <= 1
        && SentinelSafe(Split(parent), Split(delegate))
        && |Split(parent)| <= |Split(delegate)|)
  }

  /** The delegate constraint restates what the parent's sets: field, bounds, zone, days, lists. */
  predicate Restates(h: Host, p: Constraint, d: Constraint)
    requires p.rule.SameType(d.rule)
  {
    && p.field == d.field
    && match p.rule {
         case TemporalWindow(from, until, zone, days) =>
           && (from != "" ==> d.rule.validFrom != "" && h.minutes(d.rule.validFrom).Some?)
           && (until != "" ==> d.rule.validUntil != "" && h.minutes(d.rule.validUntil).Some?)
           && ZoneOf(zone) == ZoneOf(d.rule.timezone)
           && (RestrictsDays(days) ==> RestrictsDays(d.rule.daysOfWeek))
         case EnumeratedList(allowed, denied) =>
           (allowed.Some? ==> d.rule.allowed.Some?) && (denied.Some? ==> d.rule.denied.Some?)
         case StringPattern(pattern, matchType) =>
           matchType == "restricted_glob" ==> GlobCovered(pattern, d.rule.pattern)
         case _ => true
       }
  }

  /** Every string the context resolves to is free of line terminators. */
  ghost predicate OneLineContext(ctx: Context) {
    forall f :: Present(ctx, f).Some? && Present(ctx, f).value.Str? ==> OneLine(Present(ctx, f).value.s)
  }

  lemma PatternSound(p: Rule, d: Rule, s: string)
    requires p.StringPattern? && d.StringPattern? && PatternAttenuation(p, d)
    requires p.matchType == "restricted_glob" ==> GlobCovered(p.pattern, d.pattern) && OneLine(s)
    requires MatchesPattern(d.matchType, d.pattern, s)
    ensures MatchesPattern(p.matchType, p.pattern, s)
  {
    if p.matchType == "suffix" {
      var n, m, k := |s|, |d.pattern|, |p.pattern|;
      assert s[n - m..][m - k..] == s[n - k..];
    } else if p.matchType == "restricted_glob" && p.pattern != d.pattern {
      AcceptedGlobSoundBySegments(p.pattern, d.pattern);
    }
  }

  /** What the checker accepts of one constraint, the evaluator never widens. */
  lemma AcceptedConstraintSound(h: Host, p: Constraint, d: Constraint, ctx: Context)
    requires SameTarget(p, d) && IsMoreRestrictive(h, p, d) && Restates(h, p, d)
    requires OneLineContext(ctx) && Passes(h, d, ctx)
    ensures Passes(h, p, ctx)
  {
    if p.rule.StringPattern? {
      var v := Present(ctx, d.field).value;
      PatternSound(p.rule, d.rule, v.s);
    }
  }

  /** Every parent constraint that has a match in the delegate is restated by it. */
  predicate RestatesAll(h: Host, parent: Payload, delegate: Payload) {
    forall p :: p in parent.constraints ==>
      var d := FindTarget(p, delegate.constraints);
      d.Some? ==> Restates(h, p, d.value)
  }

  /** One hop: permissions shrink and every context the delegate lets through, the parent does. */
  lemma AcceptedHopSound(h: Host, parent: Payload, delegate: Payload, ctx: Context)
    requires VerifyAttenuation(h, parent, delegate) && RestatesAll(h, parent, delegate)
    requires OneLineContext(ctx)
    ensures PassesAll(h, delegate.constraints, ctx) ==> PassesAll(h, parent.constraints, ctx)
  {
    if PassesAll(h, delegate.constraints, ctx) {
      forall p | p in parent.constraints
        ensures Passes(h, p, ctx)
      {
        var d := FindTarget(p, delegate.constraints).value;
        AcceptedConstraintSound(h, p, d, ctx);
      }
    }
  }
}
