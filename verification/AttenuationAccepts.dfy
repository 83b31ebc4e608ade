/**
 What the attenuation checker accepts, rule by rule: where both sides set what it compares, exactly the
 delegates that admit no more than the parent.
 */
module AttenuationAccepts {
  import opened Common
  import opened Constraints
  import opened Attenuation
  import opened AttenuationExact

  // ---- Which delegate constraint is compared ---------------------------------------------------

  /** A pair is matched by id as soon as one side has one, else by field. */
  lemma SameTargetMeans(p: Constraint, d: Constraint)
    ensures SameTarget(p, d) <==>
            && p.rule.SameType(d.rule)
            && ((p.id != "" && p.id == d.id) || (p.id == "" && d.id == "" && p.field == d.field))
  {
  }

  lemma SameTypeMeans(p: Rule, d: Rule)
    ensures p.SameType(d) <==>
            || (p.NumericLimit? && d.NumericLimit?) || (p.TemporalWindow? && d.TemporalWindow?)
            || (p.EnumeratedList? && d.EnumeratedList?) || (p.StringPattern? && d.StringPattern?)
            || (p.CumulativeLimit? && d.CumulativeLimit?) || (p.UsageLimit? && d.UsageLimit?)
            || (p.UnknownRule? && d == p)
  {
  }

  /** The delegate's first constraint of the target is the one compared. */
  lemma {:induction false} FirstTarget(p: Constraint, ds: seq<Constraint>, i: nat)
    requires i < |ds| && SameTarget(p, ds[i]) && forall j :: 0 <= j < i ==> !SameTarget(p, ds[j])
    ensures FindTarget(p, ds) == Some(ds[i])
  {
    if i > 0 {
      assert forall j :: 0 <= j < i - 1 ==> ds[1..][j] == ds[j + 1];
      FirstTarget(p, ds[1..], i - 1);
    }
  }

  // ---- What one rule accepts -------------------------------------------------------------------

  lemma NumberBetween(operator: string, p: int, d: int) returns (n: int)
    requires KnownOperator(operator)
    ensures Compare(operator, n, d)
    ensures operator in {"lte", "lt"} && p < d ==> !Compare(operator, n, p)
    ensures operator in {"gte", "gt"} && d < p ==> !Compare(operator, n, p)
    ensures operator == "eq" && d != p ==> !Compare(operator, n, p)
  {
    n := if operator == "lt" then d - 1 else if operator == "gt" then d + 1 else d;
  }

  /** A numeric delegate is accepted exactly when it keeps the operator and admits no other number. */
  lemma NumericAcceptedExactly(h: Host, p: Constraint, d: Constraint)
    requires p.rule.NumericLimit? && d.rule.NumericLimit? && KnownOperator(p.rule.operator)
    ensures IsMoreRestrictive(h, p, d) <==>
            && d.rule.operator == p.rule.operator
            && forall n :: Compare(d.rule.operator, n, d.rule.value) ==> Compare(p.rule.operator, n, p.rule.value)
  {
    if d.rule.operator == p.rule.operator {
      var n := NumberBetween(p.rule.operator, p.rule.value, d.rule.value);
    }
  }

  /** So is an exact, prefix or suffix delegate, over strings. */
  lemma PatternAcceptedExactly(h: Host, p: Constraint, d: Constraint)
    requires p.rule.StringPattern? && d.rule.StringPattern? && KnownMatch(p.rule.matchType)
    ensures IsMoreRestrictive(h, p, d) <==>
            && d.rule.matchType == p.rule.matchType
            && forall s :: MatchesPattern(d.rule.matchType, d.rule.pattern, s) ==>
                 MatchesPattern(p.rule.matchType, p.rule.pattern, s)
  {
    if d.rule.matchType == p.rule.matchType {
      assert MatchesPattern(d.rule.matchType, d.rule.pattern, d.rule.pattern);
      if IsMoreRestrictive(h, p, d) {
        forall s | MatchesPattern(d.rule.matchType, d.rule.pattern, s)
          ensures MatchesPattern(p.rule.matchType, p.rule.pattern, s)
        {
          PatternSound(p.rule, d.rule, s);
        }
      }
    }
  }

  /** Allow lists are compared where both are set, deny lists likewise, each by what it alone would admit. */
  lemma ListAcceptedExactly(h: Host, p: Constraint, d: Constraint)
    requires p.rule.EnumeratedList? && d.rule.EnumeratedList?
    ensures IsMoreRestrictive(h, p, d) <==>
            && (p.rule.allowed.Some? && d.rule.allowed.Some? ==>
                  forall v :: Listed(d.rule.allowed, None, v) ==> Listed(p.rule.allowed, None, v))
            && (p.rule.denied.Some? && d.rule.denied.Some? ==>
                  forall v :: Listed(None, d.rule.denied, v) ==> Listed(None, p.rule.denied, v))
  {
    if p.rule.allowed.Some? && d.rule.allowed.Some? {
      assert forall v :: Listed(d.rule.allowed, None, v) <==> v in d.rule.allowed.value;
      assert forall v :: Listed(p.rule.allowed, None, v) <==> v in p.rule.allowed.value;
    }
    if p.rule.denied.Some? && d.rule.denied.Some? {
      assert forall v :: Listed(None, d.rule.denied, v) <==> v !in d.rule.denied.value;
      assert forall v :: Listed(None, p.rule.denied, v) <==> v !in p.rule.denied.value;
    }
  }

  /** A time of day that is set and reads as one. */
  predicate Reads(h: Host, time: string) {
    time != "" && h.minutes(time).Some?
  }

  /** Bounds are compared where both are set and read, days where both lists are given. */
  lemma WindowAcceptedExactly(h: Host, p: Constraint, d: Constraint)
    requires p.rule.TemporalWindow? && d.rule.TemporalWindow?
    ensures IsMoreRestrictive(h, p, d) <==>
            && (Reads(h, p.rule.validFrom) && Reads(h, d.rule.validFrom) ==>
                  forall m :: NotBefore(h, d.rule.validFrom, m) ==> NotBefore(h, p.rule.validFrom, m))
            && (Reads(h, p.rule.validUntil) && Reads(h, d.rule.validUntil) ==>
                  forall m :: NotAfter(h, d.rule.validUntil, m) ==> NotAfter(h, p.rule.validUntil, m))
            && (p.rule.daysOfWeek.Some? && d.rule.daysOfWeek.Some? ==>
                  forall day :: day in d.rule.daysOfWeek.value ==> day in p.rule.daysOfWeek.value)
  {
    if Reads(h, d.rule.validFrom) { assert NotBefore(h, d.rule.validFrom, h.minutes(d.rule.validFrom).value); }
    if Reads(h, d.rule.validUntil) { assert NotAfter(h, d.rule.validUntil, h.minutes(d.rule.validUntil).value); }
  }

  /** A stateful limit is accepted if no higher, over the same window; an absent period or scope is the default. */
  lemma UsageAcceptedExactly(h: Host, p: Constraint, d: Constraint)
    requires p.rule.UsageLimit? && d.rule.UsageLimit?
    ensures IsMoreRestrictive(h, p, d) <==>
            && p.rule.maxUses.Some? && d.rule.maxUses.Some? && d.rule.maxUses.value <= p.rule.maxUses.value
            && SamePeriod(p.rule.usagePeriod, d.rule.usagePeriod) && SameScope(p.rule.usageScope, d.rule.usageScope)
  {
  }

  lemma CumulativeAcceptedExactly(h: Host, p: Constraint, d: Constraint)
    requires p.rule.CumulativeLimit? && d.rule.CumulativeLimit?
    ensures IsMoreRestrictive(h, p, d) <==>
            && p.field == d.field
            && p.rule.maxAmount.Some? && d.rule.maxAmount.Some? && d.rule.maxAmount.value <= p.rule.maxAmount.value
            && SamePeriod(p.rule.cumulativePeriod, d.rule.cumulativePeriod)
            && SameScope(p.rule.cumulativeScope, d.rule.cumulativeScope)
  {
  }

  predicate SamePeriod(a: string, b: string) {
    a == b || (a in {"", "forever"} && b in {"", "forever"})
  }

  predicate SameScope(a: string, b: string) {
    a == b || (a in {"", "credential"} && b in {"", "credential"})
  }

  /** A type the checker does not know is never accepted. */
  lemma UnknownRefused(h: Host, p: Constraint, d: Constraint)
    requires p.rule.UnknownRule? && p.rule.SameType(d.rule)
    ensures !IsMoreRestrictive(h, p, d)
  {
  }

  /**
   A delegate is accepted exactly when its permissions are among the parent's and the first of its
   constraints on each target of the parent is accepted against the parent's.
   */
  lemma AttenuatesExactly(h: Host, parent: Payload, delegate: Payload)
    ensures VerifyAttenuation(h, parent, delegate) <==>
            && (forall x :: x in delegate.permissions ==> x in parent.permissions)
            && (forall p :: p in parent.constraints ==> exists i :: ComparedAt(h, p, delegate.constraints, i))
  {
    forall p | p in parent.constraints
      ensures (FindTarget(p, delegate.constraints).Some?
               && IsMoreRestrictive(h, p, FindTarget(p, delegate.constraints).value))
              <==> exists i :: ComparedAt(h, p, delegate.constraints, i)
    {
      TargetCompared(h, p, delegate.constraints);
    }
  }

  predicate ComparedAt(h: Host, p: Constraint, ds: seq<Constraint>, i: nat) {
    && i < |ds| && SameTarget(p, ds[i]) && IsMoreRestrictive(h, p, ds[i])
    && forall j :: 0 <= j < i ==> !SameTarget(p, ds[j])
  }

  lemma {:induction false} TargetAt(p: Constraint, ds: seq<Constraint>) returns (i: nat)
    requires FindTarget(p, ds).Some?
    ensures i < |ds| && ds[i] == FindTarget(p, ds).value && forall j :: 0 <= j < i ==> !SameTarget(p, ds[j])
  {
    if SameTarget(p, ds[0]) {
      i := 0;
    } else {
      i := TargetAt(p, ds[1..]);
      assert forall j :: 0 <= j < i ==> ds[1..][j] == ds[j + 1];
      i := i + 1;
    }
  }

  lemma TargetCompared(h: Host, p: Constraint, ds: seq<Constraint>)
    ensures (FindTarget(p, ds).Some? && IsMoreRestrictive(h, p, FindTarget(p, ds).value))
            <==> exists i :: ComparedAt(h, p, ds, i)
  {
    if FindTarget(p, ds).Some? && IsMoreRestrictive(h, p, FindTarget(p, ds).value) {
      var i := TargetAt(p, ds);
      assert ComparedAt(h, p, ds, i);
    }
    if i :| ComparedAt(h, p, ds, i) { FirstTarget(p, ds, i); }
  }
}
