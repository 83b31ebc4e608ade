/**
 What each type of constraint lets through, as `EvaluateConstraints` answers for a list of one: stated
 on the value the field resolves to.
 */
module ConstraintLaws {
  import opened Common
  import opened Glob
  import opened Constraints

  /** `e` is what evaluating the one constraint gives. */
  ghost predicate Alone(h: Host, c: Constraint, ctx: Context, e: Evaluation) {
    Decides(h, [c], ctx, e)
  }

  lemma AloneIsOne(h: Host, c: Constraint, ctx: Context, e: Evaluation)
    requires Alone(h, c, ctx, e)
    ensures e.results == [EvaluateOne(h, c, ctx)] && (e.pass <==> !e.results[0].Failed?)
    ensures !e.pass ==> e.error == Some(e.results[0].error)
  {
    assert c in [c];
  }

  ghost predicate Reads(ctx: Context, c: Constraint, v: Value) {
    ctx.resolve(c.field) == Resolved(v) && !v.Null?
  }

  // ---- Numbers ---------------------------------------------------------------------------------

  /** What each operator admits at the limit, below it and above it; any other operator admits nothing. */
  lemma NumericLaw(h: Host, c: Constraint, ctx: Context, e: Evaluation, v: Value, n: int)
    requires Alone(h, c, ctx, e) && c.rule.NumericLimit? && Reads(ctx, c, v) && h.number(v) == Some(n)
    ensures n == c.rule.value ==> (e.pass <==> c.rule.operator in {"eq", "lte", "gte"})
    ensures n < c.rule.value ==> (e.pass <==> c.rule.operator in {"lt", "lte"})
    ensures n > c.rule.value ==> (e.pass <==> c.rule.operator in {"gt", "gte"})
    ensures !e.pass ==> e.error == Some("constraint_failed")
  {
    AloneIsOne(h, c, ctx, e);
  }

  lemma NotANumberFails(h: Host, c: Constraint, ctx: Context, e: Evaluation, v: Value)
    requires Alone(h, c, ctx, e) && c.rule.NumericLimit? && Reads(ctx, c, v) && h.number(v).None?
    ensures !e.pass && e.error == Some("constraint_failed")
  {
    AloneIsOne(h, c, ctx, e);
  }

  // ---- Strings ---------------------------------------------------------------------------------

  /** An exact constraint lets its own pattern through and nothing else. */
  lemma ExactLaw(h: Host, c: Constraint, ctx: Context, e: Evaluation, s: string)
    requires Alone(h, c, ctx, e) && c.rule.StringPattern? && c.rule.matchType == "exact" && Reads(ctx, c, Str(s))
    ensures e.pass <==> s == c.rule.pattern
  {
    AloneIsOne(h, c, ctx, e);
  }

  /** A prefix constraint lets a string through exactly when it spells the pattern from its start. */
  lemma PrefixLaw(h: Host, c: Constraint, ctx: Context, e: Evaluation, s: string)
    requires Alone(h, c, ctx, e) && c.rule.StringPattern? && c.rule.matchType == "prefix" && Reads(ctx, c, Str(s))
    ensures e.pass <==> |c.rule.pattern| <= |s| && forall k :: 0 <= k < |c.rule.pattern| ==> s[k] == c.rule.pattern[k]
  {
    AloneIsOne(h, c, ctx, e);
  }

  /** A suffix constraint, exactly when it spells the pattern up to its end. */
  lemma SuffixLaw(h: Host, c: Constraint, ctx: Context, e: Evaluation, s: string)
    requires Alone(h, c, ctx, e) && c.rule.StringPattern? && c.rule.matchType == "suffix" && Reads(ctx, c, Str(s))
    ensures
      var n := |s| - |c.rule.pattern|;
      e.pass <==> 0 <= n && forall k :: 0 <= k < |c.rule.pattern| ==> s[n + k] == c.rule.pattern[k]
  {
    AloneIsOne(h, c, ctx, e);
  }

  /** A glob lets through what its expression accepts; an unknown kind of match nothing. */
  lemma GlobLaw(h: Host, c: Constraint, ctx: Context, e: Evaluation, s: string)
    requires Alone(h, c, ctx, e) && c.rule.StringPattern? && Reads(ctx, c, Str(s))
    requires c.rule.matchType !in {"exact", "prefix", "suffix"}
    ensures e.pass <==> c.rule.matchType == "restricted_glob" && Accepts(Compile(c.rule.pattern), s)
  {
    AloneIsOne(h, c, ctx, e);
  }

  lemma NotAStringFails(h: Host, c: Constraint, ctx: Context, e: Evaluation, v: Value)
    requires Alone(h, c, ctx, e) && c.rule.StringPattern? && Reads(ctx, c, v) && !v.Str?
    ensures !e.pass && e.error == Some("constraint_failed")
  {
    AloneIsOne(h, c, ctx, e);
  }

  // ---- Lists -----------------------------------------------------------------------------------

  /** Deny beats allow; without a deny the allow list decides, and without that nothing is excluded. */
  lemma ListLaw(h: Host, c: Constraint, ctx: Context, e: Evaluation, v: Value)
    requires Alone(h, c, ctx, e) && c.rule.EnumeratedList? && Reads(ctx, c, v)
    ensures c.rule.denied.Some? && v in c.rule.denied.value ==> !e.pass
    ensures (c.rule.denied.None? || v !in c.rule.denied.value) && c.rule.allowed.None? ==> e.pass
    ensures (c.rule.denied.None? || v !in c.rule.denied.value) && c.rule.allowed.Some? ==>
              (e.pass <==> v in c.rule.allowed.value)
    ensures !e.pass ==> e.error == Some("constraint_failed")
  {
    AloneIsOne(h, c, ctx, e);
  }

  // ---- Windows ---------------------------------------------------------------------------------

  /** The instant a window looks at: its field's, or the request's own when it names none or "timestamp". */
  ghost predicate LooksAt(h: Host, c: Constraint, ctx: Context, i: int) {
    if c.field == "" || c.field == "timestamp" then ctx.timestamp == Some(i)
    else exists v :: Reads(ctx, c, v) && h.instant(v) == Some(i)
  }

  /** A window is open on its days from its first minute to its last, both included, on its zone's clock. */
  lemma WindowLaw(h: Host, c: Constraint, ctx: Context, e: Evaluation, i: int, t: LocalTime)
    requires Alone(h, c, ctx, e) && c.rule.TemporalWindow? && LooksAt(h, c, ctx, i)
    requires h.local(i, if c.rule.timezone == "" then "UTC" else c.rule.timezone) == Some(t)
    ensures e.pass <==>
            && !(c.rule.daysOfWeek.Some? && |c.rule.daysOfWeek.value| > 0 && t.day !in c.rule.daysOfWeek.value)
            && !(c.rule.validFrom != "" && h.minutes(c.rule.validFrom).Some?
                 && t.minute < h.minutes(c.rule.validFrom).value)
            && !(c.rule.validUntil != "" && h.minutes(c.rule.validUntil).Some?
                 && t.minute > h.minutes(c.rule.validUntil).value)
    ensures !e.pass ==> e.error == Some("constraint_failed")
  {
    AloneIsOne(h, c, ctx, e);
  }

  /** Without an instant, or on a clock that does not know the zone, it is shut. */
  lemma NoClockFails(h: Host, c: Constraint, ctx: Context, e: Evaluation)
    requires Alone(h, c, ctx, e) && c.rule.TemporalWindow?
    requires forall i :: LooksAt(h, c, ctx, i) ==>
               h.local(i, if c.rule.timezone == "" then "UTC" else c.rule.timezone).None?
    ensures !e.pass
  {
    AloneIsOne(h, c, ctx, e);
    if e.pass {
      var i := if c.field == "" || c.field == "timestamp" then ctx.timestamp.value
               else h.instant(Present(ctx, c.field).value).value;
      assert LooksAt(h, c, ctx, i);
    }
  }

  // ---- Missing fields and types the evaluator does not decide ------------------------------------

  predicate NeedsField(c: Constraint) {
    || c.rule.NumericLimit? || c.rule.EnumeratedList? || c.rule.StringPattern?
    || (c.rule.TemporalWindow? && c.field != "" && c.field != "timestamp")
  }

  /** A field without a value fails the constraint, with the resolver's own code if it gave one. */
  lemma MissingFieldFails(h: Host, c: Constraint, ctx: Context, e: Evaluation)
    requires Alone(h, c, ctx, e) && NeedsField(c)
    ensures ctx.resolve(c.field) == Resolved(Null) ==> !e.pass && e.error == Some("context_field_missing")
    ensures ctx.resolve(c.field).Unresolved? ==>
              && !e.pass
              && var code := ctx.resolve(c.field).code;
                 e.error == Some(if code == "" then "context_field_missing" else code)
  {
    AloneIsOne(h, c, ctx, e);
  }

  /** Stateful limits are left to the reservation; a type nobody knows fails. */
  lemma OtherTypes(h: Host, c: Constraint, ctx: Context, e: Evaluation)
    requires Alone(h, c, ctx, e)
    ensures c.rule.CumulativeLimit? || c.rule.UsageLimit? ==> e.pass && e.results == [Deferred]
    ensures c.rule.UnknownRule? ==> !e.pass && e.error == Some("constraint_unknown")
  {
    AloneIsOne(h, c, ctx, e);
  }
}
