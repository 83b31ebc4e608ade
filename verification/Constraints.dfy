/** Typed constraints and the evaluator that decides a request against them. */
module Constraints {
  import opened Common
  import opened Glob

  /** A context value; `Null` also stands for undefined. */
  datatype Value = Num(n: int) | Str(s: string) | Other(tag: nat) | Null

  /** What looking a field up gives: a value, or the resolver's own error code (`""` for none). */
  datatype Resolution = Resolved(value: Value) | Unresolved(code: string)

  /** `""` stands for an absent `id`, `field`, `period`, `scope`, time or timezone (all falsy). */
  datatype Constraint = Constraint(id: string, field: string, rule: Rule)

  datatype Rule =
    | NumericLimit(operator: string, value: int)
    | TemporalWindow(validFrom: string, validUntil: string, timezone: string, daysOfWeek: Option<seq<string>>)
    | EnumeratedList(allowed: Option<seq<Value>>, denied: Option<seq<Value>>)
    | StringPattern(pattern: string, matchType: string)
    | CumulativeLimit(
        maxAmount: Option<int>, cumulativePeriod: string, cumulativeScope: string, scopeFields: seq<string>)
    | UsageLimit(maxUses: Option<int>, usagePeriod: string, usageScope: string, scopeFields: seq<string>)
    | UnknownRule(name: string)
  {
    predicate SameType(other: Rule) {
      match this
      case NumericLimit(_, _) => other.NumericLimit?
      case TemporalWindow(_, _, _, _) => other.TemporalWindow?
      case EnumeratedList(_, _) => other.EnumeratedList?
      case StringPattern(_, _) => other.StringPattern?
      case CumulativeLimit(_, _, _, _) => other.CumulativeLimit?
      case UsageLimit(_, _, _, _) => other.UsageLimit?
      case UnknownRule(name) => other.UnknownRule? && other.name == name
    }

    predicate Stateful() {
      CumulativeLimit? || UsageLimit?
    }
  }

  datatype LocalTime = LocalTime(day: string, minute: int)

  /**
   The JavaScript runtime: `minutes` reads "HH:MM" as a minute of the day, `number` is
   `Number(value)`, `instant` is `new Date(value)` (each `None` for NaN), and `local` is the
   Intl formatter (`None` when it throws on the zone).
   */
  datatype Host = Host(
    minutes: string -> Option<int>,
    number: Value -> Option<int>,
    instant: Value -> Option<int>,
    local: (int, string) -> Option<LocalTime>)

  /** Field resolution and the request's own timestamp, fixed for one evaluation. */
  datatype Context = Context(resolve: string -> Resolution, timestamp: Option<int>)

  datatype Verdict = Passed | Deferred | Failed(error: string)

  const MISSING := "context_field_missing"
  const VIOLATED := "constraint_failed"
  const UNKNOWN := "constraint_unknown"

  /** A field's value, if it resolves to one that is not null. */
  function Present(ctx: Context, field: string): Option<Value> {
    match ctx.resolve(field)
    case Resolved(v) => if v.Null? then None else Some(v)
    case Unresolved(_) => None
  }

  /** The code reported for a field without a value: the resolver's, if it gave one. */
  function MissingCode(ctx: Context, field: string): string {
    match ctx.resolve(field)
    case Unresolved(code) => if code == "" then MISSING else code
    case Resolved(_) => MISSING
  }

  function Require(ok: bool): Verdict {
    if ok then Passed else Failed(VIOLATED)
  }

  predicate KnownOperator(operator: string) {
    operator in {"eq", "lt", "lte", "gt", "gte"}
  }

  predicate Compare(operator: string, a: int, b: int) {
    if operator == "eq" then a == b
    else if operator == "lt" then a < b
    else if operator == "lte" then a <= b
    else if operator == "gt" then a > b
    else operator == "gte" && a >= b
  }

  function EvaluateNumeric(h: Host, field: string, operator: string, value: int, ctx: Context): Verdict {
    match Present(ctx, field)
    case None => Failed(MissingCode(ctx, field))
    case Some(v) =>
      match h.number(v)
      case None => Failed(VIOLATED)
      case Some(n) => Require(Compare(operator, n, value))
  }

  function ZoneOf(timezone: string): string {
    if timezone == "" then "UTC" else timezone
  }

  predicate RestrictsDays(days: Option<seq<string>>) {
    days.Some? && days.value != []
  }

  predicate DayAllowed(days: Option<seq<string>>, day: string) {
    RestrictsDays(days) ==> day in days.value
  }

  /** A bound that is absent, or does not parse, never fails a comparison. */
  predicate NotBefore(h: Host, validFrom: string, minute: int) {
    validFrom != "" && h.minutes(validFrom).Some? ==> h.minutes(validFrom).value <= minute
  }

  predicate NotAfter(h: Host, validUntil: string, minute: int) {
    validUntil != "" && h.minutes(validUntil).Some? ==> minute <= h.minutes(validUntil).value
  }

  predicate InWindow(h: Host, w: Rule, t: LocalTime)
    requires w.TemporalWindow?
  {
    DayAllowed(w.daysOfWeek, t.day) && NotBefore(h, w.validFrom, t.minute) && NotAfter(h, w.validUntil, t.minute)
  }

  function EvaluateTemporal(h: Host, field: string, w: Rule, ctx: Context): Verdict
    requires w.TemporalWindow?
  {
    var useField := field != "" && field != "timestamp";
    if useField && Present(ctx, field).None? then Failed(MissingCode(ctx, field))
    else
      var instant := if useField then h.instant(Present(ctx, field).value) else ctx.timestamp;
      if instant.None? then Failed(VIOLATED)
      else
        match h.local(instant.value, ZoneOf(w.timezone))
        case None => Failed(VIOLATED)
        case Some(t) => Require(InWindow(h, w, t))
  }

  /** Deny takes precedence over allow. */
  predicate Listed(allowed: Option<seq<Value>>, denied: Option<seq<Value>>, v: Value) {
    && !(denied.Some? && v in denied.value)
    && (allowed.Some? ==> v in allowed.value)
  }

  function EvaluateEnumerated(
    field: string, allowed: Option<seq<Value>>, denied: Option<seq<Value>>, ctx: Context): Verdict
  {
    match Present(ctx, field)
    case None => Failed(MissingCode(ctx, field))
    case Some(v) => Require(Listed(allowed, denied, v))
  }

  predicate StartsWith(s: string, prefix: string) {
    prefix <= s
  }

  predicate EndsWith(s: string, suffix: string) {
    |suffix| <= |s| && s[|s| - |suffix|..] == suffix
  }

  predicate MatchesPattern(matchType: string, pattern: string, s: string) {
    if matchType == "exact" then s == pattern
    else if matchType == "prefix" then StartsWith(s, pattern)
    else if matchType == "suffix" then EndsWith(s, pattern)
    else matchType == "restricted_glob" && Accepts(Compile(pattern), s)
  }

  function EvaluatePattern(field: string, pattern: string, matchType: string, ctx: Context): Verdict {
    match Present(ctx, field)
    case None => Failed(MissingCode(ctx, field))
    case Some(v) => Require(v.Str? && MatchesPattern(matchType, pattern, v.s))
  }

  /** One constraint: stateful ones are left to the transactional gate, unknown ones fail. */
  function EvaluateOne(h: Host, c: Constraint, ctx: Context): Verdict {
    match c.rule
    case NumericLimit(operator, value) => EvaluateNumeric(h, c.field, operator, value, ctx)
    case TemporalWindow(_, _, _, _) => EvaluateTemporal(h, c.field, c.rule, ctx)
    case EnumeratedList(allowed, denied) => EvaluateEnumerated(c.field, allowed, denied, ctx)
    case StringPattern(pattern, matchType) => EvaluatePattern(c.field, pattern, matchType, ctx)
    case CumulativeLimit(_, _, _, _) => Deferred
    case UsageLimit(_, _, _, _) => Deferred
    case UnknownRule(_) => Failed(UNKNOWN)
  }

  predicate Passes(h: Host, c: Constraint, ctx: Context) {
    !EvaluateOne(h, c, ctx).Failed?
  }

  ghost predicate PassesAll(h: Host, cs: seq<Constraint>, ctx: Context) {
    forall c :: c in cs ==> Passes(h, c, ctx)
  }

  datatype Evaluation = Evaluation(pass: bool, results: seq<Verdict>, error: Option<string>)

  /** One verdict a constraint, a pass exactly when none failed, and the error of the first that did. */
  ghost predicate Decides(h: Host, cs: seq<Constraint>, ctx: Context, e: Evaluation) {
    && |e.results| == |cs| && (forall i :: 0 <= i < |cs| ==> e.results[i] == EvaluateOne(h, cs[i], ctx))
    && (e.pass <==> PassesAll(h, cs, ctx))
    && (e.pass <==> e.error.None?)
    && (!e.pass ==> exists i :: 0 <= i < |cs| && EvaluateOne(h, cs[i], ctx) == Failed(e.error.value)
                                && forall j :: 0 <= j < i ==> Passes(h, cs[j], ctx))
  }

  /** Conjunctive, total and fail-closed; `ConstraintLaws` says what passes a list of one constraint. */
  method EvaluateConstraints(h: Host, cs: seq<Constraint>, ctx: Context) returns (e: Evaluation)
    ensures Decides(h, cs, ctx, e)
  {
    var results: seq<Verdict> := [];
    var error: Option<string> := None;
    for i := 0 to |cs|
      invariant |results| == i && forall k :: 0 <= k < i ==> results[k] == EvaluateOne(h, cs[k], ctx)
      invariant error.None? ==> forall k :: 0 <= k < i ==> Passes(h, cs[k], ctx)
      invariant error.Some? ==> exists k :: 0 <= k < i && EvaluateOne(h, cs[k], ctx) == Failed(error.value)
                                            && forall j :: 0 <= j < k ==> Passes(h, cs[j], ctx)
    {
      var verdict := EvaluateOne(h, cs[i], ctx);
      results := results + [verdict];
      if error.None? && verdict.Failed? {
        error := Some(verdict.error);
      }
    }
    if error.Some? {
      ghost var k :| 0 <= k < |cs| && EvaluateOne(h, cs[k], ctx) == Failed(error.value);
      assert cs[k] in cs && !Passes(h, cs[k], ctx);
    }
    e := Evaluation(error.None?, results, error);
  }
}
