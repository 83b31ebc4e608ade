/** The exact condition each attenuation rule leaves open: when an accepted pair really narrows. */
module AttenuationExact {
  import opened Common
  import opened Glob
  import opened GlobSoundness
  import opened GlobExact
  import opened Constraints
  import opened Attenuation

  /** `Number` of a number is that number. */
  ghost predicate ReadsNumbers(h: Host) {
    forall n :: h.number(Num(n)) == Some(n)
  }

  /** Whatever context passes the delegate passes the parent. */
  ghost predicate Sound(h: Host, p: Constraint, d: Constraint) {
    forall ctx :: Passes(h, d, ctx) ==> Passes(h, p, ctx)
  }

  /** A context in which only one field has a value. */
  function Only(field: string, v: Value, timestamp: Option<int>): Context {
    Context(f => if f == field then Resolved(v) else Unresolved(""), timestamp)
  }

  /** A constraint pair paired by `id` may name two fields; a numeric pair is sound exactly when it does not. */
  lemma NumericSoundExactly(h: Host, p: Constraint, d: Constraint)
    requires ReadsNumbers(h) && p.rule.NumericLimit? && SameTarget(p, d) && IsMoreRestrictive(h, p, d)
    ensures Sound(h, p, d) <==> p.field == d.field || !KnownOperator(p.rule.operator)
  {
    if p.field != d.field && KnownOperator(p.rule.operator) {
      var v := d.rule.value;
      var n := if d.rule.operator == "lt" then v - 1 else if d.rule.operator == "gt" then v + 1 else v;
      var ctx := Only(d.field, Num(n), None);
      assert Present(ctx, d.field) == Some(Num(n)) && Present(ctx, p.field).None?;
      assert Passes(h, d, ctx) && !Passes(h, p, ctx);
    }
  }

  function Largest(vs: seq<Value>): (n: int)
    ensures forall v :: v in vs && v.Num? ==> v.n <= n
  {
    if vs == [] then 0
    else
      var n := Largest(vs[1..]);
      if vs[0].Num? && vs[0].n > n then vs[0].n else n
  }

  function ListOf(vs: Option<seq<Value>>): seq<Value> {
    if vs.Some? then vs.value else []
  }

  /** A list that lets no value through: an allow list all of whose values are denied. */
  predicate ListsNothing(d: Rule)
    requires d.EnumeratedList?
  {
    d.allowed.Some? && forall v :: v in d.allowed.value ==> v.Null? || v in ListOf(d.denied)
  }

  /** The allow list is kept, and each value no longer denied is not allowed either. */
  predicate ListsKept(p: Rule, d: Rule)
    requires p.EnumeratedList? && d.EnumeratedList?
  {
    && (p.allowed.Some? ==> d.allowed.Some?)
    && (forall v :: v in ListOf(p.denied) && !v.Null? ==>
          v in ListOf(d.denied) || (d.allowed.Some? && v !in d.allowed.value))
  }

  /** A value the delegate's lists let through, unless they let none. */
  lemma SomeListed(d: Rule) returns (v: Value)
    requires d.EnumeratedList? && !ListsNothing(d)
    ensures !v.Null? && Listed(d.allowed, d.denied, v)
  {
    if d.allowed.Some? {
      v :| v in d.allowed.value && !v.Null? && v !in ListOf(d.denied);
    } else {
      v := Num(1 + Largest(ListOf(d.denied)));
    }
  }

  /** On values: dropping `allowed` always widens; dropping a denied value widens unless `allowed` excludes it. */
  lemma ListsKeptExactly(p: Rule, d: Rule)
    requires p.EnumeratedList? && d.EnumeratedList? && EnumeratedAttenuation(p, d)
    ensures (forall v: Value :: !v.Null? && Listed(d.allowed, d.denied, v) ==> Listed(p.allowed, p.denied, v))
            <==> ListsNothing(d) || ListsKept(p, d)
  {
    if !ListsNothing(d) && !ListsKept(p, d) {
      if p.allowed.Some? && d.allowed.None? {
        var vs := p.allowed.value + ListOf(d.denied);
        var v := Num(1 + Largest(vs));
        assert v !in vs;
        assert Listed(d.allowed, d.denied, v) && !Listed(p.allowed, p.denied, v);
      } else {
        var v :| v in ListOf(p.denied) && !v.Null? && v !in ListOf(d.denied) &&
          (d.allowed.None? || v in d.allowed.value);
        assert Listed(d.allowed, d.denied, v) && !Listed(p.allowed, p.denied, v);
      }
    }
  }

  lemma ListPasses(h: Host, c: Constraint, field: string, v: Value)
    requires c.rule.EnumeratedList? && !v.Null?
    ensures Passes(h, c, Only(field, v, None)) <==> c.field == field && Listed(c.rule.allowed, c.rule.denied, v)
  {
    var ctx := Only(field, v, None);
    assert Present(ctx, c.field) == if c.field == field then Some(v) else None;
  }

  /** An accepted list pair is sound exactly when it lists nothing or keeps both the field and the lists. */
  lemma EnumeratedSoundExactly(h: Host, p: Constraint, d: Constraint)
    requires p.rule.EnumeratedList? && SameTarget(p, d) && IsMoreRestrictive(h, p, d)
    ensures Sound(h, p, d) <==> ListsNothing(d.rule) || (p.field == d.field && ListsKept(p.rule, d.rule))
  {
    ListsKeptExactly(p.rule, d.rule);
    if !ListsNothing(d.rule) {
      if p.field != d.field {
        var v := SomeListed(d.rule);
        ListPasses(h, d, d.field, v);
        ListPasses(h, p, d.field, v);
      } else if !ListsKept(p.rule, d.rule) {
        var v: Value :| !v.Null? && Listed(d.rule.allowed, d.rule.denied, v) &&
          !Listed(p.rule.allowed, p.rule.denied, v);
        ListPasses(h, d, d.field, v);
        ListPasses(h, p, d.field, v);
      }
    }
  }

  predicate KnownMatch(matchType: string) {
    matchType == "exact" || matchType == "prefix" || matchType == "suffix"
  }

  lemma PatternPasses(h: Host, c: Constraint, field: string, s: string)
    requires c.rule.StringPattern?
    ensures Passes(h, c, Only(field, Str(s), None)) <==>
            c.field == field && MatchesPattern(c.rule.matchType, c.rule.pattern, s)
  {
    var ctx := Only(field, Str(s), None);
    assert Present(ctx, c.field) == if c.field == field then Some(Str(s)) else None;
  }

  /** Exact, prefix and suffix pairs are sound exactly when both name one field. */
  lemma PatternSoundExactly(h: Host, p: Constraint, d: Constraint)
    requires p.rule.StringPattern? && KnownMatch(p.rule.matchType) && SameTarget(p, d) && IsMoreRestrictive(h, p, d)
    ensures Sound(h, p, d) <==> p.field == d.field
  {
    if p.field != d.field {
      PatternPasses(h, d, d.field, d.rule.pattern);
      PatternPasses(h, p, d.field, d.rule.pattern);
    } else {
      forall ctx | Passes(h, d, ctx)
        ensures Passes(h, p, ctx)
      {
        PatternSound(p.rule, d.rule, Present(ctx, d.field).value.s);
      }
    }
  }

  /** A glob pair is, besides, sound exactly when the expressions are: over contexts free of line terminators. */
  lemma GlobSoundExactly(h: Host, p: Constraint, d: Constraint)
    requires p.rule.StringPattern? && p.rule.matchType == "restricted_glob" && SameTarget(p, d) &&
             IsMoreRestrictive(h, p, d)
    requires OneLine(d.rule.pattern)
    ensures (forall ctx :: OneLineContext(ctx) && Passes(h, d, ctx) ==> Passes(h, p, ctx))
            <==> p.field == d.field && Narrower(p.rule.pattern, d.rule.pattern)
  {
    if p.field != d.field {
      var s := MatchesSomething(d.rule.pattern);
      OneString(h, p, d, s);
    } else if !Narrower(p.rule.pattern, d.rule.pattern) {
      var s :| OneLine(s) && Accepts(Compile(d.rule.pattern), s) && !Accepts(Compile(p.rule.pattern), s);
      OneString(h, p, d, s);
    }
  }

  lemma OneString(h: Host, p: Constraint, d: Constraint, s: string)
    requires p.rule.StringPattern? && d.rule.StringPattern? && OneLine(s) &&
             MatchesPattern(d.rule.matchType, d.rule.pattern, s)
    requires p.field != d.field || !MatchesPattern(p.rule.matchType, p.rule.pattern, s)
    ensures exists ctx :: OneLineContext(ctx) && Passes(h, d, ctx) && !Passes(h, p, ctx)
  {
    PatternPasses(h, d, d.field, s);
    PatternPasses(h, p, d.field, s);
    assert OneLineContext(Only(d.field, Str(s), None));
  }

  // ---- Time windows ----------------------------------------------------------------------------

  const WEEK := ["Mon", "Tue", "Wed", "Thu", "Fri", "Sat", "Sun"]

  /**
   The minutes a local clock shows over a day: 0..1439, or 60..1499 on runtimes that print the hour
   after midnight as 24.
   */
  datatype Minutes = Minutes(first: int, last: int)

  predicate ValidTime(m: Minutes, t: LocalTime) {
    t.day in WEEK && m.first <= t.minute <= m.last
  }

  /** The first and the last minute of the day a window lets through. */
  function FirstMinute(h: Host, m: Minutes, w: Rule): int
    requires w.TemporalWindow?
  {
    if w.validFrom != "" && h.minutes(w.validFrom).Some? && h.minutes(w.validFrom).value > m.first
    then h.minutes(w.validFrom).value else m.first
  }

  function LastMinute(h: Host, m: Minutes, w: Rule): int
    requires w.TemporalWindow?
  {
    if w.validUntil != "" && h.minutes(w.validUntil).Some? && h.minutes(w.validUntil).value < m.last
    then h.minutes(w.validUntil).value else m.last
  }

  predicate AdmitsNothing(h: Host, m: Minutes, w: Rule)
    requires w.TemporalWindow?
  {
    FirstMinute(h, m, w) > LastMinute(h, m, w) || forall day :: day in WEEK ==> !DayAllowed(w.daysOfWeek, day)
  }

  predicate AdmitsEverything(h: Host, m: Minutes, w: Rule)
    requires w.TemporalWindow?
  {
    && FirstMinute(h, m, w) == m.first && LastMinute(h, m, w) == m.last
    && forall day :: day in WEEK ==> DayAllowed(w.daysOfWeek, day)
  }

  /** The delegate's hours and days lie within the parent's. */
  predicate HoursWithin(h: Host, m: Minutes, p: Rule, d: Rule)
    requires p.TemporalWindow? && d.TemporalWindow?
  {
    && FirstMinute(h, m, p) <= FirstMinute(h, m, d)
    && LastMinute(h, m, d) <= LastMinute(h, m, p)
    && (RestrictsDays(p.daysOfWeek) && !RestrictsDays(d.daysOfWeek) ==>
          forall day :: day in WEEK ==> day in p.daysOfWeek.value)
  }

  lemma SomeAdmitted(h: Host, m: Minutes, w: Rule) returns (t: LocalTime)
    requires w.TemporalWindow? && !AdmitsNothing(h, m, w)
    ensures ValidTime(m, t) && InWindow(h, w, t) && t.minute == FirstMinute(h, m, w)
    ensures ValidTime(m, t.(minute := LastMinute(h, m, w))) && InWindow(h, w, t.(minute := LastMinute(h, m, w)))
  {
    var day :| day in WEEK && DayAllowed(w.daysOfWeek, day);
    t := LocalTime(day, FirstMinute(h, m, w));
  }

  /** On one clock: a dropped bound or day list widens unless it restricted nothing, or the delegate is empty. */
  lemma TemporalSoundExactly(h: Host, m: Minutes, p: Rule, d: Rule)
    requires p.TemporalWindow? && d.TemporalWindow? && TemporalAttenuation(h, p, d)
    ensures (forall t :: ValidTime(m, t) && InWindow(h, d, t) ==> InWindow(h, p, t))
            <==> AdmitsNothing(h, m, d) || HoursWithin(h, m, p, d)
  {
    if !AdmitsNothing(h, m, d) {
      var t := SomeAdmitted(h, m, d);
      if (forall t :: ValidTime(m, t) && InWindow(h, d, t) ==> InWindow(h, p, t)) && !RestrictsDays(d.daysOfWeek) {
        forall other | other in WEEK
          ensures DayAllowed(p.daysOfWeek, other)
        {
          assert ValidTime(m, t.(day := other)) && InWindow(h, d, t.(day := other));
        }
      }
    }
  }

  lemma EverythingAdmitted(h: Host, m: Minutes, w: Rule)
    requires w.TemporalWindow? && m.first <= m.last
    ensures AdmitsEverything(h, m, w) <==> forall t :: ValidTime(m, t) ==> InWindow(h, w, t)
  {
    if forall t :: ValidTime(m, t) ==> InWindow(h, w, t) {
      forall day | day in WEEK
        ensures DayAllowed(w.daysOfWeek, day)
      {
        assert ValidTime(m, LocalTime(day, m.first));
      }
      assert ValidTime(m, LocalTime(WEEK[0], m.first)) && ValidTime(m, LocalTime(WEEK[0], m.last));
    }
  }

  /** Where a window takes its instant from: a field, or (`""`) the request's own time. */
  function Source(field: string): string {
    if field == "timestamp" then "" else field
  }

  type Clock = (int, string) -> Option<LocalTime>

  ghost predicate ValidClock(m: Minutes, clock: Clock) {
    forall i, zone :: clock(i, zone).Some? ==> ValidTime(m, clock(i, zone).value)
  }

  function On(h: Host, clock: Clock): Host {
    h.(local := clock)
  }

  /** On every clock and in every context, what passes the delegate passes the parent. */
  ghost predicate WindowSound(h: Host, m: Minutes, p: Constraint, d: Constraint) {
    forall clock: Clock, ctx {:trigger Passes(On(h, clock), d, ctx)} ::
      (ValidClock(m, clock) && Passes(On(h, clock), d, ctx)) ==> Passes(On(h, clock), p, ctx)
  }

  ghost predicate Knows(clock: Clock, zone: string) {
    forall i :: clock(i, zone).Some?
  }

  ghost predicate KnowsBoth(clock: Clock, p: Rule, d: Rule)
    requires p.TemporalWindow? && d.TemporalWindow?
  {
    Knows(clock, ZoneOf(p.timezone)) && Knows(clock, ZoneOf(d.timezone))
  }

  /** The same over clocks that know both zones; any other makes a window fail. */
  ghost predicate WindowSoundKnown(h: Host, m: Minutes, p: Constraint, d: Constraint)
    requires p.rule.TemporalWindow? && d.rule.TemporalWindow?
  {
    forall clock: Clock, ctx {:trigger Passes(On(h, clock), d, ctx)} ::
      (ValidClock(m, clock) && KnowsBoth(clock, p.rule, d.rule) && Passes(On(h, clock), d, ctx)) ==>
        Passes(On(h, clock), p, ctx)
  }

  /** A context whose only instant is the epoch, found where a window with this source looks. */
  function Epoch(source: string): Context {
    if source == "" then Context(f => Unresolved(""), Some(0)) else Only(source, Num(0), None)
  }

  /** `new Date(0)` is the epoch. */
  predicate ReadsEpoch(h: Host) {
    h.instant(Num(0)) == Some(0)
  }

  lemma WindowPasses(h: Host, clock: Clock, c: Constraint, source: string)
    requires c.rule.TemporalWindow? && ReadsEpoch(h) && source != "timestamp"
    ensures Passes(On(h, clock), c, Epoch(source)) <==>
            && Source(c.field) == source
            && clock(0, ZoneOf(c.rule.timezone)).Some? && InWindow(h, c.rule, clock(0, ZoneOf(c.rule.timezone)).value)
  {
    var ctx := Epoch(source);
    assert Present(ctx, c.field) == if source != "" && c.field == source then Some(Num(0)) else None;
  }

  /** The zone `zone` shows `t`, every other one `u`. */
  function Showing(zone: string, t: LocalTime, u: Option<LocalTime>): Clock {
    (i, z) => if z == zone then Some(t) else u
  }

  /** A time the delegate admits in its zone, with the parent looking elsewhere or seeing `u`. */
  lemma WindowWidens(h: Host, m: Minutes, p: Constraint, d: Constraint, t: LocalTime, u: Option<LocalTime>)
    returns (clock: Clock, ctx: Context)
    requires p.rule.TemporalWindow? && d.rule.TemporalWindow? && ReadsEpoch(h)
    requires ValidTime(m, t) && InWindow(h, d.rule, t) && (u.Some? ==> ValidTime(m, u.value))
    requires
      || Source(p.field) != Source(d.field)
      || (ZoneOf(p.rule.timezone) == ZoneOf(d.rule.timezone) && !InWindow(h, p.rule, t))
      || (ZoneOf(p.rule.timezone) != ZoneOf(d.rule.timezone) && (u.None? || !InWindow(h, p.rule, u.value)))
    ensures ValidClock(m, clock) && Passes(On(h, clock), d, ctx) && !Passes(On(h, clock), p, ctx)
    ensures u.Some? ==> KnowsBoth(clock, p.rule, d.rule)
  {
    clock := Showing(ZoneOf(d.rule.timezone), t, u);
    ctx := Epoch(Source(d.field));
    WindowPasses(h, clock, d, Source(d.field));
    WindowPasses(h, clock, p, Source(d.field));
  }

  lemma AdmittedTime(h: Host, clock: Clock, m: Minutes, c: Constraint, ctx: Context) returns (i: int)
    requires c.rule.TemporalWindow? && ValidClock(m, clock) && Passes(On(h, clock), c, ctx)
    ensures clock(i, ZoneOf(c.rule.timezone)).Some? && InWindow(h, c.rule, clock(i, ZoneOf(c.rule.timezone)).value)
    ensures !AdmitsNothing(h, m, c.rule)
    ensures i == if Source(c.field) == "" then ctx.timestamp.value else h.instant(Present(ctx, c.field).value).value
  {
    i := if Source(c.field) == "" then ctx.timestamp.value else h.instant(Present(ctx, c.field).value).value;
    assert ValidTime(m, clock(i, ZoneOf(c.rule.timezone)).value);
  }

  lemma SameClockNarrows(h: Host, clock: Clock, m: Minutes, p: Constraint, d: Constraint, ctx: Context)
    requires p.rule.TemporalWindow? && d.rule.TemporalWindow? && TemporalAttenuation(h, p.rule, d.rule)
    requires Source(p.field) == Source(d.field) && ZoneOf(p.rule.timezone) == ZoneOf(d.rule.timezone)
    requires HoursWithin(h, m, p.rule, d.rule) && ValidClock(m, clock) && Passes(On(h, clock), d, ctx)
    ensures Passes(On(h, clock), p, ctx)
  {
    var i := AdmittedTime(h, clock, m, d, ctx);
    var t := clock(i, ZoneOf(d.rule.timezone)).value;
    TemporalSoundExactly(h, m, p.rule, d.rule);
    assert ValidTime(m, t) && InWindow(h, p.rule, t);
  }

  lemma NothingPasses(h: Host, clock: Clock, m: Minutes, c: Constraint, ctx: Context)
    requires c.rule.TemporalWindow? && ValidClock(m, clock) && AdmitsNothing(h, m, c.rule)
    ensures !Passes(On(h, clock), c, ctx)
  {
    if Passes(On(h, clock), c, ctx) {
      var i := AdmittedTime(h, clock, m, c, ctx);
      assert false;
    }
  }

  /**
   An accepted window pair is sound exactly when the delegate admits nothing, or both look at one
   instant on one zone's clock and the delegate's hours lie within the parent's.
   */
  lemma WindowSoundExactly(h: Host, m: Minutes, p: Constraint, d: Constraint)
    requires p.rule.TemporalWindow? && SameTarget(p, d) && IsMoreRestrictive(h, p, d) && ReadsEpoch(h)
    ensures WindowSound(h, m, p, d) <==>
            || AdmitsNothing(h, m, d.rule)
            || (&& Source(p.field) == Source(d.field) && ZoneOf(p.rule.timezone) == ZoneOf(d.rule.timezone)
                && HoursWithin(h, m, p.rule, d.rule))
  {
    if AdmitsNothing(h, m, d.rule) {
      forall clock: Clock, ctx | ValidClock(m, clock)
        ensures !Passes(On(h, clock), d, ctx)
      {
        NothingPasses(h, clock, m, d, ctx);
      }
    } else if Source(p.field) != Source(d.field) || ZoneOf(p.rule.timezone) != ZoneOf(d.rule.timezone) {
      var t := SomeAdmitted(h, m, d.rule);
      var clock, ctx := WindowWidens(h, m, p, d, t, None);
    } else if !HoursWithin(h, m, p.rule, d.rule) {
      TemporalSoundExactly(h, m, p.rule, d.rule);
      var t :| ValidTime(m, t) && InWindow(h, d.rule, t) && !InWindow(h, p.rule, t);
      var clock, ctx := WindowWidens(h, m, p, d, t, None);
    } else {
      forall clock: Clock, ctx | ValidClock(m, clock) && Passes(On(h, clock), d, ctx)
        ensures Passes(On(h, clock), p, ctx)
      {
        SameClockNarrows(h, clock, m, p, d, ctx);
      }
    }
  }

  /** On clocks that know both zones a parent that admits every minute of every day is safe in any zone. */
  lemma WindowSoundOnKnownZones(h: Host, m: Minutes, p: Constraint, d: Constraint)
    requires p.rule.TemporalWindow? && SameTarget(p, d) && IsMoreRestrictive(h, p, d) && ReadsEpoch(h) &&
             m.first <= m.last
    ensures WindowSoundKnown(h, m, p, d) <==>
            || AdmitsNothing(h, m, d.rule)
            || (&& Source(p.field) == Source(d.field)
                && (|| AdmitsEverything(h, m, p.rule)
                    || (ZoneOf(p.rule.timezone) == ZoneOf(d.rule.timezone) && HoursWithin(h, m, p.rule, d.rule))))
  {
    EverythingAdmitted(h, m, p.rule);
    if AdmitsNothing(h, m, d.rule) {
      forall clock: Clock, ctx | ValidClock(m, clock)
        ensures !Passes(On(h, clock), d, ctx)
      {
        NothingPasses(h, clock, m, d, ctx);
      }
    } else if Source(p.field) != Source(d.field) {
      var t := SomeAdmitted(h, m, d.rule);
      var clock, ctx := WindowWidens(h, m, p, d, t, Some(t));
    } else if AdmitsEverything(h, m, p.rule) {
      forall clock: Clock, ctx | ValidClock(m, clock) && KnowsBoth(clock, p.rule, d.rule) &&
        Passes(On(h, clock), d, ctx)
        ensures Passes(On(h, clock), p, ctx)
      {
        var i := AdmittedTime(h, clock, m, d, ctx);
        assert ValidTime(m, clock(i, ZoneOf(p.rule.timezone)).value);
      }
    } else if ZoneOf(p.rule.timezone) != ZoneOf(d.rule.timezone) {
      var t := SomeAdmitted(h, m, d.rule);
      var u :| ValidTime(m, u) && !InWindow(h, p.rule, u);
      var clock, ctx := WindowWidens(h, m, p, d, t, Some(u));
    } else if !HoursWithin(h, m, p.rule, d.rule) {
      TemporalSoundExactly(h, m, p.rule, d.rule);
      var t :| ValidTime(m, t) && InWindow(h, d.rule, t) && !InWindow(h, p.rule, t);
      var clock, ctx := WindowWidens(h, m, p, d, t, Some(t));
    } else {
      forall clock: Clock, ctx | ValidClock(m, clock) && Passes(On(h, clock), d, ctx)
        ensures Passes(On(h, clock), p, ctx)
      {
        SameClockNarrows(h, clock, m, p, d, ctx);
      }
    }
  }

  /** So the same hours in another zone, though accepted, widen whenever they admit anything. */
  lemma TimezoneUnsound(h: Host, m: Minutes, p: Constraint, d: Constraint)
    requires p.rule.TemporalWindow? && p.rule.timezone != "" && ReadsEpoch(h) && !AdmitsNothing(h, m, p.rule)
    requires d.rule.TemporalWindow? && d == p.(rule := p.rule.(timezone := d.rule.timezone))
    requires d.rule.timezone != "" && d.rule.timezone != p.rule.timezone
    ensures SameTarget(p, d) && IsMoreRestrictive(h, p, d) && !WindowSound(h, m, p, d)
  {
    assert AdmitsNothing(h, m, d.rule) == AdmitsNothing(h, m, p.rule);
    WindowSoundExactly(h, m, p, d);
  }
}
