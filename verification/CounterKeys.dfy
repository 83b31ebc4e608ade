/**
 The counter a stateful constraint is charged to: a hash of its scope material. When two constraints
 share a counter, within one credential and along a delegation chain.
 */
module CounterKeys {
  import opened Common
  import opened Constraints
  import A = Attenuation
  import D = DelegationChain
  import E = Evaluate
  import R = Reservations
  import Q = SqlReservations
  import Runs = ReservationRuns

  /** A context property as it is read, unresolved; `None` is undefined. */
  type Raw = Option<Value>

  /** What a scope adds to the hashed object. */
  datatype Name = CredentialId | AgentId | IssuerId | Resource

  /** The hashed object; the members of the scope fields are prefixed, so they never meet the others. */
  datatype Material = Material(
    usage: bool, constraintId: string, scope: string, windowStart: string,
    scoped: map<Name, Raw>, fields: map<string, Raw>)

  /** What a key depends on beside the constraint; `start` gives the start of the current window of a period. */
  datatype Scene = Scene(payload: A.Payload, resource: Raw, read: string -> Raw, start: string -> string)

  /** SHA-256 in hex of the printed material, and of a constraint with its index. */
  datatype Sha = Sha(material: Material -> string, indexed: (nat, Constraint) -> string)

  function PeriodOf(c: Constraint): string
    requires c.rule.Stateful()
  {
    var period := if c.rule.UsageLimit? then c.rule.usagePeriod else c.rule.cumulativePeriod;
    if period in {"hour", "day", "month"} then period else "forever"
  }

  function ScopeOf(c: Constraint): string
    requires c.rule.Stateful()
  {
    A.OrDefault(if c.rule.UsageLimit? then c.rule.usageScope else c.rule.cumulativeScope, "credential")
  }

  /** The constraint's id, or a digest that stands in for it. */
  function IdentOf(sha: Sha, c: Constraint, index: nat): string {
    if c.id != "" then c.id else sha.indexed(index, c)
  }

  function Scoped(s: Scene, scope: string): map<Name, Raw> {
    if scope == "credential" then map[CredentialId := Some(Str(s.payload.credentialId))]
    else if scope == "agent" then
      map[AgentId := Some(Str(s.payload.agentId)), IssuerId := Some(Str(s.payload.issuerId))]
    else if scope == "issuer" then map[IssuerId := Some(Str(s.payload.issuerId))]
    else if scope == "resource" then map[AgentId := Some(Str(s.payload.agentId)), Resource := s.resource]
    else map[]
  }

  function Fields(s: Scene, c: Constraint): map<string, Raw>
    requires c.rule.Stateful()
  {
    map f | f in c.rule.scopeFields :: s.read(f)
  }

  function ScopeMaterial(sha: Sha, s: Scene, c: Constraint, index: nat): Material
    requires c.rule.Stateful()
  {
    Material(c.rule.UsageLimit?, IdentOf(sha, c, index), ScopeOf(c), s.start(PeriodOf(c)),
             Scoped(s, ScopeOf(c)), Fields(s, c))
  }

  function CounterKey(sha: Sha, s: Scene, c: Constraint, index: nat): string
    requires c.rule.Stateful()
  {
    "stateful:" + sha.material(ScopeMaterial(sha, s, c, index))
  }

  /** The keys of one evaluation. */
  function KeyFor(sha: Sha, s: Scene): E.KeyFor {
    (c: Constraint, index: nat) => if c.rule.Stateful() then CounterKey(sha, s, c, index) else ""
  }

  /** The window is the named period's, one that never ends for any other; the scope is by default the credential. */
  lemma WindowAndScope(sha: Sha, s: Scene, c: Constraint, i: nat)
    requires c.rule.Stateful()
    ensures
      var m := ScopeMaterial(sha, s, c, i);
      var period := if c.rule.UsageLimit? then c.rule.usagePeriod else c.rule.cumulativePeriod;
      var scope := if c.rule.UsageLimit? then c.rule.usageScope else c.rule.cumulativeScope;
      && (period == "hour" || period == "day" || period == "month" ==> m.windowStart == s.start(period))
      && (period != "hour" && period != "day" && period != "month" ==> m.windowStart == s.start("forever"))
      && (scope == "" ==> m.scope == "credential") && (scope != "" ==> m.scope == scope)
  {
  }

  // ---- When two constraints share a counter ------------------------------------------------------

  /** What the scope reads is the same. */
  predicate ScopeAgrees(s: Scene, s': Scene, scope: string) {
    && (scope == "credential" ==> s.payload.credentialId == s'.payload.credentialId)
    && (scope == "agent" ==> s.payload.agentId == s'.payload.agentId && s.payload.issuerId == s'.payload.issuerId)
    && (scope == "issuer" ==> s.payload.issuerId == s'.payload.issuerId)
    && (scope == "resource" ==> s.payload.agentId == s'.payload.agentId && s.resource == s'.resource)
  }

  predicate FieldsAgree(s: Scene, c: Constraint, s': Scene, c': Constraint)
    requires c.rule.Stateful() && c'.rule.Stateful()
  {
    && (forall f :: f in c.rule.scopeFields ==> f in c'.rule.scopeFields && s.read(f) == s'.read(f))
    && (forall f :: f in c'.rule.scopeFields ==> f in c.rule.scopeFields)
  }

  /** Type, identity, scope, window start and what scope and scope fields read; not the field, not the limit. */
  predicate Alike(sha: Sha, s: Scene, c: Constraint, i: nat, s': Scene, c': Constraint, i': nat)
    requires c.rule.Stateful() && c'.rule.Stateful()
  {
    && c.rule.SameType(c'.rule) && IdentOf(sha, c, i) == IdentOf(sha, c', i')
    && ScopeOf(c) == ScopeOf(c') && s.start(PeriodOf(c)) == s'.start(PeriodOf(c'))
    && ScopeAgrees(s, s', ScopeOf(c)) && FieldsAgree(s, c, s', c')
  }

  predicate NoCollision(sha: Sha, m: Material, m': Material) {
    sha.material(m) == sha.material(m') ==> m == m'
  }

  lemma OneEntry(n: Name, v: Raw, v': Raw)
    ensures map[n := v] == map[n := v'] <==> v == v'
  {
    assert map[n := v][n] == v && map[n := v'][n] == v';
  }

  lemma TwoEntries(n: Name, v: Raw, v': Raw, m: Name, u: Raw, u': Raw)
    requires n != m
    ensures map[n := v, m := u] == map[n := v', m := u'] <==> v == v' && u == u'
  {
    var a, b := map[n := v, m := u], map[n := v', m := u'];
    assert a[n] == v && b[n] == v' && a[m] == u && b[m] == u';
  }

  lemma ScopedExactly(s: Scene, s': Scene, scope: string)
    ensures Scoped(s, scope) == Scoped(s', scope) <==> ScopeAgrees(s, s', scope)
  {
    var p, p' := s.payload, s'.payload;
    if scope == "credential" {
      OneEntry(CredentialId, Some(Str(p.credentialId)), Some(Str(p'.credentialId)));
    } else if scope == "agent" {
      TwoEntries(AgentId, Some(Str(p.agentId)), Some(Str(p'.agentId)), IssuerId,
                 Some(Str(p.issuerId)), Some(Str(p'.issuerId)));
    } else if scope == "issuer" {
      OneEntry(IssuerId, Some(Str(p.issuerId)), Some(Str(p'.issuerId)));
    } else if scope == "resource" {
      TwoEntries(AgentId, Some(Str(p.agentId)), Some(Str(p'.agentId)), Resource, s.resource, s'.resource);
    }
  }

  lemma FieldsExactly(s: Scene, c: Constraint, s': Scene, c': Constraint)
    requires c.rule.Stateful() && c'.rule.Stateful()
    ensures Fields(s, c) == Fields(s', c') <==> FieldsAgree(s, c, s', c')
  {
    var m, m' := Fields(s, c), Fields(s', c');
    if m == m' {
      forall f | f in c.rule.scopeFields || f in c'.rule.scopeFields
        ensures f in c.rule.scopeFields && f in c'.rule.scopeFields && s.read(f) == s'.read(f)
      {
        assert f in m && f in m' && m[f] == m'[f];
      }
    }
  }

  /** Two constraints share a counter exactly when they are alike, as long as the hash does not collide. */
  lemma SharedExactly(sha: Sha, s: Scene, c: Constraint, i: nat, s': Scene, c': Constraint, i': nat)
    requires c.rule.Stateful() && c'.rule.Stateful()
    requires NoCollision(sha, ScopeMaterial(sha, s, c, i), ScopeMaterial(sha, s', c', i'))
    ensures CounterKey(sha, s, c, i) == CounterKey(sha, s', c', i') <==> Alike(sha, s, c, i, s', c', i')
  {
    if ScopeOf(c) == ScopeOf(c') { ScopedExactly(s, s', ScopeOf(c)); }
    FieldsExactly(s, c, s', c');
    SuffixTold("stateful:", sha.material(ScopeMaterial(sha, s, c, i)), sha.material(ScopeMaterial(sha, s', c', i')));
  }

  lemma SuffixTold(prefix: string, a: string, b: string)
    ensures prefix + a == prefix + b <==> a == b
  {
    assert (prefix + a)[|prefix|..] == a && (prefix + b)[|prefix|..] == b;
  }

  // ---- The keys of one credential ------------------------------------------------------------------

  /** No two stateful constraints of the list get one key. */
  ghost predicate KeysApart(keyFor: E.KeyFor, cs: seq<Constraint>) {
    !exists i, j :: Clash(keyFor, cs, i, j)
  }

  predicate Clash(keyFor: E.KeyFor, cs: seq<Constraint>, i: nat, j: nat) {
    i < j < |cs| && cs[i].rule.Stateful() && cs[j].rule.Stateful() && keyFor(cs[i], i) == keyFor(cs[j], j)
  }

  predicate KeyedAt(keyFor: E.KeyFor, cs: seq<Constraint>, key: string, i: nat) {
    i < |cs| && cs[i].rule.Stateful() && keyFor(cs[i], i) == key
  }

  ghost predicate KeyedIn(keyFor: E.KeyFor, cs: seq<Constraint>, key: string) {
    exists i :: KeyedAt(keyFor, cs, key, i)
  }

  /** The list of candidates names the keys of the stateful constraints, and is apart exactly when they are. */
  ghost predicate Keyed(keyFor: E.KeyFor, cs: seq<Constraint>, built: seq<R.Candidate>) {
    && (forall key :: R.Names(built, key) <==> KeyedIn(keyFor, cs, key))
    && (R.DistinctKeys(built) <==> KeysApart(keyFor, cs))
  }

  lemma KeyedLast(keyFor: E.KeyFor, cs: seq<Constraint>, key: string)
    requires cs != []
    ensures KeyedIn(keyFor, cs, key) <==> KeyedIn(keyFor, cs[..|cs| - 1], key) || KeyedAt(keyFor, cs, key, |cs| - 1)
  {
    var before := cs[..|cs| - 1];
    if i: nat :| KeyedAt(keyFor, cs, key, i) && i < |cs| - 1 { assert KeyedAt(keyFor, before, key, i); }
    if i: nat :| KeyedAt(keyFor, before, key, i) { assert KeyedAt(keyFor, cs, key, i); }
  }

  lemma ApartLast(keyFor: E.KeyFor, cs: seq<Constraint>)
    requires cs != []
    ensures
      var before, last := cs[..|cs| - 1], |cs| - 1;
      KeysApart(keyFor, cs) <==>
        KeysApart(keyFor, before) && (cs[last].rule.Stateful() ==> !KeyedIn(keyFor, before, keyFor(cs[last], last)))
  {
    var before, last := cs[..|cs| - 1], |cs| - 1;
    forall i: nat, j: nat
      ensures Clash(keyFor, cs, i, j) <==>
                Clash(keyFor, before, i, j)
                || (j == last && cs[last].rule.Stateful() && KeyedAt(keyFor, before, keyFor(cs[last], last), i))
    {
    }
    if cs[last].rule.Stateful() {
      if i: nat :| KeyedAt(keyFor, before, keyFor(cs[last], last), i) { assert Clash(keyFor, cs, i, last); }
    }
    if i: nat, j: nat :| Clash(keyFor, before, i, j) { assert Clash(keyFor, cs, i, j); }
    if i: nat, j: nat :| Clash(keyFor, cs, i, j) && j != last { assert Clash(keyFor, before, i, j); }
  }

  lemma DistinctSnoc(built: seq<R.Candidate>, c: R.Candidate)
    ensures R.DistinctKeys(built + [c]) <==> R.DistinctKeys(built) && !R.Names(built, c.key)
  {
    var all := built + [c];
    R.NamesLast(all, c.key);
    assert all[..|built|] == built;
    if R.DistinctKeys(all) { R.LastIsNew(all); }
  }

  lemma OneMore(keyFor: E.KeyFor, cs: seq<Constraint>, built: seq<R.Candidate>, c: R.Candidate)
    requires cs != [] && cs[|cs| - 1].rule.Stateful() && c.key == keyFor(cs[|cs| - 1], |cs| - 1)
    requires Keyed(keyFor, cs[..|cs| - 1], built)
    ensures Keyed(keyFor, cs, built + [c])
  {
    forall key
      ensures R.Names(built + [c], key) <==> KeyedIn(keyFor, cs, key)
    {
      R.NamesLast(built + [c], key);
      assert (built + [c])[..|built|] == built;
      KeyedLast(keyFor, cs, key);
    }
    DistinctSnoc(built, c);
    ApartLast(keyFor, cs);
  }

  lemma NoMore(keyFor: E.KeyFor, cs: seq<Constraint>, built: seq<R.Candidate>)
    requires cs != [] && !cs[|cs| - 1].rule.Stateful() && Keyed(keyFor, cs[..|cs| - 1], built)
    ensures Keyed(keyFor, cs, built)
  {
    forall key
      ensures R.Names(built, key) <==> KeyedIn(keyFor, cs, key)
    {
      KeyedLast(keyFor, cs, key);
    }
    ApartLast(keyFor, cs);
  }

  /** What is built from a stateful constraint. */
  lemma BuiltHas(h: Host, keyFor: E.KeyFor, c: Constraint, index: nat, ctx: Context)
    requires c.rule.Stateful() && E.BuildCandidate(h, keyFor, c, index, ctx).Candidates?
    ensures
      var cs := E.BuildCandidate(h, keyFor, c, index, ctx).candidates;
      |cs| == 1 && cs[0].key == keyFor(c, index) && (cs[0].metric.Count? <==> c.rule.UsageLimit?)
  {
  }

  lemma BuildLast(h: Host, keyFor: E.KeyFor, cs: seq<Constraint>, ctx: Context)
    requires cs != [] && E.BuildAll(h, keyFor, cs, ctx).Candidates?
    ensures
      var n, all := |cs| - 1, E.BuildAll(h, keyFor, cs, ctx).candidates;
      && E.BuildAll(h, keyFor, cs[..n], ctx).Candidates?
      && var done := E.BuildAll(h, keyFor, cs[..n], ctx).candidates;
         if cs[n].rule.Stateful() then
           && E.BuildCandidate(h, keyFor, cs[n], n, ctx).Candidates?
           && all == done + E.BuildCandidate(h, keyFor, cs[n], n, ctx).candidates
         else all == done
  {
  }

  /** One candidate per stateful constraint, under its key. */
  lemma {:induction false} BuiltKeyed(h: Host, keyFor: E.KeyFor, cs: seq<Constraint>, ctx: Context)
    requires E.BuildAll(h, keyFor, cs, ctx).Candidates?
    ensures Keyed(keyFor, cs, E.BuildAll(h, keyFor, cs, ctx).candidates)
  {
    if cs != [] {
      var n := |cs| - 1;
      BuildLast(h, keyFor, cs, ctx);
      var done := E.BuildAll(h, keyFor, cs[..n], ctx).candidates;
      BuiltKeyed(h, keyFor, cs[..n], ctx);
      if cs[n].rule.Stateful() {
        BuiltHas(h, keyFor, cs[n], n, ctx);
        var c := E.BuildCandidate(h, keyFor, cs[n], n, ctx).candidates[0];
        OneMore(keyFor, cs, done, c);
        assert [c] == E.BuildCandidate(h, keyFor, cs[n], n, ctx).candidates;
      } else {
        NoMore(keyFor, cs, done);
      }
    }
  }

  /** The hash tells the materials of one credential's stateful constraints apart. */
  predicate TellsApart(sha: Sha, s: Scene) {
    var cs := s.payload.constraints;
    forall i: nat, j: nat :: i < j < |cs| && cs[i].rule.Stateful() && cs[j].rule.Stateful() ==>
      NoCollision(sha, ScopeMaterial(sha, s, cs[i], i), ScopeMaterial(sha, s, cs[j], j))
  }

  predicate TwoAlike(sha: Sha, s: Scene, i: nat, j: nat) {
    var cs := s.payload.constraints;
    i < j < |cs| && cs[i].rule.Stateful() && cs[j].rule.Stateful() && Alike(sha, s, cs[i], i, s, cs[j], j)
  }

  /** A credential's reservation has distinct counter keys exactly when no two of its constraints are alike. */
  lemma DistinctKeysExactly(h: Host, sha: Sha, s: Scene, req: E.Request)
    requires TellsApart(sha, s) && E.CallOf(h, KeyFor(sha, s), s.payload, req).Some?
    ensures R.DistinctKeys(E.CallOf(h, KeyFor(sha, s), s.payload, req).value.candidates) <==>
            !exists i, j :: TwoAlike(sha, s, i, j)
  {
    var cs, keyFor := s.payload.constraints, KeyFor(sha, s);
    BuiltKeyed(h, keyFor, cs, req.ctx);
    forall i, j
      ensures Clash(keyFor, cs, i, j) <==> TwoAlike(sha, s, i, j)
    {
      ClashIsAlike(sha, s, i, j);
    }
  }

  lemma ClashIsAlike(sha: Sha, s: Scene, i: nat, j: nat)
    requires TellsApart(sha, s)
    ensures Clash(KeyFor(sha, s), s.payload.constraints, i, j) <==> TwoAlike(sha, s, i, j)
  {
    var cs := s.payload.constraints;
    if i < j < |cs| && cs[i].rule.Stateful() && cs[j].rule.Stateful() {
      SharedExactly(sha, s, cs[i], i, s, cs[j], j);
    }
  }

  /** Every key of a credential is "stateful:" and 64 characters when the digests are. */
  lemma KeysHaveTheForm(h: Host, sha: Sha, s: Scene, req: E.Request)
    requires E.CallOf(h, KeyFor(sha, s), s.payload, req).Some?
    requires forall m :: |sha.material(m)| == 64
    ensures R.KeysWellFormed(E.CallOf(h, KeyFor(sha, s), s.payload, req).value.candidates)
  {
    var cs, keyFor := s.payload.constraints, KeyFor(sha, s);
    var built := E.BuildAll(h, keyFor, cs, req.ctx).candidates;
    BuiltKeyed(h, keyFor, cs, req.ctx);
    forall c | c in built
      ensures |c.key| == R.KEY_LENGTH
    {
      Runs.NamesMember(built, c.key);
      var i :| KeyedAt(keyFor, cs, c.key, i);
      assert |"stateful:"| == 9;
    }
  }

  /** Different ids are enough: such a credential's calls are the well-formed ones of `ReservationRuns`. */
  lemma IdsKeepApart(h: Host, sha: Sha, s: Scene, req: E.Request)
    requires TellsApart(sha, s) && E.CallOf(h, KeyFor(sha, s), s.payload, req).Some?
    requires forall m :: |sha.material(m)| == 64
    requires
      var cs := s.payload.constraints;
      forall i: nat, j: nat :: i < j < |cs| && cs[i].rule.Stateful() && cs[j].rule.Stateful() ==>
        cs[i].id != "" && cs[j].id != "" && cs[i].id != cs[j].id
    ensures Runs.WellFormedCalls([E.CallOf(h, KeyFor(sha, s), s.payload, req).value])
  {
    DistinctKeysExactly(h, sha, s, req);
    KeysHaveTheForm(h, sha, s, req);
    forall i, j
      ensures !TwoAlike(sha, s, i, j)
    {
    }
  }

  /** The field is not hashed: two limits with one id on different fields are charged to one counter. */
  lemma OneIdTwoFields(h: Host, sha: Sha, s: Scene, c: Constraint, field: string, req: E.Request)
    requires c.rule.Stateful() && c.id != "" && s.payload.constraints == [c, c.(field := field)]
    requires E.CallOf(h, KeyFor(sha, s), s.payload, req).Some?
    ensures !R.DistinctKeys(E.CallOf(h, KeyFor(sha, s), s.payload, req).value.candidates)
  {
    BuiltKeyed(h, KeyFor(sha, s), s.payload.constraints, req.ctx);
    assert ScopeMaterial(sha, s, c, 0) == ScopeMaterial(sha, s, c.(field := field), 1);
    assert Clash(KeyFor(sha, s), s.payload.constraints, 0, 1);
  }

  /** A key says which column of its row it uses, whichever requests it came from. */
  lemma OneMetricPerKey(
    h: Host, sha: Sha, s: Scene, c: Constraint, i: nat, ctx: Context, s': Scene, c': Constraint, i': nat, ctx': Context)
    requires c.rule.Stateful() && c'.rule.Stateful()
    requires NoCollision(sha, ScopeMaterial(sha, s, c, i), ScopeMaterial(sha, s', c', i'))
    requires CounterKey(sha, s, c, i) == CounterKey(sha, s', c', i')
    requires E.BuildCandidate(h, KeyFor(sha, s), c, i, ctx).Candidates?
    requires E.BuildCandidate(h, KeyFor(sha, s'), c', i', ctx').Candidates?
    ensures E.BuildCandidate(h, KeyFor(sha, s), c, i, ctx).candidates[0].metric
         == E.BuildCandidate(h, KeyFor(sha, s'), c', i', ctx').candidates[0].metric
  {
    SharedExactly(sha, s, c, i, s', c', i');
    BuiltHas(h, KeyFor(sha, s), c, i, ctx);
    BuiltHas(h, KeyFor(sha, s'), c', i', ctx');
  }

  // ---- Counters along a delegation chain -----------------------------------------------------------

  /** The same request at the same time, made with another credential. */
  ghost predicate SameRequest(s: Scene, s': Scene) {
    s'.resource == s.resource && s'.read == s.read && s'.start == s.start
  }

  predicate SameScopeFields(c: Constraint, c': Constraint)
    requires c.rule.Stateful() && c'.rule.Stateful()
  {
    (forall f :: f in c.rule.scopeFields ==> f in c'.rule.scopeFields)
    && (forall f :: f in c'.rule.scopeFields ==> f in c.rule.scopeFields)
  }

  lemma AttenuatedKeepsWindow(h: Host, p: Constraint, d: Constraint)
    requires p.rule.Stateful() && A.SameTarget(p, d) && A.IsMoreRestrictive(h, p, d)
    ensures d.rule.Stateful() && p.rule.SameType(d.rule) && PeriodOf(p) == PeriodOf(d) && ScopeOf(p) == ScopeOf(d)
    ensures p.id == d.id || (p.id == "" && d.id == "")
  {
  }

  /**
   A delegate's use of an attenuated limit is charged to the ancestor's own counter exactly when the two
   have one identity, the same scope fields, and the scope does not name what the credentials differ in.
   */
  lemma ChargesAncestorExactly(h: Host, sha: Sha, s: Scene, p: Constraint, i: nat, s': Scene, d: Constraint, j: nat)
    requires p.rule.Stateful() && A.SameTarget(p, d) && A.IsMoreRestrictive(h, p, d) && SameRequest(s, s')
    requires d.rule.Stateful() ==> NoCollision(sha, ScopeMaterial(sha, s, p, i), ScopeMaterial(sha, s', d, j))
    ensures d.rule.Stateful()
    ensures CounterKey(sha, s, p, i) == CounterKey(sha, s', d, j) <==>
            ((p.id != "" || sha.indexed(i, p) == sha.indexed(j, d))
             && SameScopeFields(p, d) && ScopeAgrees(s, s', ScopeOf(p)))
  {
    AttenuatedKeepsWindow(h, p, d);
    SharedExactly(sha, s, p, i, s', d, j);
  }

  function Times(call: R.Call, n: nat): (calls: seq<R.Call>)
    ensures |calls| == n && forall k :: 0 <= k < n ==> calls[k] == call
  {
    seq(n, k => call)
  }

  /** One use, without an idempotency key. */
  function Use(key: string, limit: nat): R.Call {
    R.Call([R.Candidate(key, R.Count, 1, limit)], "")
  }

  lemma UseRaises(s: R.Store, key: string, limit: nat)
    ensures R.AllFit(s, Use(key, limit)) <==> R.Counter(s.counters, key) < limit
    ensures R.AllFit(s, Use(key, limit)) ==>
              R.AfterReserve(s, Use(key, limit)).counters == s.counters[key := R.Counter(s.counters, key) + 1]
  {
    var c := R.Candidate(key, R.Count, 1, limit);
    assert Use(key, limit).candidates == [c] && [c][..0] == [] && c in [c];
    assert R.Due(s, [c], "") == [] + [c];
    assert [] + [c] == [c];
    assert R.Raise(s.counters, [c]) == R.Raise(s.counters, [c][..0])[key := R.Counter(s.counters, key) + 1];
  }

  /** Every call of the run is admitted. */
  ghost predicate AllAdmitted(calls: seq<R.Call>) {
    forall n :: 0 <= n < |calls| ==> R.AllFit(Runs.Run(calls[..n]), calls[n])
  }

  lemma AdmittedSnoc(calls: seq<R.Call>, call: R.Call)
    requires AllAdmitted(calls) && R.AllFit(Runs.Run(calls), call)
    ensures AllAdmitted(calls + [call])
  {
    var all := calls + [call];
    forall n | 0 <= n < |all|
      ensures R.AllFit(Runs.Run(all[..n]), all[n])
    {
      assert all[..n] == calls[..n];
      assert calls[..|calls|] == calls;
    }
  }

  lemma TimesSnoc(call: R.Call, n: nat)
    requires n > 0
    ensures Times(call, n) == Times(call, n - 1) + [call]
  {
  }

  function CounterAfter(calls: seq<R.Call>, key: string): int {
    R.Counter(Runs.Run(calls).counters, key)
  }

  /** All of `after` is admitted; it has used the key `n` times and nothing else since `calls`. */
  ghost predicate Spent(calls: seq<R.Call>, after: seq<R.Call>, key: string, n: nat) {
    && AllAdmitted(after) && CounterAfter(after, key) == n
    && forall k :: k != key ==> CounterAfter(after, k) == CounterAfter(calls, k)
  }

  lemma UsedOnceMore(calls: seq<R.Call>, after: seq<R.Call>, key: string, limit: nat, n: nat)
    requires Spent(calls, after, key, n) && n < limit
    ensures Spent(calls, after + [Use(key, limit)], key, n + 1)
  {
    UseRaises(Runs.Run(after), key, limit);
    AdmittedSnoc(after, Use(key, limit));
    Runs.RunAppends(after, Use(key, limit));
  }

  lemma NoUses(calls: seq<R.Call>, use: R.Call)
    ensures calls + Times(use, 0) == calls
  {
  }

  lemma OneMoreUse(calls: seq<R.Call>, use: R.Call, n: nat)
    requires n > 0
    ensures calls + Times(use, n) == calls + Times(use, n - 1) + [use]
  {
    TimesSnoc(use, n);
    Associative(calls, Times(use, n - 1), [use]);
  }

  /** A counter nothing was charged to admits its limit's number of uses, and no other counter moves. */
  lemma {:induction false} UsesFit(calls: seq<R.Call>, key: string, limit: nat, n: nat) returns (after: seq<R.Call>)
    requires AllAdmitted(calls) && CounterAfter(calls, key) == 0 && n <= limit
    ensures after == calls + Times(Use(key, limit), n) && Spent(calls, after, key, n)
    decreases n
  {
    if n == 0 {
      after := calls;
      NoUses(calls, Use(key, limit));
    } else {
      var before := UsesFit(calls, key, limit, n - 1);
      after := before + [Use(key, limit)];
      UsedOnceMore(calls, before, key, limit, n - 1);
      OneMoreUse(calls, Use(key, limit), n);
    }
  }

  /** The default claims for two delegates of one parent. */
  predicate TwoDelegates(parent: A.Payload, first: A.Payload, second: A.Payload) {
    && first.credentialId != second.credentialId
    && D.BuildAttenuatedClaims(parent, parent.agentId, first.agentId, None, None, first.credentialId) == D.Claims(first)
    && D.BuildAttenuatedClaims(parent, parent.agentId, second.agentId, None, None, second.credentialId) ==
         D.Claims(second)
  }

  lemma OneUse(h: Host, sha: Sha, s: Scene, c: Constraint, limit: nat, req: E.Request)
    requires s.payload.constraints == [c] && c.rule.UsageLimit? && c.rule.maxUses == Some(limit)
    requires E.IdempotencyKey(req) == ""
    ensures E.CallOf(h, KeyFor(sha, s), s.payload, req) == Some(Use(CounterKey(sha, s, c, 0), limit))
  {
    var cs, keyFor := s.payload.constraints, KeyFor(sha, s);
    assert cs[..0] == [] && E.BuildAll(h, keyFor, [], req.ctx) == E.Candidates([]);
    assert E.BuildCandidate(h, keyFor, c, 0, req.ctx) == E.Candidates(Use(CounterKey(sha, s, c, 0), limit).candidates);
    assert [] + Use(CounterKey(sha, s, c, 0), limit).candidates == Use(CounterKey(sha, s, c, 0), limit).candidates;
  }

  lemma SpendBoth(key: string, key': string, limit: nat)
    requires key != key'
    ensures AllAdmitted(Times(Use(key, limit), limit) + Times(Use(key', limit), limit))
  {
    var first := Times(Use(key, limit), limit);
    assert [] + first == first;
    assert Runs.Run([]).counters == map[];
    var once := UsesFit([], key, limit, limit);
    var twice := UsesFit(first, key', limit, limit);
  }

  lemma OneTarget(c: Constraint)
    requires c.rule.UsageLimit? && c.rule.maxUses.Some?
    ensures D.DistinctTargets([c]) && D.Comparable(c)
  {
  }

  lemma BothAccepted(h: Host, parent: A.Payload, c: Constraint, first: A.Payload, second: A.Payload)
    requires parent.constraints == [c] && c.rule.UsageLimit? && c.rule.maxUses.Some?
    requires parent.credentialId != "" && TwoDelegates(parent, first, second)
    ensures D.ValidLink(parent, first) && A.VerifyAttenuation(h, parent, first) && first.constraints == [c]
    ensures D.ValidLink(parent, second) && A.VerifyAttenuation(h, parent, second) && second.constraints == [c]
  {
    OneTarget(c);
    D.DefaultsAttenuate(h, parent, parent.agentId, first.agentId, first.credentialId);
    D.DefaultsAttenuate(h, parent, parent.agentId, second.agentId, second.credentialId);
  }

  /**
   A parent's usage limit in the default scope: each of two accepted delegates spends it in full, so the
   parent's delegates together use it twice.
   */
  lemma DelegatesSpendSeparately(
    h: Host, sha: Sha, parent: A.Payload, s: Scene, s': Scene, c: Constraint, limit: nat, req: E.Request)
    requires parent.constraints == [c] && c.rule.UsageLimit? && c.rule.maxUses == Some(limit) &&
             ScopeOf(c) == "credential"
    requires parent.credentialId != "" && TwoDelegates(parent, s.payload, s'.payload) && E.IdempotencyKey(req) == ""
    requires NoCollision(sha, ScopeMaterial(sha, s, c, 0), ScopeMaterial(sha, s', c, 0))
    ensures D.ValidLink(parent, s.payload) && A.VerifyAttenuation(h, parent, s.payload)
    ensures D.ValidLink(parent, s'.payload) && A.VerifyAttenuation(h, parent, s'.payload)
    ensures
      var first, second := E.CallOf(h, KeyFor(sha, s), s.payload, req), E.CallOf(h, KeyFor(sha, s'), s'.payload, req);
      && first.Some? && second.Some?
      && AllAdmitted(Times(first.value, limit) + Times(second.value, limit))
  {
    BothAccepted(h, parent, c, s.payload, s'.payload);
    OneUse(h, sha, s, c, limit, req);
    OneUse(h, sha, s', c, limit, req);
    SharedExactly(sha, s, c, 0, s', c, 0);
    SpendBoth(CounterKey(sha, s, c, 0), CounterKey(sha, s', c, 0), limit);
  }
}
