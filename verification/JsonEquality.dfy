/** Equal up to object key order, and what equality of printed texts therefore means. */
module JsonEquality {
  import opened Common
  import opened JsonText
  import opened CanonicalJson

  /** Equality of JSON values up to the order of object members; an undefined member is no member. */
  ghost predicate Equiv(a: Json, b: Json)
    decreases a
  {
    match (a, b)
    case (Arr(xs), Arr(ys)) => |xs| == |ys| && forall i :: 0 <= i < |xs| ==> Equiv(xs[i], ys[i])
    case (Obj(ms), Obj(ns)) =>
      && (forall i :: 0 <= i < |ms| && !ms[i].value.Undefined? ==>
            exists j :: 0 <= j < |ns| && ns[j].key == ms[i].key && Equiv(ms[i].value, ns[j].value))
      && (forall j :: 0 <= j < |ns| && !ns[j].value.Undefined? ==>
            exists i :: 0 <= i < |ms| && ms[i].key == ns[j].key && !ms[i].value.Undefined?)
    case _ => a == b
  }

  /** No object names a member twice, all the way down. */
  predicate WellFormed(v: Json) {
    match v
    case Arr(items) => forall i :: 0 <= i < |items| ==> WellFormed(items[i])
    case Obj(ms) => DistinctEntries(ms) && forall i :: 0 <= i < |ms| ==> WellFormed(ms[i].value)
    case _ => true
  }

  lemma {:induction false} PresentMembers(ms: seq<Member>, m: Member)
    ensures m in Present(ms) <==> m in ms && !m.value.Undefined?
  {
    if ms != [] {
      PresentMembers(ms[1..], m);
      assert ms == [ms[0]] + ms[1..];
    }
  }

  lemma {:induction false} PresentDistinct(ms: seq<Member>)
    requires DistinctEntries(ms)
    ensures DistinctEntries(Present(ms))
  {
    if ms != [] {
      PresentDistinct(ms[1..]);
      var ps := Present(ms[1..]);
      forall i | 0 <= i < |ps|
        ensures ps[i].key != ms[0].key
      {
        assert ps[i] in ms[1..];
      }
    }
  }

  lemma CanonEntries(ms: seq<Member>)
    requires WellFormed(Obj(ms))
    ensures DistinctEntries(Present(CanonMembers(ms)))
  {
    PresentDistinct(CanonMembers(ms));
  }

  /** One object's present entries all appear in the other's. */
  ghost predicate Covers(ms: seq<Member>, ns: seq<Member>) {
    forall i :: 0 <= i < |ms| && !ms[i].value.Undefined? ==>
      exists j :: 0 <= j < |ns| && ns[j].key == ms[i].key && Canon(ns[j].value) == Canon(ms[i].value)
  }

  lemma CoversEntries(ms: seq<Member>, ns: seq<Member>)
    ensures Covers(ms, ns) <==> forall e :: e in Present(CanonMembers(ms)) ==> e in Present(CanonMembers(ns))
  {
    var cs, ds := CanonMembers(ms), CanonMembers(ns);
    forall e
      ensures e in Present(cs) <==> e in cs && !e.value.Undefined?
      ensures e in Present(ds) <==> e in ds && !e.value.Undefined?
    {
      PresentMembers(cs, e);
      PresentMembers(ds, e);
    }
    if Covers(ms, ns) {
      forall e | e in Present(cs)
        ensures e in Present(ds)
      {
        var i :| 0 <= i < |cs| && cs[i] == e;
        var j :| 0 <= j < |ns| && ns[j].key == ms[i].key && Canon(ns[j].value) == Canon(ms[i].value);
        assert ds[j] == e;
      }
    }
    if forall e :: e in Present(cs) ==> e in Present(ds) {
      forall i | 0 <= i < |ms| && !ms[i].value.Undefined?
        ensures exists j :: 0 <= j < |ns| && ns[j].key == ms[i].key && Canon(ns[j].value) == Canon(ms[i].value)
      {
        assert cs[i] in cs && cs[i] in Present(cs);
        var j :| 0 <= j < |ds| && ds[j] == cs[i];
        assert ns[j].key == ms[i].key;
      }
    }
  }

  lemma CanonObjects(ms: seq<Member>, ns: seq<Member>)
    requires WellFormed(Obj(ms)) && WellFormed(Obj(ns))
    ensures Canon(Obj(ms)) == Canon(Obj(ns)) <==> Covers(ms, ns) && Covers(ns, ms)
  {
    CanonEntries(ms);
    CanonEntries(ns);
    SortEqual(Present(CanonMembers(ms)), Present(CanonMembers(ns)));
    CoversEntries(ms, ns);
    CoversEntries(ns, ms);
    assert Canon(Obj(ms)) == Obj(SortByKey(Present(CanonMembers(ms))));
    assert Canon(Obj(ns)) == Obj(SortByKey(Present(CanonMembers(ns))));
  }

  /** For members already known to agree with their canonical forms, `Equiv` is mutual cover. */
  lemma EquivCovers(ms: seq<Member>, ns: seq<Member>)
    requires DistinctEntries(ms) && DistinctEntries(ns)
    requires forall i, j :: 0 <= i < |ms| && 0 <= j < |ns| ==>
               (Equiv(ms[i].value, ns[j].value) <==> Canon(ms[i].value) == Canon(ns[j].value))
    ensures Equiv(Obj(ms), Obj(ns)) <==> Covers(ms, ns) && Covers(ns, ms)
  {
    if Equiv(Obj(ms), Obj(ns)) {
      forall j | 0 <= j < |ns| && !ns[j].value.Undefined?
        ensures exists i :: 0 <= i < |ms| && ms[i].key == ns[j].key && Canon(ms[i].value) == Canon(ns[j].value)
      {
        var i :| 0 <= i < |ms| && ms[i].key == ns[j].key && !ms[i].value.Undefined?;
        var k :| 0 <= k < |ns| && ns[k].key == ms[i].key && Equiv(ms[i].value, ns[k].value);
        assert k == j;
      }
    }
    if Covers(ms, ns) && Covers(ns, ms) {
      forall i | 0 <= i < |ms| && !ms[i].value.Undefined?
        ensures exists j :: 0 <= j < |ns| && ns[j].key == ms[i].key && Equiv(ms[i].value, ns[j].value)
      {
        var j :| 0 <= j < |ns| && ns[j].key == ms[i].key && Canon(ns[j].value) == Canon(ms[i].value);
        assert Equiv(ms[i].value, ns[j].value);
      }
    }
  }

  /** Canonical forms are equal exactly when the values are equal up to key order. */
  lemma {:induction false} CanonEqual(a: Json, b: Json)
    requires WellFormed(a) && WellFormed(b)
    ensures Equiv(a, b) <==> Canon(a) == Canon(b)
    decreases a
  {
    match (a, b)
    case (Arr(xs), Arr(ys)) =>
      if |xs| == |ys| {
        forall i | 0 <= i < |xs|
          ensures Equiv(xs[i], ys[i]) <==> Canon(a).items[i] == Canon(b).items[i]
        {
          CanonEqual(xs[i], ys[i]);
        }
      } else {
        assert |Canon(a).items| != |Canon(b).items|;
      }
    case (Obj(ms), Obj(ns)) =>
      forall i, j | 0 <= i < |ms| && 0 <= j < |ns|
        ensures Equiv(ms[i].value, ns[j].value) <==> Canon(ms[i].value) == Canon(ns[j].value)
      {
        CanonEqual(ms[i].value, ns[j].value);
      }
      EquivCovers(ms, ns);
      CanonObjects(ms, ns);
    case _ =>
  }

  /** Parsing the printed text, whatever legally follows it, gives back the canonical value. */
  lemma PrintReadsBack(style: Style, v: Json, rest: Text)
    requires Fit(style, v) && Continues(rest)
    ensures Print(style, v).Some? && Read(Print(style, v).value + rest) == Some((Canon(v), rest))
  {
    PrintsCanon(style, v);
    ReadsBack(Canon(v), rest);
  }

  /**
   The printed text of an object reads back to its members in the order of their keys: of two neighbours
   the first key is a proper beginning of the second or has the smaller code unit where they part.
   */
  lemma PrintedInKeyOrder(style: Style, ms: seq<Member>, i: nat) returns (k: nat)
    requires Fit(style, Obj(ms)) && WellFormed(Obj(ms))
    ensures
      && Print(style, Obj(ms)).Some?
      && var read := Read(Print(style, Obj(ms)).value);
      && read.Some? && read.value.0.Obj? && read.value.1 == []
      && var ns := read.value.0.members;
      && (forall key :: HasKey(ns, key) <==> exists m :: m in ms && m.key == key && !m.value.Undefined?)
      && (i + 1 < |ns| ==>
            var a, b := ns[i].key, ns[i + 1].key;
            || (|a| < |b| && a == b[..|a|])
            || (k < |a| && k < |b| && a[..k] == b[..k] && a[k] < b[k]))
  {
    k := 0;
    PrintReadsBack(style, Obj(ms), []);
    assert Print(style, Obj(ms)).value + [] == Print(style, Obj(ms)).value;
    var ps := Present(CanonMembers(ms));
    var ns := SortByKey(ps);
    CanonEntries(ms);
    SortAscends(ps);
    forall key
      ensures HasKey(ns, key) <==> exists m :: m in ms && m.key == key && !m.value.Undefined?
    {
      KeysKept(ms, key);
    }
    if i + 1 < |ns| {
      var a, b := ns[i].key, ns[i + 1].key;
      LessMeans(a, b);
      if n: nat :| PartsAt(a, b, n) { k := n; }
    }
  }

  predicate HasKey(ms: seq<Member>, key: Text) {
    exists m :: m in ms && m.key == key
  }

  lemma KeysKept(ms: seq<Member>, key: Text)
    ensures HasKey(SortByKey(Present(CanonMembers(ms))), key) <==>
            exists m :: m in ms && m.key == key && !m.value.Undefined?
  {
    var cs := CanonMembers(ms);
    if m :| m in SortByKey(Present(cs)) && m.key == key {
      SortMembers(Present(cs), m);
      PresentMembers(cs, m);
      var j :| 0 <= j < |cs| && cs[j] == m;
      assert ms[j] in ms;
    }
    if m :| m in ms && m.key == key && !m.value.Undefined? {
      var j :| 0 <= j < |ms| && ms[j] == m;
      assert cs[j] in cs;
      PresentMembers(cs, cs[j]);
      SortMembers(Present(cs), cs[j]);
    }
  }

  /** Two values print alike, under any two of the printers, exactly when they are equal up to key order. */
  lemma PrintEqual(style: Style, a: Json, style': Style, b: Json)
    requires Fit(style, a) && Fit(style', b) && WellFormed(a) && WellFormed(b)
    ensures Print(style, a) == Print(style', b) <==> Equiv(a, b)
  {
    PrintsCanon(style, a);
    PrintsCanon(style', b);
    WriteInjective(Canon(a), Canon(b));
    CanonEqual(a, b);
  }

  lemma {:induction false} SortOfAscending(es: seq<Member>)
    requires Ascending(es)
    ensures SortByKey(es) == es
  {
    if es != [] {
      SortOfAscending(es[1..]);
      if |es| > 1 { LessTotal(es[0].key, es[1].key); }
      assert es == [es[0]] + es[1..];
    }
  }

  lemma {:induction false} PresentAll(ms: seq<Member>)
    requires forall i :: 0 <= i < |ms| ==> !ms[i].value.Undefined?
    ensures Present(ms) == ms
  {
    if ms != [] {
      PresentAll(ms[1..]);
      assert ms == [ms[0]] + ms[1..];
    }
  }

  /** A canonical value is well formed and its own canonical form. */
  lemma {:induction false} CanonIdempotent(v: Json)
    requires WellFormed(v)
    ensures WellFormed(Canon(v)) && Canon(Canon(v)) == Canon(v)
    decreases v
  {
    match v
    case Arr(items) =>
      forall i | 0 <= i < |items|
        ensures WellFormed(Canon(items[i])) && Canon(Canon(items[i])) == Canon(items[i])
      {
        CanonIdempotent(items[i]);
      }
    case Obj(ms) =>
      var cs := Present(CanonMembers(ms));
      var sorted := SortByKey(cs);
      assert Canon(v) == Obj(sorted);
      CanonEntries(ms);
      SortAscends(cs);
      forall i | 0 <= i < |sorted|
        ensures !sorted[i].value.Undefined? && WellFormed(sorted[i].value) && Canon(sorted[i].value) == sorted[i].value
      {
        SortMembers(cs, sorted[i]);
        PresentMembers(CanonMembers(ms), sorted[i]);
        var j :| 0 <= j < |ms| && CanonMembers(ms)[j] == sorted[i];
        CanonIdempotent(ms[j].value);
      }
      CanonicalObject(sorted);
    case _ =>
  }

  lemma CanonicalObject(sorted: seq<Member>)
    requires Ascending(sorted)
    requires forall i :: 0 <= i < |sorted| ==>
               !sorted[i].value.Undefined? && WellFormed(sorted[i].value) && Canon(sorted[i].value) == sorted[i].value
    ensures WellFormed(Obj(sorted)) && Canon(Obj(sorted)) == Obj(sorted)
  {
    assert CanonMembers(sorted) == sorted;
    PresentAll(sorted);
    SortOfAscending(sorted);
    forall i, j | 0 <= i < j < |sorted|
      ensures sorted[i].key != sorted[j].key
    {
      LessTotal(sorted[i].key, sorted[j].key);
    }
  }
}
