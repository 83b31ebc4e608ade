/**
 The sorted-key printers that signatures rest on: the engine's, the SDK's and the audit log's. They
 differ only in what they make of undefined.
 */
module CanonicalJson {
  import opened Common
  import opened JsonText

  datatype Style = Engine | Sdk | Audit

  const UNDEFINED_TEXT: Text := [117, 110, 100, 101, 102, 105, 110, 101, 100]

  /** What an undefined array element prints as: `join` makes it empty, the SDK writes null. */
  function Hole(style: Style): Text {
    if style.Sdk? then NULL_TEXT else []
  }

  // ---- Sorting by key --------------------------------------------------------------------------

  /** The order of JavaScript strings: by code unit. */
  predicate Less(a: Text, b: Text) {
    if b == [] then false
    else if a == [] then true
    else if a[0] != b[0] then a[0] < b[0]
    else Less(a[1..], b[1..])
  }

  function Insert<T>(e: Entry<T>, es: seq<Entry<T>>): seq<Entry<T>> {
    if es == [] || !Less(es[0].key, e.key) then [e] + es else [es[0]] + Insert(e, es[1..])
  }

  function SortByKey<T>(es: seq<Entry<T>>): seq<Entry<T>> {
    if es == [] then [] else Insert(es[0], SortByKey(es[1..]))
  }

  predicate DistinctEntries(es: seq<Member>) {
    forall i, j :: 0 <= i < j < |es| ==> es[i].key != es[j].key
  }

  predicate Ascending(es: seq<Member>) {
    forall i, j :: 0 <= i < j < |es| ==> Less(es[i].key, es[j].key)
  }

  lemma {:induction false} LessTotal(a: Text, b: Text)
    ensures a != b ==> Less(a, b) || Less(b, a)
    ensures !(Less(a, b) && Less(b, a))
    decreases |a|
  {
    if a != [] && b != [] && a[0] == b[0] {
      LessTotal(a[1..], b[1..]);
      assert a == [a[0]] + a[1..] && b == [b[0]] + b[1..];
    }
  }

  lemma {:induction false} LessTransitive(a: Text, b: Text, c: Text)
    requires Less(a, b) && Less(b, c)
    ensures Less(a, c)
    decreases |a|
  {
    if a != [] && a[0] == b[0] && b[0] == c[0] { LessTransitive(a[1..], b[1..], c[1..]); }
  }

  /** Where two texts part, and which has the smaller unit there. */
  predicate PartsAt(a: Text, b: Text, k: nat) {
    k < |a| && k < |b| && a[..k] == b[..k] && a[k] < b[k]
  }

  lemma PartsAfter(a: Text, b: Text)
    requires a != [] && b != [] && a[0] == b[0]
    ensures (exists k :: PartsAt(a, b, k)) <==> (exists k :: PartsAt(a[1..], b[1..], k))
  {
    if k: nat :| PartsAt(a, b, k) {
      assert k > 0;
      assert a[1..][..k - 1] == a[..k][1..] && b[1..][..k - 1] == b[..k][1..];
      assert PartsAt(a[1..], b[1..], k - 1);
    }
    if k: nat :| PartsAt(a[1..], b[1..], k) {
      assert a[..k + 1] == [a[0]] + a[1..][..k] && b[..k + 1] == [b[0]] + b[1..][..k];
      assert PartsAt(a, b, k + 1);
    }
  }

  /** A text comes first exactly when it is a proper beginning of the other or has the smaller unit where they part. */
  lemma {:induction false} LessMeans(a: Text, b: Text)
    ensures Less(a, b) <==> (|a| < |b| && a == b[..|a|]) || exists k :: PartsAt(a, b, k)
    decreases |a|
  {
    if a != [] && b != [] {
      if a[0] == b[0] {
        LessMeans(a[1..], b[1..]);
        PartsAfter(a, b);
        assert a == [a[0]] + a[1..] && b == [b[0]] + b[1..];
      } else if a[0] < b[0] {
        assert PartsAt(a, b, 0);
      } else {
        forall k: nat | 0 < k < |a| && k < |b|
          ensures a[..k] != b[..k]
        {
          assert a[..k][0] == a[0] && b[..k][0] == b[0];
        }
      }
    }
  }

  lemma {:induction false} InsertMembers(e: Member, es: seq<Member>, x: Member)
    ensures x in Insert(e, es) <==> x == e || x in es
  {
    if es != [] && Less(es[0].key, e.key) {
      InsertMembers(e, es[1..], x);
      assert es == [es[0]] + es[1..];
    }
  }

  lemma {:induction false} SortMembers(es: seq<Member>, x: Member)
    ensures x in SortByKey(es) <==> x in es
  {
    if es != [] {
      SortMembers(es[1..], x);
      InsertMembers(es[0], SortByKey(es[1..]), x);
      assert es == [es[0]] + es[1..];
    }
  }

  lemma {:induction false} InsertAscends(e: Member, es: seq<Member>)
    requires Ascending(es) && forall x :: x in es ==> x.key != e.key
    ensures Ascending(Insert(e, es))
  {
    if es == [] {
    } else if Less(es[0].key, e.key) {
      InsertAscends(e, es[1..]);
      var rest := Insert(e, es[1..]);
      forall i | 0 <= i < |rest|
        ensures Less(es[0].key, rest[i].key)
      {
        InsertMembers(e, es[1..], rest[i]);
      }
    } else {
      assert es[0] in es;
      LessTotal(es[0].key, e.key);
      forall i | 0 <= i < |es|
        ensures Less(e.key, es[i].key)
      {
        if i > 0 { LessTransitive(e.key, es[0].key, es[i].key); }
      }
    }
  }

  lemma {:induction false} SortAscends(es: seq<Member>)
    requires DistinctEntries(es)
    ensures Ascending(SortByKey(es))
  {
    if es != [] {
      SortAscends(es[1..]);
      forall x | x in SortByKey(es[1..])
        ensures x.key != es[0].key
      {
        SortMembers(es[1..], x);
      }
      InsertAscends(es[0], SortByKey(es[1..]));
    }
  }

  ghost predicate SameEntries(a: seq<Member>, b: seq<Member>) {
    (forall e :: e in a ==> e in b) && (forall e :: e in b ==> e in a)
  }

  lemma EmptyTogether(a: seq<Member>, b: seq<Member>)
    requires SameEntries(a, b)
    ensures a == [] <==> b == []
  {
    if a != [] { assert a[0] in a; }
    if b != [] { assert b[0] in b; }
  }

  lemma AscendingHead(a: seq<Member>, b: seq<Member>)
    requires Ascending(a) && Ascending(b) && SameEntries(a, b) && a != [] && b != []
    ensures a[0] == b[0] && SameEntries(a[1..], b[1..])
  {
    assert a[0] in a && b[0] in b;
    var i :| 0 <= i < |b| && b[i] == a[0];
    var j :| 0 <= j < |a| && a[j] == b[0];
    if i > 0 && j > 0 { LessTotal(a[0].key, b[0].key); }
    LessTotal(a[0].key, a[0].key);
    forall k | 0 < k < |a|
      ensures a[k] in b[1..]
    {
      assert a[k] in a;
      LessTotal(a[0].key, a[k].key);
    }
    forall k | 0 < k < |b|
      ensures b[k] in a[1..]
    {
      assert b[k] in b;
      LessTotal(b[0].key, b[k].key);
    }
  }

  /** Two ascending lists with the same entries are the same list. */
  lemma {:induction false} AscendingUnique(a: seq<Member>, b: seq<Member>)
    requires Ascending(a) && Ascending(b) && SameEntries(a, b)
    ensures a == b
  {
    EmptyTogether(a, b);
    if a != [] {
      AscendingHead(a, b);
      AscendingUnique(a[1..], b[1..]);
    }
  }

  lemma SortEqual(a: seq<Member>, b: seq<Member>)
    requires DistinctEntries(a) && DistinctEntries(b)
    ensures SortByKey(a) == SortByKey(b) <==> SameEntries(a, b)
  {
    SortAscends(a);
    SortAscends(b);
    forall e
      ensures (e in SortByKey(a) <==> e in a) && (e in SortByKey(b) <==> e in b)
    {
      SortMembers(a, e);
      SortMembers(b, e);
    }
    if SameEntries(a, b) { AscendingUnique(SortByKey(a), SortByKey(b)); }
  }

  // ---- The printers ----------------------------------------------------------------------------

  function OrElse(t: Option<Text>, other: Text): Text {
    if t.Some? then t.value else other
  }

  /** The members that are printed; only the audit printer prints undefined ones. */
  function Kept(style: Style, es: seq<Entry<Option<Text>>>): seq<Entry<Text>> {
    if es == [] then []
    else if es[0].value.Some? then [Entry(es[0].key, es[0].value.value)] + Kept(style, es[1..])
    else if style.Audit? then [Entry(es[0].key, UNDEFINED_TEXT)] + Kept(style, es[1..])
    else Kept(style, es[1..])
  }

  function Labelled(es: seq<Entry<Text>>): seq<Text> {
    seq(|es|, i requires 0 <= i < |es| => WriteString(es[i].key) + [COLON] + es[i].value)
  }

  /** `canonicalJson` and `stableStringify`; `None` is the undefined they return for undefined. */
  function Print(style: Style, v: Json): Option<Text>
    decreases v
  {
    match v
    case Undefined => None
    case Arr(items) =>
      var ts := seq(|items|, i requires 0 <= i < |items| => OrElse(Print(style, items[i]), Hole(style)));
      Some([OPEN_BRACKET] + Joined(ts) + [CLOSE_BRACKET])
    case Obj(ms) =>
      var es := seq(|ms|, i requires 0 <= i < |ms| => Entry(ms[i].key, Print(style, ms[i].value)));
      Some([OPEN_BRACE] + Joined(Labelled(SortByKey(Kept(style, es)))) + [CLOSE_BRACE])
    case _ => Some(Write(v))
  }

  lemma OneElement(style: Style, v: Json)
    ensures Print(style, Arr([v])) == Some([91] + OrElse(Print(style, v), Hole(style)) + [93])
  {
    var items := [v];
    var ts := seq(|items|, i requires 0 <= i < |items| => OrElse(Print(style, items[i]), Hole(style)));
    assert |ts| == 1 && ts[0] == OrElse(Print(style, v), Hole(style));
  }

  /** An undefined array element is nothing at all, and null to the SDK. */
  lemma UndefinedElement()
    ensures Print(Engine, Arr([Undefined])) == Print(Audit, Arr([Undefined])) == Some([91, 93])
    ensures Print(Sdk, Arr([Undefined])) == Some([91, 110, 117, 108, 108, 93])
  {
    OneElement(Engine, Undefined);
    OneElement(Audit, Undefined);
    OneElement(Sdk, Undefined);
    var none: Text := [];
    assert [91] + none + [93] == [91, 93];
    assert [91] + NULL_TEXT + [93] == [91, 110, 117, 108, 108, 93];
  }

  lemma OneMember(style: Style, key: Text, v: Json)
    ensures Print(style, Obj([Entry(key, v)])) ==
            Some([123] + Joined(Labelled(Kept(style, [Entry(key, Print(style, v))]))) + [125])
  {
    var ms := [Entry(key, v)];
    var es := [Entry(key, Print(style, v))];
    assert seq(1, i requires 0 <= i < 1 => Entry(ms[i].key, Print(style, ms[i].value))) == es;
    assert es[1..] == [];
    assert SortByKey(Kept(style, es)) == Kept(style, es) by {
      if Kept(style, es) != [] { assert Kept(style, es)[1..] == []; }
    }
  }

  /** An undefined member is left out, but the audit printer writes the word. */
  lemma UndefinedMember(key: Text)
    ensures Print(Engine, Obj([Entry(key, Undefined)])) == Print(Sdk, Obj([Entry(key, Undefined)])) == Some([123, 125])
    ensures Print(Audit, Obj([Entry(key, Undefined)])) ==
            Some([123] + (WriteString(key) + [58] + [117, 110, 100, 101, 102, 105, 110, 101, 100]) + [125])
  {
    OneMember(Engine, key, Undefined);
    OneMember(Sdk, key, Undefined);
    OneMember(Audit, key, Undefined);
    KeptUndefined(key);
    LabelledOne(Entry(key, UNDEFINED_TEXT));
    assert Labelled([]) == [];
    var none: Text := [];
    assert [123] + none + [125] == [123, 125];
  }

  lemma KeptUndefined(key: Text)
    ensures
      var es: seq<Entry<Option<Text>>> := [Entry(key, None)];
      Kept(Engine, es) == [] && Kept(Sdk, es) == [] && Kept(Audit, es) == [Entry(key, UNDEFINED_TEXT)]
  {
    var es: seq<Entry<Option<Text>>> := [Entry(key, None)];
    assert es[1..] == [];
  }

  lemma LabelledOne(e: Entry<Text>)
    ensures Labelled([e]) == [WriteString(e.key) + [COLON] + e.value]
  {
  }

  lemma SortTwo(e: Entry<Text>, f: Entry<Text>)
    requires Less(e.key, f.key)
    ensures SortByKey([f, e]) == SortByKey([e, f]) == [e, f]
  {
    LessTotal(e.key, f.key);
    assert [f, e][1..] == [e] && [e, f][1..] == [f] && [e][1..] == [] && [f][1..] == [];
    assert SortByKey([e]) == [e] && SortByKey([f]) == [f];
  }

  lemma PrintsTwo(style: Style, m: Member, n: Member, t: Text, u: Text)
    requires Print(style, m.value) == Some(t) && Print(style, n.value) == Some(u)
    ensures Print(style, Obj([m, n])) ==
            Some([123] + Joined(Labelled(SortByKey([Entry(m.key, t), Entry(n.key, u)]))) + [125])
  {
    var ms := [m, n];
    var es: seq<Entry<Option<Text>>> := [Entry(m.key, Some(t)), Entry(n.key, Some(u))];
    assert seq(2, i requires 0 <= i < 2 => Entry(ms[i].key, Print(style, ms[i].value))) == es;
    assert es[1..] == [Entry(n.key, Some(u))] && es[1..][1..] == [];
    assert Kept(style, es[1..]) == [Entry(n.key, u)];
    assert Kept(style, es) == [Entry(m.key, t), Entry(n.key, u)];
  }

  lemma JoinTwo(e: Entry<Text>, f: Entry<Text>)
    ensures Joined(Labelled([e, f])) ==
            (WriteString(e.key) + [58] + e.value) + [44] + (WriteString(f.key) + [58] + f.value)
  {
    var ts := Labelled([e, f]);
    assert ts == [WriteString(e.key) + [58] + e.value, WriteString(f.key) + [58] + f.value];
    assert ts[1..] == [WriteString(f.key) + [58] + f.value];
  }

  /** Two members print in the order of their keys, whichever comes first in the object. */
  lemma TwoMembers(style: Style, m: Member, n: Member, t: Text, u: Text)
    requires (|m.key| < |n.key| && m.key == n.key[..|m.key|]) || exists k :: PartsAt(m.key, n.key, k)
    requires Print(style, m.value) == Some(t) && Print(style, n.value) == Some(u)
    ensures
      var text := (WriteString(m.key) + [58] + t) + [44] + (WriteString(n.key) + [58] + u);
      Print(style, Obj([m, n])) == Print(style, Obj([n, m])) == Some([123] + text + [125])
  {
    LessMeans(m.key, n.key);
    SortTwo(Entry(m.key, t), Entry(n.key, u));
    PrintsTwo(style, m, n, t, u);
    PrintsTwo(style, n, m, u, t);
    JoinTwo(Entry(m.key, t), Entry(n.key, u));
  }

  // ---- What the text stands for ----------------------------------------------------------------

  function Present(ms: seq<Member>): (ps: seq<Member>)
    ensures forall i :: 0 <= i < |ps| ==> ps[i] in ms && !ps[i].value.Undefined?
  {
    if ms == [] then []
    else if ms[0].value.Undefined? then Present(ms[1..])
    else [ms[0]] + Present(ms[1..])
  }

  /** Undefined members dropped and members in key order, all the way down. */
  function Canon(v: Json): (c: Json)
    ensures v.Undefined? <==> c.Undefined?
    decreases v
  {
    match v
    case Arr(items) => Arr(seq(|items|, i requires 0 <= i < |items| => Canon(items[i])))
    case Obj(ms) => Obj(SortByKey(Present(seq(|ms|, i requires 0 <= i < |ms| => Entry(ms[i].key, Canon(ms[i].value))))))
    case _ => v
  }

  /** No undefined where the style would print something that is not JSON. */
  predicate Fit(style: Style, v: Json) {
    match v
    case Undefined => false
    case Arr(items) => forall i :: 0 <= i < |items| ==> Fit(style, items[i])
    case Obj(ms) => forall i :: 0 <= i < |ms| ==> (!style.Audit? && ms[i].value.Undefined?) || Fit(style, ms[i].value)
    case _ => true
  }

  function TextEntries(ms: seq<Member>): seq<Entry<Text>>
    requires AllPlain(ms)
  {
    seq(|ms|, i requires 0 <= i < |ms| => Entry(ms[i].key, Write(ms[i].value)))
  }

  /** A member's text, and the canonical member it is the text of. */
  predicate Matches(style: Style, e: Entry<Option<Text>>, c: Member) {
    && e.key == c.key
    && if c.value.Undefined? then !style.Audit? && e.value.None? else Plain(c.value) && e.value == Some(Write(c.value))
  }

  predicate AllPlain(ms: seq<Member>) {
    forall i :: 0 <= i < |ms| ==> Plain(ms[i].value)
  }

  lemma TextEntriesCons(m: Member, ms: seq<Member>)
    requires Plain(m.value) && AllPlain(ms)
    ensures AllPlain([m] + ms) && TextEntries([m] + ms) == [Entry(m.key, Write(m.value))] + TextEntries(ms)
  {
  }

  lemma {:induction false} KeptMatches(style: Style, es: seq<Entry<Option<Text>>>, cs: seq<Member>)
    requires |es| == |cs| && forall i :: 0 <= i < |es| ==> Matches(style, es[i], cs[i])
    ensures AllPlain(Present(cs)) && Kept(style, es) == TextEntries(Present(cs))
  {
    if es != [] {
      KeptMatches(style, es[1..], cs[1..]);
      assert Matches(style, es[0], cs[0]);
      if !cs[0].value.Undefined? { TextEntriesCons(cs[0], Present(cs[1..])); }
    }
  }

  lemma {:induction false} InsertMaps(e: Member, ms: seq<Member>)
    requires Plain(e.value) && AllPlain(ms)
    ensures AllPlain(Insert(e, ms))
    ensures TextEntries(Insert(e, ms)) == Insert(Entry(e.key, Write(e.value)), TextEntries(ms))
  {
    if ms != [] && Less(ms[0].key, e.key) {
      InsertMaps(e, ms[1..]);
      assert TextEntries(ms)[1..] == TextEntries(ms[1..]);
    }
  }

  lemma {:induction false} SortMaps(ms: seq<Member>)
    requires AllPlain(ms)
    ensures AllPlain(SortByKey(ms))
    ensures TextEntries(SortByKey(ms)) == SortByKey(TextEntries(ms))
  {
    if ms != [] {
      SortMaps(ms[1..]);
      InsertMaps(ms[0], SortByKey(ms[1..]));
      assert TextEntries(ms)[1..] == TextEntries(ms[1..]);
    }
  }

  lemma LabelledMembers(ms: seq<Member>)
    requires AllPlain(ms)
    ensures Labelled(TextEntries(ms)) == seq(|ms|, i requires 0 <= i < |ms| => WriteMember(ms[i]))
  {
  }

  function CanonMembers(ms: seq<Member>): seq<Member> {
    seq(|ms|, i requires 0 <= i < |ms| => Entry(ms[i].key, Canon(ms[i].value)))
  }

  function PrintedMembers(style: Style, ms: seq<Member>): seq<Entry<Option<Text>>> {
    seq(|ms|, i requires 0 <= i < |ms| => Entry(ms[i].key, Print(style, ms[i].value)))
  }

  /** Every printer writes the canonical value, wherever it prints JSON at all. */
  lemma {:induction false} PrintsCanon(style: Style, v: Json)
    requires Fit(style, v)
    ensures Plain(Canon(v)) && Print(style, v) == Some(Write(Canon(v)))
    decreases v
  {
    match v
    case Arr(items) =>
      forall i | 0 <= i < |items|
        ensures Plain(Canon(items[i])) && Print(style, items[i]) == Some(Write(Canon(items[i])))
      {
        PrintsCanon(style, items[i]);
      }
      var cs := Canon(v).items;
      assert seq(|items|, i requires 0 <= i < |items| => OrElse(Print(style, items[i]), Hole(style)))
          == seq(|cs|, i requires 0 <= i < |cs| => Write(cs[i]));
    case Obj(ms) =>
      forall i | 0 <= i < |ms|
        ensures Matches(style, PrintedMembers(style, ms)[i], CanonMembers(ms)[i])
      {
        if !ms[i].value.Undefined? { PrintsCanon(style, ms[i].value); }
      }
      var cs := Present(CanonMembers(ms));
      KeptMatches(style, PrintedMembers(style, ms), CanonMembers(ms));
      SortMaps(cs);
      LabelledMembers(SortByKey(cs));
      assert Canon(v) == Obj(SortByKey(cs));
    case _ =>
  }
}
