/** Audit records: signing the canonical record, verifying a stored row against it, and the re-sign sweep. */
module AuditLog {
  import opened Common
  import opened JsonText
  import opened CanonicalJson
  import opened JsonEquality

  /** The fields of the canonical record in source order, then the signing time. */
  const NAMES: seq<string> := [
    "id", "credentialId", "agentId", "issuerId", "trustTier", "action", "resource", "requestContext",
    "verificationResult", "permissionMatch", "constraintResults", "localPolicyApplied", "localPolicyDetail",
    "delegationDepth", "decision", "errorCode", "httpStatus", "workflowPolicyId", "workflowSubAuditIds", "signedAt"]

  const COLUMNS := 19
  const SIGNED_AT := 19

  /** The two workflow columns come last; verification does not read them back. */
  const COVERED := 17

  function Key(i: nat): Text {
    if i < |NAMES| then seq(|NAMES[i]|, k requires 0 <= k < |NAMES[i]| => UnitOf(NAMES[i][k])) else []
  }

  function UnitOf(c: char): Unit {
    if (c as int) < 0x1_0000 then c as int else 0xFFFD
  }

  /** Lengths and initials tell the names apart. */
  const LENGTHS := [2, 12, 7, 8, 9, 6, 8, 14, 18, 15, 17, 18, 17, 15, 8, 9, 10, 16, 19, 8]
  const INITIALS := [105, 99, 97, 105, 116, 97, 114, 114, 118, 112, 99, 108, 108, 100, 100, 101, 104, 119, 119, 115]

  lemma NameShapes()
    ensures |NAMES| == |LENGTHS| == |INITIALS| == 20
    ensures forall i :: 0 <= i < 20 ==> |NAMES[i]| == LENGTHS[i] && NAMES[i][0] as int == INITIALS[i]
  {
  }

  lemma ShapesDiffer()
    ensures forall i, j :: 0 <= i < j < 20 ==> LENGTHS[i] != LENGTHS[j] || INITIALS[i] != INITIALS[j]
  {
  }

  lemma KeysDiffer(i: nat, j: nat)
    requires i < j <= SIGNED_AT
    ensures Key(i) != Key(j)
  {
    NameShapes();
    ShapesDiffer();
    if |NAMES[i]| == |NAMES[j]| { assert Key(i)[0] != Key(j)[0]; }
  }

  // ---- Building the record ---------------------------------------------------------------------

  predicate Falsy(v: Json) {
    v.Undefined? || v.Null? || v == Bool(false) || v == Num(0) || v == Str([])
  }

  /** What `||` puts in place of a falsy column; `id`, `decision` and `httpStatus` are taken as they are. */
  function Fallback(i: nat): Option<Json> {
    if i == 0 || i == 14 || i == 16 then None
    else if i == 11 then Some(Bool(false))
    else if i == 13 then Some(Num(0))
    else Some(Null)
  }

  function Coalesced(i: nat, v: Json): Json {
    if Falsy(v) && Fallback(i).Some? then Fallback(i).value else v
  }

  /** `buildCanonicalRecord`. */
  function Canonical(cols: seq<Json>): seq<Member>
    requires |cols| == COLUMNS
  {
    seq(COLUMNS, i requires 0 <= i < COLUMNS => Entry(Key(i), Coalesced(i, cols[i])))
  }

  /** The columns as inserted, before the database has re-ordered any object's keys. */
  function Inserted(cols: seq<Json>): seq<Json>
    requires |cols| == COLUMNS
  {
    seq(COLUMNS, i requires 0 <= i < COLUMNS => Coalesced(i, cols[i]))
  }

  function SigningPayload(cols: seq<Json>, signedAt: Text): Option<Text>
    requires |cols| == COLUMNS
  {
    Print(Audit, Obj(Canonical(cols) + [Entry(Key(SIGNED_AT), Str(signedAt))]))
  }

  function Without(ms: seq<Member>, key: Text): seq<Member> {
    if ms == [] then []
    else if ms[0].key == key then Without(ms[1..], key)
    else [ms[0]] + Without(ms[1..], key)
  }

  /** The record verification rebuilds: the row's columns, the workflow ones left out. */
  function Rebuilt(cols: seq<Json>): seq<Json>
    requires |cols| == COLUMNS
  {
    cols[..COVERED] + [Undefined, Undefined]
  }

  /** `verifyAuditRecord` on a row whose signature checks out and signs `payload`. */
  predicate Verifies(cols: seq<Json>, payload: Text)
    requires |cols| == COLUMNS
  {
    match Read(payload)
    case Some((Obj(decoded), rest)) =>
      rest == [] && Print(Audit, Obj(Canonical(Rebuilt(cols)))) == Print(Audit, Obj(Without(decoded, Key(SIGNED_AT))))
    case _ => false
  }

  /** JSON in every column, as built: nothing undefined and no object naming a member twice. */
  predicate Sound(cols: seq<Json>) {
    |cols| == COLUMNS && forall i :: 0 <= i < COLUMNS ==>
      Fit(Audit, Coalesced(i, cols[i])) && WellFormed(Coalesced(i, cols[i]))
  }

  // ---- What the decoded payload is -------------------------------------------------------------

  lemma {:induction false} WithoutMembers(ms: seq<Member>, key: Text, m: Member)
    ensures m in Without(ms, key) <==> m in ms && m.key != key
  {
    if ms != [] {
      WithoutMembers(ms[1..], key, m);
      assert ms == [ms[0]] + ms[1..];
    }
  }

  lemma {:induction false} WithoutAscends(ms: seq<Member>, key: Text)
    requires Ascending(ms)
    ensures Ascending(Without(ms, key))
  {
    if ms != [] {
      WithoutAscends(ms[1..], key);
      var rest := Without(ms[1..], key);
      forall i | 0 <= i < |rest|
        ensures Less(ms[0].key, rest[i].key)
      {
        WithoutMembers(ms[1..], key, rest[i]);
      }
    }
  }

  /** Sorting with an extra entry and dropping it again is sorting without it. */
  lemma SortWithout(es: seq<Member>, e: Member)
    requires DistinctEntries(es + [e])
    ensures Without(SortByKey(es + [e]), e.key) == SortByKey(es)
  {
    var all, kept := es + [e], Without(SortByKey(es + [e]), e.key);
    forall i, j | 0 <= i < j < |es|
      ensures es[i].key != es[j].key
    {
      assert all[i] == es[i] && all[j] == es[j];
    }
    SortAscends(all);
    SortAscends(es);
    WithoutAscends(SortByKey(all), e.key);
    forall x
      ensures x in kept <==> x in SortByKey(es)
    {
      WithoutMembers(SortByKey(all), e.key, x);
      SortMembers(all, x);
      SortMembers(es, x);
      if x in es {
        var i :| 0 <= i < |es| && es[i] == x;
        assert all[i].key != all[|es|].key;
      }
    }
    AscendingUnique(kept, SortByKey(es));
  }

  lemma CanonicalSound(cols: seq<Json>, signedAt: Text)
    requires Sound(cols)
    ensures
      var ms := Canonical(cols);
      var all := ms + [Entry(Key(SIGNED_AT), Str(signedAt))];
      && WellFormed(Obj(ms)) && Fit(Audit, Obj(ms)) && WellFormed(Obj(all)) && Fit(Audit, Obj(all))
  {
    forall i: nat, j: nat | i < j <= SIGNED_AT
      ensures Key(i) != Key(j)
    {
      KeysDiffer(i, j);
    }
  }

  lemma ObjCanon(ms: seq<Member>)
    requires forall i :: 0 <= i < |ms| ==> !ms[i].value.Undefined?
    ensures Canon(Obj(ms)) == Obj(SortByKey(CanonMembers(ms)))
  {
    PresentAll(CanonMembers(ms));
    assert Canon(Obj(ms)) == Obj(SortByKey(Present(CanonMembers(ms))));
  }

  /** Dropping one member from a canonical object leaves the canonical form of the rest. */
  lemma CanonWithout(ms: seq<Member>, last: Member)
    requires WellFormed(Obj(ms + [last])) && Plain(last.value) && Canon(last.value) == last.value
    requires forall i :: 0 <= i < |ms| ==> !ms[i].value.Undefined?
    ensures Canon(Obj(ms + [last])).Obj?
    ensures Obj(Without(Canon(Obj(ms + [last])).members, last.key)) == Canon(Obj(ms))
  {
    assert CanonMembers(ms + [last]) == CanonMembers(ms) + [last];
    ObjCanon(ms + [last]);
    ObjCanon(ms);
    SortWithout(CanonMembers(ms), last);
  }

  /** Parsing the payload and dropping the signing time leaves the canonical form of the record. */
  lemma PayloadDecodes(cols: seq<Json>, signedAt: Text)
    requires Sound(cols)
    ensures SigningPayload(cols, signedAt).Some?
    ensures
      var r := Read(SigningPayload(cols, signedAt).value);
      && r.Some? && r.value.0.Obj? && r.value.1 == []
      && Obj(Without(r.value.0.members, Key(SIGNED_AT))) == Canon(Obj(Canonical(cols)))
  {
    var ms, last := Canonical(cols), Entry(Key(SIGNED_AT), Str(signedAt));
    CanonicalSound(cols, signedAt);
    PrintReadsBack(Audit, Obj(ms + [last]), []);
    assert SigningPayload(cols, signedAt).value + [] == SigningPayload(cols, signedAt).value;
    CanonWithout(ms, last);
  }

  /** What a column is signed as when the record has nothing for it; `||` counts false, 0 and "" as nothing. */
  predicate SignedAs(i: nat, v: Json, signed: Json) {
    if v in {Undefined, Null, Bool(false), Num(0), Str([])} then
      if i == 11 then signed == Bool(false)
      else if i == 13 then signed == Num(0)
      else if i == 0 || i == 14 || i == 16 then signed == v
      else signed == Null
    else signed == v
  }

  lemma ColumnInRecord(cols: seq<Json>, i: nat)
    requires Sound(cols) && i < COLUMNS
    ensures Canon(Obj(Canonical(cols))).Obj?
    ensures Entry(Key(i), Canon(Coalesced(i, cols[i]))) in Canon(Obj(Canonical(cols))).members
  {
    var ms := Canonical(cols);
    CanonicalSound(cols, []);
    ObjCanon(ms);
    assert CanonMembers(ms)[i] == Entry(Key(i), Canon(Coalesced(i, cols[i])));
    SortMembers(CanonMembers(ms), CanonMembers(ms)[i]);
  }

  /** The payload names every column with what it is signed as, its objects' keys sorted. */
  lemma ColumnSigned(cols: seq<Json>, signedAt: Text, i: nat) returns (signed: Json)
    requires Sound(cols) && i < COLUMNS
    ensures SignedAs(i, cols[i], signed)
    ensures SigningPayload(cols, signedAt).Some?
    ensures
      var r := Read(SigningPayload(cols, signedAt).value);
      r.Some? && r.value.0.Obj? && Entry(Key(i), Canon(signed)) in r.value.0.members
  {
    signed := Coalesced(i, cols[i]);
    PayloadDecodes(cols, signedAt);
    ColumnInRecord(cols, i);
    var decoded := Read(SigningPayload(cols, signedAt).value).value.0.members;
    WithoutMembers(decoded, Key(SIGNED_AT), Entry(Key(i), Canon(signed)));
  }

  /** And the time of signing. */
  lemma TimeSigned(cols: seq<Json>, signedAt: Text)
    requires Sound(cols)
    ensures SigningPayload(cols, signedAt).Some?
    ensures
      var r := Read(SigningPayload(cols, signedAt).value);
      r.Some? && r.value.0.Obj? && Entry(Key(SIGNED_AT), Str(signedAt)) in r.value.0.members
  {
    var ms := Canonical(cols) + [Entry(Key(SIGNED_AT), Str(signedAt))];
    CanonicalSound(cols, signedAt);
    PrintReadsBack(Audit, Obj(ms), []);
    assert SigningPayload(cols, signedAt).value + [] == SigningPayload(cols, signedAt).value;
    ObjCanon(ms);
    assert CanonMembers(ms)[COLUMNS] == Entry(Key(SIGNED_AT), Str(signedAt));
    SortMembers(CanonMembers(ms), CanonMembers(ms)[COLUMNS]);
  }

  /** Members paired by position have the same keys, and no key twice. */
  ghost predicate Aligned(ms: seq<Member>, ns: seq<Member>) {
    && |ms| == |ns|
    && (forall i, j :: 0 <= i < |ms| && 0 <= j < |ns| ==> (ms[i].key == ns[j].key <==> i == j))
    && (forall i :: 0 <= i < |ms| ==> !ms[i].value.Undefined? && !ns[i].value.Undefined?)
  }

  lemma AlignedEqual(ms: seq<Member>, ns: seq<Member>)
    requires Aligned(ms, ns)
    ensures Equiv(Obj(ms), Obj(ns)) <==> forall i :: 0 <= i < |ms| ==> Equiv(ms[i].value, ns[i].value)
  {
    if Equiv(Obj(ms), Obj(ns)) {
      forall i | 0 <= i < |ms|
        ensures Equiv(ms[i].value, ns[i].value)
      {
        assert !ms[i].value.Undefined?;
        var j :| 0 <= j < |ns| && ns[j].key == ms[i].key && Equiv(ms[i].value, ns[j].value);
      }
    }
    if forall i :: 0 <= i < |ms| ==> Equiv(ms[i].value, ns[i].value) {
      assert forall i :: 0 <= i < |ms| ==> ns[i].key == ms[i].key && Equiv(ms[i].value, ns[i].value);
    }
  }

  /** Two records of these fields are equal exactly when they are column by column. */
  lemma RecordsEqual(a: seq<Json>, b: seq<Json>)
    requires Sound(a) && Sound(b)
    ensures Equiv(Obj(Canonical(a)), Obj(Canonical(b)))
            <==> forall i :: 0 <= i < COLUMNS ==> Equiv(Coalesced(i, a[i]), Coalesced(i, b[i]))
  {
    var ms, ns := Canonical(a), Canonical(b);
    forall i: nat, j: nat | i < COLUMNS && j < COLUMNS
      ensures ms[i].key == ns[j].key <==> i == j
    {
      if i < j { KeysDiffer(i, j); } else if j < i { KeysDiffer(j, i); }
    }
    AlignedEqual(ms, ns);
    assert forall i :: 0 <= i < COLUMNS ==> ms[i].value == Coalesced(i, a[i]) && ns[i].value == Coalesced(i, b[i]);
  }

  /** The rebuilt and the signed record print alike exactly when they are equal up to key order. */
  lemma VerifiesRecord(cols: seq<Json>, signed: seq<Json>, signedAt: Text)
    requires |cols| == COLUMNS && Sound(Rebuilt(cols)) && Sound(signed)
    ensures SigningPayload(signed, signedAt).Some?
    ensures Verifies(cols, SigningPayload(signed, signedAt).value) <==>
            Equiv(Obj(Canonical(Rebuilt(cols))), Obj(Canonical(signed)))
  {
    var a, b := Obj(Canonical(Rebuilt(cols))), Obj(Canonical(signed));
    PayloadDecodes(signed, signedAt);
    CanonicalSound(Rebuilt(cols), signedAt);
    CanonicalSound(signed, signedAt);
    CanonIdempotent(b);
    PrintsCanon(Audit, b);
    PlainFits(Canon(b));
    PrintEqual(Audit, a, Audit, Canon(b));
    CanonEqual(a, Canon(b));
    CanonEqual(a, b);
  }

  lemma {:induction false} PlainFits(v: Json)
    requires Plain(v)
    ensures Fit(Audit, v)
    decreases v
  {
    match v
    case Arr(items) => forall i | 0 <= i < |items| ensures Fit(Audit, items[i]) { PlainFits(items[i]); }
    case Obj(ms) => forall i | 0 <= i < |ms| ensures Fit(Audit, ms[i].value) { PlainFits(ms[i].value); }
    case _ =>
  }

  /** Every rebuilt column equals the signed one. */
  ghost predicate ColumnsAgree(cols: seq<Json>, signed: seq<Json>)
    requires |cols| == COLUMNS && |signed| == COLUMNS
  {
    forall i :: 0 <= i < COLUMNS ==> Equiv(Coalesced(i, Rebuilt(cols)[i]), Coalesced(i, signed[i]))
  }

  /** A row verifies against a payload exactly when every rebuilt column equals the signed one. */
  lemma VerifiesExactly(cols: seq<Json>, signed: seq<Json>, signedAt: Text)
    requires |cols| == COLUMNS && Sound(Rebuilt(cols)) && Sound(signed)
    ensures SigningPayload(signed, signedAt).Some?
    ensures Verifies(cols, SigningPayload(signed, signedAt).value) <==> ColumnsAgree(cols, signed)
  {
    VerifiesRecord(cols, signed, signedAt);
    RecordsEqual(Rebuilt(cols), signed);
  }

  // ---- Create, then verify ---------------------------------------------------------------------

  /** What the database returns for a created row: every inserted value, object keys in any order. */
  ghost predicate ReadBack(row: seq<Json>, cols: seq<Json>)
    requires |cols| == COLUMNS
  {
    && Sound(row)
    && forall i :: 0 <= i < COLUMNS ==> Equiv(row[i], Inserted(cols)[i])
  }

  lemma RebuiltSound(row: seq<Json>)
    requires Sound(row)
    ensures Sound(Rebuilt(row))
  {
  }

  lemma FalsyEquiv(a: Json, b: Json)
    requires Falsy(a) || Falsy(b)
    ensures Equiv(a, b) <==> a == b
  {
  }

  lemma CoalescedTwice(i: nat, v: Json, original: Json)
    requires Equiv(v, Coalesced(i, original))
    ensures Equiv(Coalesced(i, v), Coalesced(i, original))
  {
    if Falsy(v) { FalsyEquiv(v, Coalesced(i, original)); }
  }

  lemma WorkflowColumns(i: nat, v: Json)
    requires COVERED <= i < COLUMNS
    ensures Equiv(Coalesced(i, Undefined), Coalesced(i, v)) <==> Falsy(v)
  {
    FalsyEquiv(Null, Coalesced(i, v));
  }

  lemma ReadBackColumn(cols: seq<Json>, row: seq<Json>, i: nat)
    requires |cols| == COLUMNS && ReadBack(row, cols) && i < COLUMNS
    ensures Equiv(Coalesced(i, Rebuilt(row)[i]), Coalesced(i, cols[i])) <==> i < COVERED || Falsy(cols[i])
  {
    if i < COVERED { CoalescedTwice(i, row[i], cols[i]); } else { WorkflowColumns(i, cols[i]); }
  }

  lemma ReadBackAgrees(cols: seq<Json>, row: seq<Json>)
    requires |cols| == COLUMNS && ReadBack(row, cols)
    ensures ColumnsAgree(row, cols) <==> Falsy(cols[COVERED]) && Falsy(cols[COVERED + 1])
  {
    forall i | 0 <= i < COLUMNS
      ensures Equiv(Coalesced(i, Rebuilt(row)[i]), Coalesced(i, cols[i])) <==> i < COVERED || Falsy(cols[i])
    {
      ReadBackColumn(cols, row, i);
    }
  }

  /** A created record verifies exactly when it carries no workflow fields. */
  lemma CreateThenVerify(cols: seq<Json>, row: seq<Json>, signedAt: Text)
    requires Sound(cols) && ReadBack(row, cols)
    ensures SigningPayload(cols, signedAt).Some?
    ensures Verifies(row, SigningPayload(cols, signedAt).value) <==> Falsy(cols[COVERED]) && Falsy(cols[COVERED + 1])
  {
    RebuiltSound(row);
    VerifiesExactly(row, cols, signedAt);
    ReadBackAgrees(cols, row);
  }

  lemma Undetected(i: nat, value: Json, original: Json)
    requires !Equiv(value, Coalesced(i, original))
    ensures Equiv(Coalesced(i, value), Coalesced(i, original)) <==> Fallback(i).Some? && Falsy(value) && Falsy(original)
  {
    if Fallback(i).Some? && Falsy(value) {
      FalsyEquiv(Fallback(i).value, Coalesced(i, original));
    }
  }

  lemma TamperedAgrees(cols: seq<Json>, row: seq<Json>, i: nat, value: Json)
    requires |cols| == |row| == COLUMNS && ColumnsAgree(row, cols) && i < COVERED && !Equiv(value, Inserted(cols)[i])
    ensures ColumnsAgree(row[i := value], cols) <==> Fallback(i).Some? && Falsy(value) && Falsy(cols[i])
  {
    Undetected(i, value, cols[i]);
    assert forall k :: 0 <= k < COLUMNS && k != i ==> Rebuilt(row[i := value])[k] == Rebuilt(row)[k];
    assert Rebuilt(row[i := value])[i] == value;
  }

  /**
   Changing one covered column of a verifying row is detected, except that a falsy value stored as its
   fallback may become another falsy value: NULL may become an empty string unnoticed.
   */
  lemma TamperingDetected(cols: seq<Json>, row: seq<Json>, signedAt: Text, i: nat, value: Json)
    requires Sound(cols) && ReadBack(row, cols) && Falsy(cols[COVERED]) && Falsy(cols[COVERED + 1])
    requires i < COVERED && Sound(row[i := value]) && !Equiv(value, Inserted(cols)[i])
    ensures SigningPayload(cols, signedAt).Some?
    ensures Verifies(row[i := value], SigningPayload(cols, signedAt).value)
            <==> Fallback(i).Some? && Falsy(value) && Falsy(cols[i])
  {
    RebuiltSound(row[i := value]);
    VerifiesExactly(row[i := value], cols, signedAt);
    ReadBackAgrees(cols, row);
    TamperedAgrees(cols, row, i, value);
  }

  lemma OwnColumnsAgree(row: seq<Json>)
    requires Sound(row)
    ensures ColumnsAgree(row, row) <==> Falsy(row[COVERED]) && Falsy(row[COVERED + 1])
  {
    forall i | 0 <= i < COLUMNS
      ensures Equiv(Coalesced(i, Rebuilt(row)[i]), Coalesced(i, row[i])) <==> i < COVERED || Falsy(row[i])
    {
      if i < COVERED { CanonEqual(Coalesced(i, row[i]), Coalesced(i, row[i])); } else { WorkflowColumns(i, row[i]); }
    }
  }

  /** A row the sweep signs later, as stored, verifies exactly when its workflow columns are empty. */
  lemma ResignThenVerify(row: seq<Json>, at: Text)
    requires Sound(row)
    ensures SigningPayload(row, at).Some?
    ensures Verifies(row, SigningPayload(row, at).value) <==> Falsy(row[COVERED]) && Falsy(row[COVERED + 1])
  {
    RebuiltSound(row);
    VerifiesExactly(row, row, at);
    OwnColumnsAgree(row);
  }
}
