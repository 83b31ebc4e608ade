/** The signed governance manifest: the engine prints and signs it, the SDK prints it again and compares. */
module GovernanceManifest {
  import opened Common
  import opened JsonText
  import opened CanonicalJson
  import opened JsonEquality

  // ---- Where the two printers agree ------------------------------------------------------------

  function Total(ts: seq<Text>): nat {
    if ts == [] then 0 else |ts[0]| + Total(ts[1..])
  }

  lemma {:induction false} JoinedLength(ts: seq<Text>)
    ensures |Joined(ts)| == Total(ts) + if ts == [] then 0 else |ts| - 1
  {
    if |ts| > 1 { JoinedLength(ts[1..]); }
  }

  lemma {:induction false} TotalGrows(ts: seq<Text>, us: seq<Text>)
    requires |ts| == |us| && forall i :: 0 <= i < |ts| ==> |ts[i]| <= |us[i]|
    ensures Total(ts) <= Total(us)
    ensures (exists i :: 0 <= i < |ts| && |ts[i]| < |us[i]|) ==> Total(ts) < Total(us)
  {
    if ts != [] { TotalGrows(ts[1..], us[1..]); }
  }

  function EntryTotal(es: seq<Entry<Text>>): nat {
    if es == [] then 0 else |WriteString(es[0].key)| + 1 + |es[0].value| + EntryTotal(es[1..])
  }

  lemma {:induction false} LabelledTotal(es: seq<Entry<Text>>)
    ensures Total(Labelled(es)) == EntryTotal(es)
  {
    if es != [] {
      LabelledTotal(es[1..]);
      assert Labelled(es)[1..] == Labelled(es[1..]);
    }
  }

  lemma {:induction false} InsertTotal(e: Entry<Text>, es: seq<Entry<Text>>)
    ensures EntryTotal(Insert(e, es)) == EntryTotal([e]) + EntryTotal(es) && |Insert(e, es)| == |es| + 1
  {
    if es != [] && Less(es[0].key, e.key) {
      InsertTotal(e, es[1..]);
    } else {
      assert ([e] + es)[1..] == es;
    }
  }

  lemma {:induction false} SortTotal(es: seq<Entry<Text>>)
    ensures EntryTotal(SortByKey(es)) == EntryTotal(es) && |SortByKey(es)| == |es|
  {
    if es != [] {
      SortTotal(es[1..]);
      InsertTotal(es[0], SortByKey(es[1..]));
    }
  }

  /** The same member as the engine and as the SDK print it. */
  predicate NoLonger(e: Entry<Option<Text>>, f: Entry<Option<Text>>) {
    && e.key == f.key && (e.value.None? <==> f.value.None?)
    && (e.value.Some? ==> |e.value.value| <= |f.value.value|)
  }

  predicate Shorter(e: Entry<Option<Text>>, f: Entry<Option<Text>>) {
    NoLonger(e, f) && e.value.Some? && |e.value.value| < |f.value.value|
  }

  lemma {:induction false} KeptGrows(es: seq<Entry<Option<Text>>>, fs: seq<Entry<Option<Text>>>)
    requires |es| == |fs| && forall i :: 0 <= i < |es| ==> NoLonger(es[i], fs[i])
    ensures |Kept(Engine, es)| == |Kept(Sdk, fs)|
    ensures EntryTotal(Kept(Engine, es)) <= EntryTotal(Kept(Sdk, fs))
    ensures (exists i :: 0 <= i < |es| && Shorter(es[i], fs[i])) ==>
            EntryTotal(Kept(Engine, es)) < EntryTotal(Kept(Sdk, fs))
  {
    if es != [] {
      KeptGrows(es[1..], fs[1..]);
      assert NoLonger(es[0], fs[0]);
      if es[0].value.Some? {
        assert Kept(Engine, es)[1..] == Kept(Engine, es[1..]) && Kept(Sdk, fs)[1..] == Kept(Sdk, fs[1..]);
      }
    }
  }

  function Braced(es: seq<Entry<Option<Text>>>, style: Style): Text {
    [OPEN_BRACE] + Joined(Labelled(SortByKey(Kept(style, es)))) + [CLOSE_BRACE]
  }

  lemma BracedLength(es: seq<Entry<Option<Text>>>, style: Style)
    ensures
      var n := |Kept(style, es)|;
      |Braced(es, style)| == 2 + EntryTotal(Kept(style, es)) + if n == 0 then 0 else n - 1
  {
    var sorted := SortByKey(Kept(style, es));
    JoinedLength(Labelled(sorted));
    LabelledTotal(sorted);
    SortTotal(Kept(style, es));
  }

  /** The engine's text is never longer than the SDK's, and shorter wherever an array holds undefined. */
  lemma {:induction false} EngineNoLonger(v: Json)
    requires !v.Undefined?
    ensures Print(Engine, v).Some? && Print(Sdk, v).Some? && |Print(Engine, v).value| <= |Print(Sdk, v).value|
    ensures !Fit(Engine, v) ==> |Print(Engine, v).value| < |Print(Sdk, v).value|
    decreases v
  {
    match v
    case Arr(items) =>
      var ts := seq(|items|, i requires 0 <= i < |items| => OrElse(Print(Engine, items[i]), Hole(Engine)));
      var us := seq(|items|, i requires 0 <= i < |items| => OrElse(Print(Sdk, items[i]), Hole(Sdk)));
      forall i | 0 <= i < |items|
        ensures |ts[i]| <= |us[i]| && (!Fit(Engine, items[i]) ==> |ts[i]| < |us[i]|)
      {
        if !items[i].Undefined? { EngineNoLonger(items[i]); }
      }
      TotalGrows(ts, us);
      JoinedLength(ts);
      JoinedLength(us);
    case Obj(ms) =>
      var es, fs := PrintedMembers(Engine, ms), PrintedMembers(Sdk, ms);
      forall i | 0 <= i < |ms|
        ensures NoLonger(es[i], fs[i])
        ensures !ms[i].value.Undefined? && !Fit(Engine, ms[i].value) ==> Shorter(es[i], fs[i])
      {
        if !ms[i].value.Undefined? { EngineNoLonger(ms[i].value); }
      }
      KeptGrows(es, fs);
      BracedLength(es, Engine);
      BracedLength(fs, Sdk);
      assert Print(Engine, v) == Some(Braced(es, Engine)) && Print(Sdk, v) == Some(Braced(fs, Sdk));
    case _ =>
  }

  /** The engine's and the SDK's printers agree exactly on values no array of which holds undefined. */
  lemma PrintersAgree(v: Json)
    ensures Print(Engine, v) == Print(Sdk, v) <==> v.Undefined? || Fit(Engine, v)
  {
    if !v.Undefined? {
      EngineNoLonger(v);
      if Fit(Engine, v) {
        FitAlike(v);
        PrintsCanon(Engine, v);
        PrintsCanon(Sdk, v);
      }
    }
  }

  lemma {:induction false} FitAlike(v: Json)
    ensures Fit(Engine, v) <==> Fit(Sdk, v)
    decreases v
  {
    match v
    case Arr(items) =>
      forall i | 0 <= i < |items|
        ensures Fit(Engine, items[i]) <==> Fit(Sdk, items[i])
      {
        FitAlike(items[i]);
      }
    case Obj(ms) =>
      forall i | 0 <= i < |ms|
        ensures Fit(Engine, ms[i].value) <==> Fit(Sdk, ms[i].value)
      {
        FitAlike(ms[i].value);
      }
    case _ =>
  }

  // ---- Signing and accepting -------------------------------------------------------------------

  /** "proof". */
  const PROOF: Text := [112, 114, 111, 111, 102]

  function StripProof(ms: seq<Member>): seq<Member> {
    if ms == [] then []
    else if ms[0].key == PROOF then StripProof(ms[1..])
    else [ms[0]] + StripProof(ms[1..])
  }

  function SigningPayload(style: Style, manifest: seq<Member>): Option<Text> {
    Print(style, Obj(StripProof(manifest)))
  }

  /** `payload` is what `proof.jws` signs, if there is one and a key of the signer verifies it. */
  predicate VerifyManifest(manifest: seq<Member>, payload: Option<Text>) {
    payload.Some? && payload == SigningPayload(Sdk, manifest)
  }

  lemma {:induction false} StripMembers(ms: seq<Member>, m: Member)
    ensures m in StripProof(ms) <==> m in ms && m.key != PROOF
  {
    if ms != [] {
      StripMembers(ms[1..], m);
      assert ms == [ms[0]] + ms[1..];
    }
  }

  lemma {:induction false} StripDistinct(ms: seq<Member>)
    requires DistinctEntries(ms)
    ensures DistinctEntries(StripProof(ms))
  {
    if ms != [] {
      StripDistinct(ms[1..]);
      var rest := StripProof(ms[1..]);
      forall i | 0 <= i < |rest|
        ensures rest[i].key != ms[0].key
      {
        StripMembers(ms[1..], rest[i]);
      }
    }
  }

  lemma StripKeeps(ms: seq<Member>)
    requires WellFormed(Obj(ms)) && Fit(Engine, Obj(ms))
    ensures WellFormed(Obj(StripProof(ms))) && Fit(Engine, Obj(StripProof(ms))) && Fit(Sdk, Obj(StripProof(ms)))
  {
    StripDistinct(ms);
    var rest := StripProof(ms);
    forall i | 0 <= i < |rest|
      ensures WellFormed(rest[i].value) && (rest[i].value.Undefined? || Fit(Engine, rest[i].value))
    {
      StripMembers(ms, rest[i]);
      var j :| 0 <= j < |ms| && ms[j] == rest[i];
    }
    FitAlike(Obj(rest));
  }

  /** With a valid signature a manifest is accepted exactly when it equals the signed one apart from `proof`. */
  lemma AcceptedExactly(manifest: seq<Member>, signed: seq<Member>)
    requires WellFormed(Obj(manifest)) && Fit(Engine, Obj(manifest))
    requires WellFormed(Obj(signed)) && Fit(Engine, Obj(signed))
    ensures VerifyManifest(manifest, SigningPayload(Engine, signed)) <==>
            Equiv(Obj(StripProof(manifest)), Obj(StripProof(signed)))
  {
    StripKeeps(manifest);
    StripKeeps(signed);
    PrintEqual(Sdk, Obj(StripProof(manifest)), Engine, Obj(StripProof(signed)));
    PrintsCanon(Engine, Obj(StripProof(signed)));
  }

  // ---- Publishing ------------------------------------------------------------------------------

  /** What the SDK receives: `JSON.stringify` drops undefined members and sends null for undefined elements. */
  function Transmitted(v: Json): (t: Json)
    ensures v.Undefined? <==> t.Undefined?
    decreases v
  {
    match v
    case Arr(items) =>
      Arr(seq(|items|, i requires 0 <= i < |items| => if items[i].Undefined? then Null else Transmitted(items[i])))
    case Obj(ms) => Obj(Present(seq(|ms|, i requires 0 <= i < |ms| => Entry(ms[i].key, Transmitted(ms[i].value)))))
    case _ => v
  }

  function TransmittedMembers(ms: seq<Member>): seq<Member> {
    seq(|ms|, i requires 0 <= i < |ms| => Entry(ms[i].key, Transmitted(ms[i].value)))
  }

  lemma KeptCons(m: Member, ms: seq<Member>)
    ensures
      var rest := Kept(Sdk, PrintedMembers(Sdk, ms));
      Kept(Sdk, PrintedMembers(Sdk, [m] + ms)) ==
      match Print(Sdk, m.value) { case None => rest case Some(text) => [Entry(m.key, text)] + rest }
  {
    assert PrintedMembers(Sdk, [m] + ms)[1..] == PrintedMembers(Sdk, ms);
  }

  lemma {:induction false} KeptTransmitted(ms: seq<Member>, sent: seq<Member>)
    requires |sent| == |ms|
    requires forall i :: 0 <= i < |ms| ==>
               sent[i].key == ms[i].key && Print(Sdk, sent[i].value) == Print(Sdk, ms[i].value)
    ensures Kept(Sdk, PrintedMembers(Sdk, Present(sent))) == Kept(Sdk, PrintedMembers(Sdk, ms))
  {
    if ms != [] {
      KeptTransmitted(ms[1..], sent[1..]);
      KeptCons(ms[0], ms[1..]);
      KeptCons(sent[0], Present(sent[1..]));
      assert ms == [ms[0]] + ms[1..];
    }
  }

  /** The SDK prints the transmitted value as it would have printed the original. */
  lemma {:induction false} SdkPrintsTransmitted(v: Json)
    ensures Print(Sdk, Transmitted(v)) == Print(Sdk, v)
    decreases v
  {
    match v
    case Arr(items) =>
      var sent := Transmitted(v).items;
      forall i | 0 <= i < |items|
        ensures OrElse(Print(Sdk, sent[i]), Hole(Sdk)) == OrElse(Print(Sdk, items[i]), Hole(Sdk))
      {
        SdkPrintsTransmitted(items[i]);
      }
      assert seq(|sent|, i requires 0 <= i < |sent| => OrElse(Print(Sdk, sent[i]), Hole(Sdk)))
          == seq(|items|, i requires 0 <= i < |items| => OrElse(Print(Sdk, items[i]), Hole(Sdk)));
    case Obj(ms) =>
      var sent := TransmittedMembers(ms);
      forall i | 0 <= i < |ms|
        ensures Print(Sdk, sent[i].value) == Print(Sdk, ms[i].value)
      {
        SdkPrintsTransmitted(ms[i].value);
      }
      KeptTransmitted(ms, sent);
    case _ =>
  }

  lemma {:induction false} StripNothing(ms: seq<Member>)
    requires forall m :: m in ms ==> m.key != PROOF
    ensures StripProof(ms) == ms
  {
    if ms != [] {
      assert ms[0] in ms;
      StripNothing(ms[1..]);
      assert ms == [ms[0]] + ms[1..];
    }
  }

  lemma {:induction false} StripAppended(ms: seq<Member>, proof: Json)
    ensures StripProof(ms + [Entry(PROOF, proof)]) == StripProof(ms)
  {
    var all := ms + [Entry(PROOF, proof)];
    if ms != [] {
      assert all[1..] == ms[1..] + [Entry(PROOF, proof)];
      StripAppended(ms[1..], proof);
    }
  }

  lemma {:induction false} PresentAppends(ms: seq<Member>, m: Member)
    ensures Present(ms + [m]) == Present(ms) + if m.value.Undefined? then [] else [m]
  {
    if ms != [] {
      assert (ms + [m])[1..] == ms[1..] + [m];
      PresentAppends(ms[1..], m);
    }
  }

  /** Members of the response as fetched: the manifest's, then the proof. */
  lemma ResponseStripped(manifest: seq<Member>, proof: Json)
    requires !proof.Undefined? && forall m :: m in manifest ==> m.key != PROOF
    ensures StripProof(Transmitted(Obj(manifest + [Entry(PROOF, proof)])).members) == Transmitted(Obj(manifest)).members
  {
    var sent, last := TransmittedMembers(manifest), Entry(PROOF, Transmitted(proof));
    assert TransmittedMembers(manifest + [Entry(PROOF, proof)]) == sent + [last];
    PresentAppends(sent, last);
    StripAppended(Present(sent), Transmitted(proof));
    forall m | m in Present(sent)
      ensures m.key != PROOF
    {
      var i :| 0 <= i < |sent| && sent[i] == m;
      assert manifest[i] in manifest;
    }
    StripNothing(Present(sent));
  }

  /** A manifest signed and served by the engine is accepted by the SDK exactly when no array in it holds undefined. */
  lemma PublishedIsAccepted(manifest: seq<Member>, proof: Json)
    requires !proof.Undefined? && forall m :: m in manifest ==> m.key != PROOF
    ensures VerifyManifest(Transmitted(Obj(manifest + [Entry(PROOF, proof)])).members, SigningPayload(Engine, manifest))
            <==> Fit(Engine, Obj(manifest))
  {
    ResponseStripped(manifest, proof);
    StripNothing(manifest);
    SdkPrintsTransmitted(Obj(manifest));
    PrintersAgree(Obj(manifest));
  }
}
