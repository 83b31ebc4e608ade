/**
 JSON values over UTF-16 code units, the text form `JSON.stringify` gives them, and a parser that
 undoes it (strings escaped as in section 7 of RFC 8259).
 */
module JsonText {
  import opened Common

  /** A UTF-16 code unit, as JavaScript strings hold them; surrogates may be unpaired. */
  type Unit = u: int | 0 <= u < 0x1_0000

  type Text = seq<Unit>

  datatype Json =
    | Undefined
    | Null
    | Bool(b: bool)
    | Num(n: int)
    | Str(s: Text)
    | Arr(items: seq<Json>)
    | Obj(members: seq<Member>)

  datatype Entry<T> = Entry(key: Text, value: T)

  type Member = Entry<Json>

  const QUOTE: Unit := 34
  const BACKSLASH: Unit := 92
  const COMMA: Unit := 44
  const COLON: Unit := 58
  const MINUS: Unit := 45
  const OPEN_BRACKET: Unit := 91
  const CLOSE_BRACKET: Unit := 93
  const OPEN_BRACE: Unit := 123
  const CLOSE_BRACE: Unit := 125

  /** "null", "true" and "false". */
  const NULL_TEXT: Text := [110, 117, 108, 108]
  const TRUE_TEXT: Text := [116, 114, 117, 101]
  const FALSE_TEXT: Text := [102, 97, 108, 115, 101]

  /** No undefined anywhere. */
  predicate Plain(v: Json) {
    match v
    case Undefined => false
    case Arr(items) => forall i :: 0 <= i < |items| ==> Plain(items[i])
    case Obj(ms) => forall i :: 0 <= i < |ms| ==> Plain(ms[i].value)
    case _ => true
  }

  // ---- Writing ---------------------------------------------------------------------------------

  predicate IsDigit(u: Unit) {
    48 <= u <= 57
  }

  function Digits(n: nat): (ds: Text)
    ensures |ds| > 0 && forall i :: 0 <= i < |ds| ==> IsDigit(ds[i])
  {
    if n < 10 then [48 + n] else Digits(n / 10) + [48 + n % 10]
  }

  function WriteNumber(n: int): Text {
    if n < 0 then [MINUS] + Digits(-n) else Digits(n)
  }

  predicate High(u: Unit) {
    0xD800 <= u <= 0xDBFF
  }

  predicate Low(u: Unit) {
    0xDC00 <= u <= 0xDFFF
  }

  function HexDigit(d: int): Unit
    requires 0 <= d < 16
  {
    if d < 10 then 48 + d else 87 + d
  }

  /** `\uXXXX` in lower case. */
  function Escaped(u: Unit): Text {
    [BACKSLASH, 117, HexDigit(u / 4096), HexDigit(u / 256 % 16), HexDigit(u / 16 % 16), HexDigit(u % 16)]
  }

  /** One unit that is not part of a surrogate pair. */
  function WriteUnit(u: Unit): Text {
    if u == QUOTE then [BACKSLASH, QUOTE]
    else if u == BACKSLASH then [BACKSLASH, BACKSLASH]
    else if u == 8 then [BACKSLASH, 98]
    else if u == 12 then [BACKSLASH, 102]
    else if u == 10 then [BACKSLASH, 110]
    else if u == 13 then [BACKSLASH, 114]
    else if u == 9 then [BACKSLASH, 116]
    else if u < 32 || High(u) || Low(u) then Escaped(u)
    else [u]
  }

  function WriteUnits(s: Text): Text {
    if s == [] then []
    else if High(s[0]) && |s| > 1 && Low(s[1]) then s[..2] + WriteUnits(s[2..])
    else WriteUnit(s[0]) + WriteUnits(s[1..])
  }

  function WriteString(s: Text): Text {
    [QUOTE] + WriteUnits(s) + [QUOTE]
  }

  /** `join(",")`. */
  function Joined(ts: seq<Text>): Text {
    if ts == [] then []
    else if |ts| == 1 then ts[0]
    else ts[0] + [COMMA] + Joined(ts[1..])
  }

  function WriteMember(m: Member): Text
    requires Plain(m.value)
    decreases m
  {
    WriteString(m.key) + [COLON] + Write(m.value)
  }

  /** The text of a value, members in their own order. */
  function Write(v: Json): Text
    requires Plain(v)
    decreases v
  {
    match v
    case Null => NULL_TEXT
    case Bool(b) => if b then TRUE_TEXT else FALSE_TEXT
    case Num(n) => WriteNumber(n)
    case Str(s) => WriteString(s)
    case Arr(items) =>
      [OPEN_BRACKET] + Joined(seq(|items|, i requires 0 <= i < |items| => Write(items[i]))) + [CLOSE_BRACKET]
    case Obj(ms) => [OPEN_BRACE] + Joined(seq(|ms|, i requires 0 <= i < |ms| => WriteMember(ms[i]))) + [CLOSE_BRACE]
  }

  // ---- What is written, unit by unit ---------------------------------------------------------------

  /**
   Section 7 of RFC 8259 as `JSON.stringify` applies it: quote, backslash and the five named control
   characters take two units, other control characters and lone surrogates six, everything else itself.
   */
  lemma UnitShape(u: Unit)
    ensures u in {34, 92, 8, 9, 10, 12, 13} ==> |WriteUnit(u)| == 2 && WriteUnit(u)[0] == 92
    ensures u !in {8, 9, 10, 12, 13} && (u < 32 || 0xD800 <= u <= 0xDFFF) ==>
              |WriteUnit(u)| == 6 && WriteUnit(u)[..2] == [92, 117]
    ensures u !in {34, 92} && 32 <= u && !(0xD800 <= u <= 0xDFFF) ==> WriteUnit(u) == [u]
  {
  }

  /** An escape's digits are lower-case hex. */
  lemma LowerHex(u: Unit, i: nat)
    requires 2 <= i < 6
    ensures 48 <= Escaped(u)[i] <= 57 || 97 <= Escaped(u)[i] <= 102
  {
  }

  /** A surrogate pair is written as it is. */
  lemma PairKept(high: Unit, low: Unit)
    requires 0xD800 <= high <= 0xDBFF && 0xDC00 <= low <= 0xDFFF
    ensures WriteUnits([high, low]) == [high, low]
  {
    assert [high, low][2..] == [];
  }

  /** No number has a leading zero. */
  lemma {:induction false} NoLeadingZero(n: nat)
    ensures n < 10 ==> |Digits(n)| == 1
    ensures n >= 10 ==> Digits(n)[0] != 48
  {
    if n >= 10 { NoLeadingZero(n / 10); }
    if 10 <= n < 100 { assert Digits(n / 10) == [48 + n / 10]; }
  }

  // ---- Reading ---------------------------------------------------------------------------------

  function DigitRun(t: Text): (n: nat)
    ensures n <= |t| && forall i :: 0 <= i < n ==> IsDigit(t[i])
    ensures n < |t| ==> !IsDigit(t[n])
  {
    if t != [] && IsDigit(t[0]) then 1 + DigitRun(t[1..]) else 0
  }

  function DigitsValue(ds: Text): int {
    if ds == [] then 0 else DigitsValue(ds[..|ds| - 1]) * 10 + ds[|ds| - 1] - 48
  }

  function ReadNumber(t: Text): (r: Option<(int, Text)>)
    ensures r.Some? ==> |r.value.1| < |t|
  {
    if t != [] && t[0] == MINUS then
      var n := DigitRun(t[1..]);
      if n == 0 then None else Some((-DigitsValue(t[1..][..n]), t[1..][n..]))
    else
      var n := DigitRun(t);
      if n == 0 then None else Some((DigitsValue(t[..n]), t[n..]))
  }

  function HexValue(u: Unit): Option<int> {
    if IsDigit(u) then Some(u - 48)
    else if 97 <= u <= 102 then Some(u - 87)
    else if 65 <= u <= 70 then Some(u - 55)
    else None
  }

  function ReadHex(t: Text): Option<Unit>
    requires |t| >= 4
  {
    match (HexValue(t[0]), HexValue(t[1]), HexValue(t[2]), HexValue(t[3]))
    case (Some(a), Some(b), Some(c), Some(d)) =>
      var u := a * 4096 + b * 256 + c * 16 + d;
      if 0 <= u < 0x1_0000 then Some(u) else None
    case _ => None
  }

  /** The unit after a backslash, and how many units its escape takes up in all. */
  function ReadEscape(t: Text): (r: Option<(Unit, nat)>)
    requires t != [] && t[0] == BACKSLASH
    ensures r.Some? ==> 0 < r.value.1 <= |t|
  {
    if |t| < 2 then None
    else if t[1] == QUOTE || t[1] == BACKSLASH || t[1] == 47 then Some((t[1], 2))
    else if t[1] == 98 then Some((8, 2))
    else if t[1] == 102 then Some((12, 2))
    else if t[1] == 110 then Some((10, 2))
    else if t[1] == 114 then Some((13, 2))
    else if t[1] == 116 then Some((9, 2))
    else if t[1] == 117 && |t| >= 6 then
      match ReadHex(t[2..6])
      case Some(u) => Some((u, 6))
      case None => None
    else None
  }

  /** Units up to the closing quote. */
  function ReadUnits(t: Text): (r: Option<(Text, Text)>)
    ensures r.Some? ==> |r.value.1| < |t|
  {
    if t == [] || (t[0] < 32) then None
    else if t[0] == QUOTE then Some(([], t[1..]))
    else if t[0] == BACKSLASH then
      match ReadEscape(t)
      case None => None
      case Some((u, n)) =>
        (match ReadUnits(t[n..])
         case None => None
         case Some((s, rest)) => Some(([u] + s, rest)))
    else
      match ReadUnits(t[1..])
      case None => None
      case Some((s, rest)) => Some(([t[0]] + s, rest))
  }

  function ReadString(t: Text): (r: Option<(Text, Text)>)
    ensures r.Some? ==> |r.value.1| < |t|
  {
    if t != [] && t[0] == QUOTE then ReadUnits(t[1..]) else None
  }

  function Read(t: Text): (r: Option<(Json, Text)>)
    ensures r.Some? ==> |r.value.1| < |t|
    decreases |t|, 0
  {
    if t == [] then None
    else if NULL_TEXT <= t then Some((Null, t[4..]))
    else if TRUE_TEXT <= t then Some((Bool(true), t[4..]))
    else if FALSE_TEXT <= t then Some((Bool(false), t[5..]))
    else if t[0] == QUOTE then
      match ReadString(t)
      case None => None
      case Some((s, rest)) => Some((Str(s), rest))
    else if t[0] == OPEN_BRACKET then
      if |t| > 1 && t[1] == CLOSE_BRACKET then Some((Arr([]), t[2..]))
      else
        (match ReadItems(t[1..])
         case None => None
         case Some((items, rest)) => Some((Arr(items), rest)))
    else if t[0] == OPEN_BRACE then
      if |t| > 1 && t[1] == CLOSE_BRACE then Some((Obj([]), t[2..]))
      else
        (match ReadMembers(t[1..])
         case None => None
         case Some((ms, rest)) => Some((Obj(ms), rest)))
    else
      match ReadNumber(t)
      case None => None
      case Some((n, rest)) => Some((Num(n), rest))
  }

  function ReadItems(t: Text): (r: Option<(seq<Json>, Text)>)
    ensures r.Some? ==> |r.value.1| < |t|
    decreases |t|, 1
  {
    match Read(t)
    case None => None
    case Some((v, rest)) =>
      if rest == [] then None
      else if rest[0] == CLOSE_BRACKET then Some(([v], rest[1..]))
      else if rest[0] != COMMA then None
      else
        match ReadItems(rest[1..])
        case None => None
        case Some((items, last)) => Some(([v] + items, last))
  }

  function ReadMember(t: Text): (r: Option<(Member, Text)>)
    ensures r.Some? ==> |r.value.1| < |t|
    decreases |t|, 1
  {
    match ReadString(t)
    case None => None
    case Some((key, rest)) =>
      if rest == [] || rest[0] != COLON then None
      else
        match Read(rest[1..])
        case None => None
        case Some((v, last)) => Some((Entry(key, v), last))
  }

  function ReadMembers(t: Text): (r: Option<(seq<Member>, Text)>)
    ensures r.Some? ==> |r.value.1| < |t|
    decreases |t|, 2
  {
    match ReadMember(t)
    case None => None
    case Some((m, rest)) =>
      if rest == [] then None
      else if rest[0] == CLOSE_BRACE then Some(([m], rest[1..]))
      else if rest[0] != COMMA then None
      else
        match ReadMembers(rest[1..])
        case None => None
        case Some((ms, last)) => Some(([m] + ms, last))
  }

  // ---- Reading back what was written -----------------------------------------------------------

  /** What may follow a value inside a JSON text. */
  predicate Continues(rest: Text) {
    rest == [] || rest[0] == COMMA || rest[0] == CLOSE_BRACKET || rest[0] == CLOSE_BRACE
  }

  lemma {:induction false} DigitsReadBack(n: nat)
    ensures DigitsValue(Digits(n)) == n
  {
    if n >= 10 { DigitsReadBack(n / 10); }
  }

  lemma {:induction false} RunOfDigits(ds: Text, rest: Text)
    requires forall i :: 0 <= i < |ds| ==> IsDigit(ds[i])
    requires rest == [] || !IsDigit(rest[0])
    ensures DigitRun(ds + rest) == |ds|
  {
    if ds == [] {
      assert ds + rest == rest;
    } else {
      assert (ds + rest)[1..] == ds[1..] + rest;
      RunOfDigits(ds[1..], rest);
    }
  }

  lemma NumberReadsBack(n: int, rest: Text)
    requires Continues(rest)
    ensures ReadNumber(WriteNumber(n) + rest) == Some((n, rest))
  {
    var ds := Digits(if n < 0 then -n else n);
    RunOfDigits(ds, rest);
    DigitsReadBack(if n < 0 then -n else n);
    assert (ds + rest)[..|ds|] == ds && (ds + rest)[|ds|..] == rest;
    if n < 0 {
      assert ([MINUS] + ds + rest)[1..] == ds + rest;
    }
  }

  lemma HexDigitReadsBack(d: int)
    requires 0 <= d < 16
    ensures HexValue(HexDigit(d)) == Some(d)
  {
  }

  lemma HexParts(u: Unit)
    ensures u / 4096 < 16 && u == u / 4096 * 4096 + u / 256 % 16 * 256 + u / 16 % 16 * 16 + u % 16
  {
    var a := u / 16;
    var b := a / 16;
    assert b == u / 256 && b / 16 == u / 4096;
    assert u == 16 * a + u % 16 && a == 16 * b + a % 16 && b == 16 * (b / 16) + b % 16;
  }

  lemma HexReadsBack(u: Unit)
    ensures ReadHex(Escaped(u)[2..6]) == Some(u)
  {
    var hex := Escaped(u)[2..6];
    assert hex[0] == HexDigit(u / 4096) && hex[1] == HexDigit(u / 256 % 16);
    assert hex[2] == HexDigit(u / 16 % 16) && hex[3] == HexDigit(u % 16);
    HexDigitReadsBack(u / 4096);
    HexDigitReadsBack(u / 256 % 16);
    HexDigitReadsBack(u / 16 % 16);
    HexDigitReadsBack(u % 16);
    HexParts(u);
  }

  lemma UnitReadsBack(u: Unit, more: Text, s: Text, rest: Text)
    requires ReadUnits(more) == Some((s, rest))
    ensures ReadUnits(WriteUnit(u) + more) == Some(([u] + s, rest))
  {
    var w := WriteUnit(u);
    var t := w + more;
    if w[0] == BACKSLASH {
      if |w| == 6 {
        HexReadsBack(u);
        assert t[2..6] == w[2..6];
      }
      assert ReadEscape(t) == Some((u, |w|));
      assert t[|w|..] == more;
    } else {
      assert t[1..] == more;
    }
  }

  lemma LiteralReadsBack(u: Unit, more: Text, s: Text, rest: Text)
    requires u >= 32 && u != QUOTE && u != BACKSLASH && ReadUnits(more) == Some((s, rest))
    ensures ReadUnits([u] + more) == Some(([u] + s, rest))
  {
    assert ([u] + more)[1..] == more;
  }

  lemma PairReadsBack(s: Text, more: Text, rest: Text)
    requires |s| > 1 && High(s[0]) && Low(s[1]) && ReadUnits(more) == Some((s[2..], rest))
    ensures ReadUnits(s[..2] + more) == Some((s, rest))
  {
    LiteralReadsBack(s[1], more, s[2..], rest);
    LiteralReadsBack(s[0], [s[1]] + more, [s[1]] + s[2..], rest);
    assert [s[0]] + ([s[1]] + more) == s[..2] + more;
    assert [s[0]] + ([s[1]] + s[2..]) == s;
  }

  lemma WriteSingle(s: Text, end: Text)
    requires s != [] && !(High(s[0]) && |s| > 1 && Low(s[1]))
    ensures WriteUnits(s) + end == WriteUnit(s[0]) + (WriteUnits(s[1..]) + end)
  {
    var w, more := WriteUnit(s[0]), WriteUnits(s[1..]);
    assert WriteUnits(s) == w + more;
    Associative(w, more, end);
  }

  lemma EndReadsBack(rest: Text)
    ensures ReadUnits([QUOTE] + rest) == Some(([], rest))
  {
    assert ([QUOTE] + rest)[1..] == rest;
  }

  lemma {:induction false} UnitsReadBack(s: Text, rest: Text)
    ensures ReadUnits(WriteUnits(s) + ([QUOTE] + rest)) == Some((s, rest))
    decreases |s|
  {
    if s == [] {
      EndReadsBack(rest);
      assert [] + ([QUOTE] + rest) == [QUOTE] + rest;
    } else if High(s[0]) && |s| > 1 && Low(s[1]) {
      UnitsReadBack(s[2..], rest);
      var more, end := WriteUnits(s[2..]), [QUOTE] + rest;
      PairReadsBack(s, more + end, rest);
      assert s[..2] + more + end == s[..2] + (more + end);
    } else {
      UnitsReadBack(s[1..], rest);
      UnitReadsBack(s[0], WriteUnits(s[1..]) + ([QUOTE] + rest), s[1..], rest);
      WriteSingle(s, [QUOTE] + rest);
      assert [s[0]] + s[1..] == s;
    }
  }

  lemma StringReadsBack(s: Text, rest: Text)
    ensures ReadString(WriteString(s) + rest) == Some((s, rest))
  {
    UnitsReadBack(s, rest);
    assert (WriteString(s) + rest)[1..] == WriteUnits(s) + ([QUOTE] + rest);
  }

  lemma FirstUnit(v: Json)
    requires Plain(v)
    ensures Write(v) != [] && Write(v)[0] != CLOSE_BRACKET
  {
  }

  lemma ReadMemberParts(t: Text, key: Text, rest: Text, v: Json, last: Text)
    requires ReadString(t) == Some((key, [COLON] + rest)) && Read(rest) == Some((v, last))
    ensures ReadMember(t) == Some((Entry(key, v), last))
  {
    assert ([COLON] + rest)[1..] == rest;
  }

  lemma ReadMembersEnd(t: Text, m: Member, rest: Text)
    requires ReadMember(t) == Some((m, [CLOSE_BRACE] + rest))
    ensures ReadMembers(t) == Some(([m], rest))
  {
    assert ([CLOSE_BRACE] + rest)[1..] == rest;
  }

  lemma ReadMembersMore(t: Text, m: Member, rest: Text, ms: seq<Member>, last: Text)
    requires ReadMember(t) == Some((m, [COMMA] + rest)) && ReadMembers(rest) == Some((ms, last))
    ensures ReadMembers(t) == Some(([m] + ms, last))
  {
    assert ([COMMA] + rest)[1..] == rest;
  }

  lemma ReadItemsEnd(t: Text, v: Json, rest: Text)
    requires Read(t) == Some((v, [CLOSE_BRACKET] + rest))
    ensures ReadItems(t) == Some(([v], rest))
  {
    assert ([CLOSE_BRACKET] + rest)[1..] == rest;
  }

  lemma ReadItemsMore(t: Text, v: Json, rest: Text, items: seq<Json>, last: Text)
    requires Read(t) == Some((v, [COMMA] + rest)) && ReadItems(rest) == Some((items, last))
    ensures ReadItems(t) == Some(([v] + items, last))
  {
    assert ([COMMA] + rest)[1..] == rest;
  }

  lemma {:induction false} MemberReadsBack(m: Member, rest: Text)
    requires Plain(m.value) && Continues(rest)
    ensures ReadMember(WriteMember(m) + rest) == Some((m, rest))
    decreases m
  {
    var key, value := WriteString(m.key), Write(m.value);
    ReadsBack(m.value, rest);
    StringReadsBack(m.key, [COLON] + (value + rest));
    ReadMemberParts(key + ([COLON] + (value + rest)), m.key, value + rest, m.value, rest);
    Associative(key + [COLON], value, rest);
    Associative(key, [COLON], value + rest);
  }

  /** `ts` are the texts of `items`. */
  ghost predicate TextsOf(ts: seq<Text>, items: seq<Json>) {
    |ts| == |items| && forall i :: 0 <= i < |ts| ==> Plain(items[i]) && ts[i] == Write(items[i])
  }

  ghost predicate MemberTextsOf(ts: seq<Text>, ms: seq<Member>) {
    |ts| == |ms| && forall i :: 0 <= i < |ts| ==> Plain(ms[i].value) && ts[i] == WriteMember(ms[i])
  }

  lemma JoinedFirst(ts: seq<Text>, end: Text)
    requires |ts| > 1
    ensures Joined(ts) + end == ts[0] + ([COMMA] + (Joined(ts[1..]) + end))
  {
  }

  lemma {:induction false} ItemsReadBack(items: seq<Json>, ts: seq<Text>, rest: Text)
    requires items != [] && TextsOf(ts, items)
    ensures ReadItems(Joined(ts) + ([CLOSE_BRACKET] + rest)) == Some((items, rest))
    decreases items, 0
  {
    var end := [CLOSE_BRACKET] + rest;
    if |items| == 1 {
      ReadsBack(items[0], end);
      ReadItemsEnd(ts[0] + end, items[0], rest);
      assert [items[0]] == items;
    } else {
      var tail := Joined(ts[1..]) + end;
      ReadsBack(items[0], [COMMA] + tail);
      ItemsReadBack(items[1..], ts[1..], rest);
      ReadItemsMore(ts[0] + ([COMMA] + tail), items[0], tail, items[1..], rest);
      JoinedFirst(ts, end);
      assert [items[0]] + items[1..] == items;
    }
  }

  lemma {:induction false} MembersReadBack(ms: seq<Member>, ts: seq<Text>, rest: Text)
    requires ms != [] && MemberTextsOf(ts, ms)
    ensures ReadMembers(Joined(ts) + ([CLOSE_BRACE] + rest)) == Some((ms, rest))
    decreases ms, 0
  {
    var end := [CLOSE_BRACE] + rest;
    if |ms| == 1 {
      MemberReadsBack(ms[0], end);
      ReadMembersEnd(ts[0] + end, ms[0], rest);
      assert [ms[0]] == ms;
    } else {
      var tail := Joined(ts[1..]) + end;
      MemberReadsBack(ms[0], [COMMA] + tail);
      MembersReadBack(ms[1..], ts[1..], rest);
      ReadMembersMore(ts[0] + ([COMMA] + tail), ms[0], tail, ms[1..], rest);
      JoinedFirst(ts, end);
      assert [ms[0]] + ms[1..] == ms;
    }
  }

  lemma Bracketed(first: Unit, body: Text, last: Unit, rest: Text)
    ensures
      var t := [first] + body + [last] + rest;
      && |t| > 1 && t[0] == first && t[1..] == body + ([last] + rest)
      && t[1] == (if body == [] then last else body[0]) && (body == [] ==> t[2..] == rest)
  {
  }

  lemma ReadArray(t: Text, items: seq<Json>, rest: Text)
    requires |t| > 1 && t[0] == OPEN_BRACKET && t[1] != CLOSE_BRACKET && ReadItems(t[1..]) == Some((items, rest))
    ensures Read(t) == Some((Arr(items), rest))
  {
  }

  lemma ReadObject(t: Text, ms: seq<Member>, rest: Text)
    requires |t| > 1 && t[0] == OPEN_BRACE && t[1] != CLOSE_BRACE && ReadMembers(t[1..]) == Some((ms, rest))
    ensures Read(t) == Some((Obj(ms), rest))
  {
  }

  lemma ReadEmpty(t: Text)
    requires |t| > 1
    ensures t[0] == OPEN_BRACKET && t[1] == CLOSE_BRACKET ==> Read(t) == Some((Arr([]), t[2..]))
    ensures t[0] == OPEN_BRACE && t[1] == CLOSE_BRACE ==> Read(t) == Some((Obj([]), t[2..]))
  {
  }

  lemma JoinedStart(ts: seq<Text>)
    requires ts != [] && ts[0] != []
    ensures Joined(ts) != [] && Joined(ts)[0] == ts[0][0]
  {
  }

  lemma ArrayReadsBack(items: seq<Json>, ts: seq<Text>, rest: Text)
    requires TextsOf(ts, items)
    ensures Read([OPEN_BRACKET] + Joined(ts) + [CLOSE_BRACKET] + rest) == Some((Arr(items), rest))
    decreases items, 1
  {
    var t := [OPEN_BRACKET] + Joined(ts) + [CLOSE_BRACKET] + rest;
    Bracketed(OPEN_BRACKET, Joined(ts), CLOSE_BRACKET, rest);
    if items == [] {
      ReadEmpty(t);
    } else {
      ItemsReadBack(items, ts, rest);
      FirstUnit(items[0]);
      JoinedStart(ts);
      ReadArray(t, items, rest);
    }
  }

  lemma ObjectReadsBack(ms: seq<Member>, ts: seq<Text>, rest: Text)
    requires MemberTextsOf(ts, ms)
    ensures Read([OPEN_BRACE] + Joined(ts) + [CLOSE_BRACE] + rest) == Some((Obj(ms), rest))
    decreases ms, 1
  {
    var t := [OPEN_BRACE] + Joined(ts) + [CLOSE_BRACE] + rest;
    Bracketed(OPEN_BRACE, Joined(ts), CLOSE_BRACE, rest);
    if ms == [] {
      ReadEmpty(t);
    } else {
      MembersReadBack(ms, ts, rest);
      assert ts[0][0] == QUOTE;
      JoinedStart(ts);
      ReadObject(t, ms, rest);
    }
  }

  lemma FalseReadsBack(rest: Text)
    ensures Read(FALSE_TEXT + rest) == Some((Bool(false), rest))
  {
    var t := FALSE_TEXT + rest;
    assert t[0] == 102;
    assert t[5..] == rest;
  }

  /** Reading a value's text followed by any legal continuation gives the value and that continuation. */
  lemma {:induction false} ReadsBack(v: Json, rest: Text)
    requires Plain(v) && Continues(rest)
    ensures Read(Write(v) + rest) == Some((v, rest))
    decreases v
  {
    var t := Write(v) + rest;
    match v
    case Null => assert t[4..] == rest;
    case Bool(b) => if b { assert t[0] == 116 && t[4..] == rest; } else { FalseReadsBack(rest); }
    case Num(n) => NumberReadsBack(n, rest);
    case Str(s) => StringReadsBack(s, rest);
    case Arr(items) => ArrayReadsBack(items, seq(|items|, i requires 0 <= i < |items| => Write(items[i])), rest);
    case Obj(ms) => ObjectReadsBack(ms, seq(|ms|, i requires 0 <= i < |ms| => WriteMember(ms[i])), rest);
  }

  /** So different values have different texts. */
  lemma WriteInjective(a: Json, b: Json)
    requires Plain(a) && Plain(b)
    ensures Write(a) == Write(b) <==> a == b
  {
    ReadsBack(a, []);
    ReadsBack(b, []);
    assert Write(a) + [] == Write(a) && Write(b) + [] == Write(b);
  }
}
