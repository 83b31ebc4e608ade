/**
 The restricted globs of `StringPatternConstraint`, as the constraint evaluator reads them:
 the pattern is rewritten into an anchored regular expression, here a sequence of atoms.
 */
module Glob {
  import opened Common

  /** `Lit(c)` is an escaped character, `SegStar` is `[^/]*` and `DotStar` is `.*`. */
  datatype Atom = Lit(c: char) | SegStar | DotStar

  const NUL := '\0'

  /** The characters that `.` does not match in a JavaScript regular expression. */
  predicate LineTerminator(c: char) {
    c == '\n' || c == '\r' || c == '\U{2028}' || c == '\U{2029}'
  }

  predicate OneLine(s: string) {
    forall c :: c in s ==> !LineTerminator(c)
  }

  /** `.replace(/\*\*\/g, NUL)`: leftmost, non-overlapping pairs of stars become the placeholder. */
  function MarkDoubleStars(s: string): string {
    if |s| >= 2 && s[0] == '*' && s[1] == '*' then [NUL] + MarkDoubleStars(s[2..])
    else if s == "" then ""
    else [s[0]] + MarkDoubleStars(s[1..])
  }

  /** What one character of the marked pattern contributes to the regular expression. */
  function AtomOf(c: char): Atom {
    if c == '*' then SegStar else if c == NUL then DotStar else Lit(c)
  }

  function AtomsOf(s: string): seq<Atom> {
    if s == "" then [] else [AtomOf(s[0])] + AtomsOf(s[1..])
  }

  /** The evaluator's regular expression for a restricted glob. */
  function Compile(pattern: string): seq<Atom> {
    AtomsOf(MarkDoubleStars(pattern))
  }

  /** `new RegExp("^...$").test(s)`. */
  predicate Accepts(re: seq<Atom>, s: string)
    decreases |re| + |s|
  {
    if re == [] then s == ""
    else match re[0] {
      case Lit(c) => s != "" && s[0] == c && Accepts(re[1..], s[1..])
      case SegStar => Accepts(re[1..], s) || (s != "" && s[0] != '/' && Accepts(re, s[1..]))
      case DotStar => Accepts(re[1..], s) || (s != "" && !LineTerminator(s[0]) && Accepts(re, s[1..]))
    }
  }

  // ---- Segments ----------------------------------------------------------------------------

  predicate SlashFree(s: string) {
    '/' !in s
  }

  predicate Segments(segs: seq<string>) {
    forall i :: 0 <= i < |segs| ==> SlashFree(segs[i])
  }

  function Join(segs: seq<string>): string {
    if segs == [] then "" else if |segs| == 1 then segs[0] else segs[0] + "/" + Join(segs[1..])
  }

  /** `s.split("/")`: the only way to cut `s` at its separators. */
  function Split(s: string): (segs: seq<string>)
    ensures segs != [] && Segments(segs) && Join(segs) == s
  {
    if s == "" then [""]
    else
      var rest := Split(s[1..]);
      if s[0] == '/' then
        assert s == "" + "/" + Join(rest);
        assert ([""] + rest)[1..] == rest;
        [""] + rest
      else
        var segs := [[s[0]] + rest[0]] + rest[1..];
        assert segs[1..] == rest[1..];
        assert Join(segs) == [s[0]] + Join(rest);
        segs
  }

  /** A pattern whose stars are single except for segments that are exactly `**`. */
  predicate WholeStarSegment(seg: string) {
    seg == "**" || SingleStars(seg)
  }

  predicate SingleStars(seg: string) {
    |seg| < 2 || (!(seg[0] == '*' && seg[1] == '*') && SingleStars(seg[1..]))
  }

  predicate WholeStars(segs: seq<string>) {
    forall i :: 0 <= i < |segs| ==> WholeStarSegment(segs[i]) && NUL !in segs[i]
  }

  /** Segment-wise matching, with `**` taking one or more whole segments. */
  predicate MatchSegments(pat: seq<string>, segs: seq<string>)
    decreases |pat| + |segs|
  {
    if pat == [] || segs == [] then pat == segs
    else if pat[0] == "**" then MatchSegments(pat[1..], segs[1..]) || MatchSegments(pat, segs[1..])
    else Accepts(AtomsOf(pat[0]), segs[0]) && MatchSegments(pat[1..], segs[1..])
  }

  // ---- The regular expression seen segment by segment --------------------------------------

  predicate InSegment(re: seq<Atom>) {
    forall i :: 0 <= i < |re| ==> re[i].SegStar? || (re[i].Lit? && re[i].c != '/')
  }

  lemma AtomsOfAt(s: string)
    ensures |AtomsOf(s)| == |s| && forall i :: 0 <= i < |s| ==> AtomsOf(s)[i] == AtomOf(s[i])
  {
  }

  lemma SegmentAtoms(s: string)
    requires SlashFree(s) && NUL !in s
    ensures InSegment(AtomsOf(s))
  {
    AtomsOfAt(s);
  }

  lemma AtomsOfConcat(a: string, b: string)
    ensures AtomsOf(a + b) == AtomsOf(a) + AtomsOf(b)
  {
    if a == "" {
      assert a + b == b;
    } else {
      assert (a + b)[1..] == a[1..] + b;
    }
  }

  lemma MarkCons(c: char, s: string)
    requires !(c == '*' && s != "" && s[0] == '*')
    ensures MarkDoubleStars([c] + s) == [c] + MarkDoubleStars(s)
  {
    assert ([c] + s)[1..] == s;
  }

  lemma SingleStarsTail(seg: string, rest: string)
    requires SingleStars(seg) && seg != "" && (rest == "" || rest[0] == '/')
    ensures SingleStars(seg[1..])
    ensures !(seg[0] == '*' && seg[1..] + rest != "" && (seg[1..] + rest)[0] == '*')
  {
    if |seg| == 1 { assert seg[1..] + rest == rest; }
  }

  lemma {:induction false} MarkSingle(seg: string, rest: string)
    requires SingleStars(seg)
    requires rest == "" || rest[0] == '/'
    ensures MarkDoubleStars(seg + rest) == seg + MarkDoubleStars(rest)
  {
    if seg == "" {
      assert seg + rest == rest;
    } else {
      var tail := seg[1..];
      SingleStarsTail(seg, rest);
      MarkSingle(tail, rest);
      MarkCons(seg[0], tail + rest);
      assert seg == [seg[0]] + tail;
      Associative([seg[0]], tail, rest);
      Associative([seg[0]], tail, MarkDoubleStars(rest));
    }
  }

  /** The atoms of a `**` or ordinary segment. */
  function SegmentExpression(seg: string): seq<Atom> {
    if seg == "**" then [DotStar] else AtomsOf(seg)
  }

  lemma CompileSegment(seg: string, rest: string)
    requires WholeStarSegment(seg) && NUL !in seg
    requires rest == "" || rest[0] == '/'
    ensures Compile(seg + rest) == SegmentExpression(seg) + Compile(rest)
  {
    if seg == "**" {
      var s := seg + rest;
      assert s[0] == '*' && s[1] == '*' && s[2..] == rest;
      AtomsOfConcat([NUL], MarkDoubleStars(rest));
      assert AtomsOf([NUL]) == [DotStar];
    } else {
      MarkSingle(seg, rest);
      AtomsOfConcat(seg, MarkDoubleStars(rest));
    }
  }

  lemma CompileCons(segs: seq<string>)
    requires |segs| > 1 && WholeStars(segs)
    ensures Compile(Join(segs)) == SegmentExpression(segs[0]) + ([Lit('/')] + Compile(Join(segs[1..])))
  {
    var tail := Join(segs[1..]);
    var rest := "/" + tail;
    assert Join(segs) == segs[0] + rest;
    CompileSegment(segs[0], rest);
    assert rest[1..] == tail;
    AtomsOfConcat("/", MarkDoubleStars(tail));
  }

  lemma {:induction false} InSegmentAccepts(re: seq<Atom>, s: string)
    requires InSegment(re) && Accepts(re, s)
    ensures SlashFree(s)
    decreases |re| + |s|
  {
    if re != [] {
      if re[0].SegStar? && Accepts(re[1..], s) {
        InSegmentAccepts(re[1..], s);
      } else {
        InSegmentAccepts(if re[0].Lit? then re[1..] else re, s[1..]);
      }
    }
  }

  /** One pattern segment followed by `/`, against one text segment followed by `/`. */
  lemma {:induction false} AcceptsSegment(re: seq<Atom>, rest: seq<Atom>, seg: string, tail: string)
    requires InSegment(re) && SlashFree(seg)
    ensures Accepts(re + ([Lit('/')] + rest), seg + ("/" + tail)) <==> Accepts(re, seg) && Accepts(rest, tail)
    decreases |re| + |seg|
  {
    var whole, s := re + ([Lit('/')] + rest), seg + ("/" + tail);
    if re == [] {
      assert whole == [Lit('/')] + rest && whole[1..] == rest;
      if seg == "" {
        assert s == "/" + tail && s[1..] == tail;
      } else {
        assert s[0] == seg[0];
      }
    } else {
      assert whole[0] == re[0] && whole[1..] == re[1..] + ([Lit('/')] + rest);
      if seg == "" {
        assert s[0] == '/';
      } else {
        assert s[0] == seg[0] && s[1..] == seg[1..] + ("/" + tail);
        AcceptsSegment(if re[0].Lit? then re[1..] else re, rest, seg[1..], tail);
      }
      if re[0].SegStar? {
        AcceptsSegment(re[1..], rest, seg, tail);
      }
    }
  }

  /** Without a separator left in the text, no pattern with a `/` matches. */
  lemma {:induction false} AcceptsNoSlash(re: seq<Atom>, rest: seq<Atom>, seg: string)
    requires SlashFree(seg)
    ensures !Accepts(re + ([Lit('/')] + rest), seg)
    decreases |re| + |seg|
  {
    var whole := re + ([Lit('/')] + rest);
    if re == [] {
      assert whole[0] == Lit('/');
    } else {
      assert whole[0] == re[0] && whole[1..] == re[1..] + ([Lit('/')] + rest);
      AcceptsNoSlash(re[1..], rest, seg);
      if seg != "" {
        AcceptsNoSlash(re[1..], rest, seg[1..]);
        AcceptsNoSlash(re, rest, seg[1..]);
      }
    }
  }

  /** `.*` skips to the next separator. */
  lemma {:induction false} AcceptsDotStar(rest: seq<Atom>, seg: string, tail: string)
    requires SlashFree(seg) && OneLine(seg)
    ensures Accepts([DotStar] + ([Lit('/')] + rest), seg + ("/" + tail))
            <==> Accepts(rest, tail) || Accepts([DotStar] + ([Lit('/')] + rest), tail)
    decreases |seg|
  {
    var whole, s := [DotStar] + ([Lit('/')] + rest), seg + ("/" + tail);
    assert whole[1..] == [Lit('/')] + rest && ([Lit('/')] + rest)[1..] == rest;
    if seg == "" {
      assert s[0] == '/' && s[1..] == tail;
    } else {
      assert s[0] == seg[0] && s[1..] == seg[1..] + ("/" + tail);
      AcceptsDotStar(rest, seg[1..], tail);
    }
  }

  lemma DotStarAcceptsAll(s: string)
    requires OneLine(s)
    ensures Accepts([DotStar], s)
  {
  }

  lemma {:induction false} MatchAllSegments(segs: seq<string>)
    ensures MatchSegments(["**"], segs) <==> segs != []
    decreases |segs|
  {
    if segs != [] {
      MatchAllSegments(segs[1..]);
      assert ["**"][1..] == [];
    }
  }

  lemma OneLineParts(a: string, b: string)
    requires OneLine(a + b)
    ensures OneLine(a) && OneLine(b)
  {
    assert forall c :: c in a || c in b ==> c in a + b;
  }

  lemma JoinOneLine(segs: seq<string>)
    requires segs != [] && OneLine(Join(segs))
    ensures OneLine(segs[0]) && (|segs| > 1 ==> OneLine(Join(segs[1..])))
  {
    if |segs| > 1 {
      OneLineParts(segs[0] + "/", Join(segs[1..]));
      OneLineParts(segs[0], "/");
    }
  }

  /** The evaluator's regular expression is segment-wise matching with `**` taking one or more. */
  lemma {:induction false} ExpressionIsSegmentMatch(pat: seq<string>, segs: seq<string>)
    requires pat != [] && segs != [] && Segments(pat) && Segments(segs) && WholeStars(pat)
    requires OneLine(Join(segs))
    ensures Accepts(Compile(Join(pat)), Join(segs)) <==> MatchSegments(pat, segs)
    decreases |pat| + |segs|
  {
    if |pat| == 1 {
      LastSegment(pat, segs);
    } else if |segs| == 1 {
      TooFewSegments(pat, segs);
    } else {
      JoinOneLine(segs);
      ExpressionIsSegmentMatch(pat[1..], segs[1..]);
      if pat[0] == "**" {
        ExpressionIsSegmentMatch(pat, segs[1..]);
      }
      PeelSegment(pat, segs);
    }
  }

  lemma TooFewSegments(pat: seq<string>, segs: seq<string>)
    requires |pat| > 1 && |segs| == 1 && Segments(segs) && WholeStars(pat)
    ensures !Accepts(Compile(Join(pat)), Join(segs)) && !MatchSegments(pat, segs)
  {
    CompileCons(pat);
    AcceptsNoSlash(SegmentExpression(pat[0]), Compile(Join(pat[1..])), segs[0]);
    assert segs[1..] == [];
  }

  /** What the expression does with the first text segment when more follow. */
  lemma PeelSegment(pat: seq<string>, segs: seq<string>)
    requires |pat| > 1 && |segs| > 1 && Segments(pat) && Segments(segs) && WholeStars(pat)
    requires OneLine(segs[0])
    ensures
      var more := Accepts(Compile(Join(pat[1..])), Join(segs[1..]));
      Accepts(Compile(Join(pat)), Join(segs)) <==>
      if pat[0] == "**" then more || Accepts(Compile(Join(pat)), Join(segs[1..]))
      else Accepts(AtomsOf(pat[0]), segs[0]) && more
  {
    CompileCons(pat);
    var rest, tail := Compile(Join(pat[1..])), Join(segs[1..]);
    assert Join(segs) == segs[0] + ("/" + tail);
    if pat[0] == "**" {
      AcceptsDotStar(rest, segs[0], tail);
    } else {
      SegmentAtoms(pat[0]);
      AcceptsSegment(AtomsOf(pat[0]), rest, segs[0], tail);
    }
  }

  lemma LastSegment(pat: seq<string>, segs: seq<string>)
    requires |pat| == 1 && segs != [] && Segments(pat) && Segments(segs) && WholeStars(pat)
    requires OneLine(Join(segs))
    ensures Accepts(Compile(Join(pat)), Join(segs)) <==> MatchSegments(pat, segs)
  {
    CompileSegment(pat[0], "");
    assert pat[0] + "" == pat[0];
    assert SegmentExpression(pat[0]) + Compile("") == SegmentExpression(pat[0]);
    assert pat[1..] == [];
    if pat[0] == "**" {
      DotStarAcceptsAll(Join(segs));
      MatchAllSegments(segs);
      assert pat == ["**"];
    } else if |segs| > 1 {
      SegmentAtoms(pat[0]);
      var s := Join(segs);
      assert s == segs[0] + "/" + Join(segs[1..]);
      assert s[|segs[0]|] == '/';
      if Accepts(AtomsOf(pat[0]), s) { InSegmentAccepts(AtomsOf(pat[0]), s); }
    }
  }

  /** The same, for a pattern and a text given as strings. */
  lemma EvaluatorMatchesBySegments(pattern: string, text: string)
    requires WholeStars(Split(pattern)) && OneLine(text)
    ensures Accepts(Compile(pattern), text) <==> MatchSegments(Split(pattern), Split(text))
  {
    ExpressionIsSegmentMatch(Split(pattern), Split(text));
  }
}
