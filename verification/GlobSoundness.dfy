/**
 The evaluator never widens a glob the delegation checker accepted, and the exact condition
 under which that is true of the code.
 */
module GlobSoundness {
  import opened Common
  import opened Glob
  import opened GlobRefinement

  function CountDoubleStars(segs: seq<string>): nat {
    if segs == [] then 0 else (if segs[0] == "**" then 1 else 0) + CountDoubleStars(segs[1..])
  }

  /**
   The parent covers the delegate segment by segment: each `**` of the parent absorbs one or
   more delegate segments, each other segment stands over one delegate segment it includes.
   */
  ghost predicate Dominates(parent: seq<string>, delegate: seq<string>)
    decreases |parent| + |delegate|
  {
    if parent == [] || delegate == [] then parent == delegate
    else if parent[0] == "**" then Dominates(parent[1..], delegate[1..]) || Dominates(parent, delegate[1..])
    else
      && delegate[0] != "**"
      && Included(AtomsOf(parent[0]), AtomsOf(delegate[0]))
      && Dominates(parent[1..], delegate[1..])
  }

  lemma {:induction false} DominatesSound(parent: seq<string>, delegate: seq<string>, segs: seq<string>)
    requires Dominates(parent, delegate) && MatchSegments(delegate, segs)
    ensures MatchSegments(parent, segs)
    decreases |parent| + |delegate| + |segs|
  {
    if parent != [] && delegate != [] && segs != [] {
      if parent[0] == "**" {
        if delegate[0] == "**" && MatchSegments(delegate, segs[1..]) {
          DominatesSound(parent, delegate, segs[1..]);
        } else if Dominates(parent[1..], delegate[1..]) {
          DominatesSound(parent[1..], delegate[1..], segs[1..]);
        } else {
          DominatesSound(parent, delegate[1..], segs[1..]);
        }
      } else {
        DominatesSound(parent[1..], delegate[1..], segs[1..]);
      }
    }
  }

  /** `**` absorbs any positive number of segments. */
  lemma {:induction false} DominatesAbsorb(rest: seq<string>, delegate: seq<string>, k: nat)
    requires 1 <= k <= |delegate| && Dominates(rest, delegate[k..])
    ensures Dominates(["**"] + rest, delegate)
    decreases k
  {
    var parent := ["**"] + rest;
    assert parent[1..] == rest;
    if k > 1 {
      assert delegate[1..][k - 1..] == delegate[k..];
      DominatesAbsorb(rest, delegate[1..], k - 1);
    }
  }

  // ---- The delegate's sample string ----------------------------------------------------------

  /** `s.replaceAll("*", c)`: a string that the glob `s` matches. */
  function FillStars(s: string, c: char): string {
    if s == "" then "" else [if s[0] == '*' then c else s[0]] + FillStars(s[1..], c)
  }

  function Sample(segs: seq<string>, c: char): (sample: seq<string>)
    ensures |sample| == |segs|
    ensures forall i :: 0 <= i < |segs| ==> sample[i] == FillStars(segs[i], c)
  {
    seq(|segs|, i requires 0 <= i < |segs| => FillStars(segs[i], c))
  }

  lemma FillStarsAt(s: string, c: char)
    ensures |FillStars(s, c)| == |s|
    ensures forall i :: 0 <= i < |s| ==> FillStars(s, c)[i] == if s[i] == '*' then c else s[i]
  {
  }

  lemma FillStarsIsFill(seg: string, c: char)
    requires NUL !in seg
    ensures FillStars(seg, c) == Fill(AtomsOf(seg), [c])
  {
  }

  lemma FillStarsConcat(a: string, b: string, c: char)
    ensures FillStars(a + b, c) == FillStars(a, c) + FillStars(b, c)
  {
    if a == "" {
      assert a + b == b;
    } else {
      assert (a + b)[1..] == a[1..] + b;
    }
  }

  lemma {:induction false} FillStarsJoin(segs: seq<string>, c: char)
    ensures FillStars(Join(segs), c) == Join(Sample(segs, c))
  {
    if |segs| > 1 {
      FillStarsJoin(segs[1..], c);
      assert Sample(segs, c)[1..] == Sample(segs[1..], c);
      FillStarsConcat(segs[0] + "/", Join(segs[1..]), c);
      FillStarsConcat(segs[0], "/", c);
      assert FillStars("/", c) == "/";
    }
  }

  lemma SampleSegments(segs: seq<string>, c: char)
    requires Segments(segs) && c != '/'
    ensures Segments(Sample(segs, c))
  {
    forall i | 0 <= i < |segs|
      ensures SlashFree(Sample(segs, c)[i])
    {
      FillStarsAt(segs[i], c);
    }
  }

  lemma {:induction false} SampleMatches(segs: seq<string>, c: char)
    requires Segments(segs) && WholeStars(segs) && c != '/'
    ensures MatchSegments(segs, Sample(segs, c))
  {
    if segs != [] {
      assert Sample(segs, c)[1..] == Sample(segs[1..], c);
      SampleMatches(segs[1..], c);
      if segs[0] != "**" {
        FillStarsIsFill(segs[0], c);
        SegmentAtoms(segs[0]);
        FillAccepted(AtomsOf(segs[0]), [c]);
      }
    }
  }

  lemma MatchLength(pat: seq<string>, segs: seq<string>)
    requires MatchSegments(pat, segs)
    ensures |pat| <= |segs|
    ensures CountDoubleStars(pat) == 0 ==> |pat| == |segs|
    decreases |pat| + |segs|
  {
  }

  lemma {:induction false} MatchAfterDoubleStar(rest: seq<string>, segs: seq<string>) returns (m: nat)
    requires MatchSegments(["**"] + rest, segs)
    ensures 1 <= m <= |segs| && MatchSegments(rest, segs[m..])
    decreases |segs|
  {
    var pat := ["**"] + rest;
    assert pat[1..] == rest;
    if MatchSegments(rest, segs[1..]) {
      m := 1;
    } else {
      m := MatchAfterDoubleStar(rest, segs[1..]);
      m := m + 1;
      assert segs[1..][m - 1..] == segs[m..];
    }
  }

  lemma AtomsSpell(seg: string, c: char)
    requires c !in seg
    ensures Lit(c) !in AtomsOf(seg)
  {
    AtomsOfAt(seg);
  }

  /** One pair: the fresh-sentinel test is inclusion. */
  lemma PairExact(parent: string, delegate: string, c: char)
    requires SlashFree(parent) && SlashFree(delegate) && NUL !in parent && NUL !in delegate
    requires c != '/' && c !in parent
    ensures Accepts(AtomsOf(parent), FillStars(delegate, c)) <==> Included(AtomsOf(parent), AtomsOf(delegate))
  {
    SegmentAtoms(parent);
    SegmentAtoms(delegate);
    AtomsSpell(parent, c);
    FillStarsIsFill(delegate, c);
    SentinelExact(AtomsOf(parent), AtomsOf(delegate), c);
  }

  predicate Spells(segs: seq<string>, c: char) {
    exists i :: 0 <= i < |segs| && c in segs[i]
  }

  /** A delegate without `**`: matching its sample is covering it. */
  lemma {:induction false} SampleDominates(parent: seq<string>, delegate: seq<string>, c: char)
    requires Segments(parent) && WholeStars(parent) && Segments(delegate) && WholeStars(delegate)
    requires CountDoubleStars(delegate) == 0 && c != '/' && !Spells(parent, c)
    requires MatchSegments(parent, Sample(delegate, c))
    ensures Dominates(parent, delegate)
    decreases |parent| + |delegate|
  {
    if parent != [] && delegate != [] {
      var rest := Sample(delegate[1..], c);
      assert Sample(delegate, c)[1..] == rest;
      assert !Spells(parent[1..], c) by {
        assert forall i :: 0 <= i < |parent[1..]| ==> parent[1..][i] == parent[i + 1];
      }
      if parent[0] == "**" && !MatchSegments(parent[1..], rest) {
        SampleDominates(parent, delegate[1..], c);
      } else {
        SampleDominates(parent[1..], delegate[1..], c);
        PairExact(parent[0], delegate[0], c);
      }
    }
  }

  lemma AcceptedWithoutDoubleStar(parent: seq<string>, delegate: seq<string>)
    requires SegmentSubset(parent, delegate) && CountDoubleStars(parent) == 0
    ensures |parent| == |delegate| && CountDoubleStars(delegate) == 0
  {
  }

  /** How many delegate segments the parent's only `**` absorbed. */
  lemma AbsorbedBy(parent: seq<string>, delegate: seq<string>) returns (k: nat)
    requires parent != [] && delegate != [] && parent[0] == "**" && CountDoubleStars(parent) <= 1
    requires SegmentSubset(parent, delegate)
    ensures k == |delegate| - (|parent| - 1) && k <= |delegate|
    ensures CountDoubleStars(delegate[k..]) == 0 && SegmentSubset(parent[1..], delegate[k..])
  {
    if |parent| == 1 {
      k := |delegate|;
    } else {
      k :| 0 <= k <= |delegate| && SegmentSubset(parent[1..], delegate[k..]);
      AcceptedWithoutDoubleStar(parent[1..], delegate[k..]);
    }
  }

  lemma AbsorbingSampleDominates(parent: seq<string>, delegate: seq<string>, c: char)
    requires Segments(parent) && WholeStars(parent) && Segments(delegate) && WholeStars(delegate)
    requires CountDoubleStars(parent) <= 1 && c != '/' && parent != [] && parent[0] == "**" &&
             !Spells(parent[1..], c) && delegate != []
    requires SegmentSubset(parent, delegate) && MatchSegments(parent, Sample(delegate, c))
    ensures Dominates(parent, delegate)
  {
    var rest := parent[1..];
    assert parent == ["**"] + rest;
    var k := AbsorbedBy(parent, delegate);
    var m := MatchAfterDoubleStar(rest, Sample(delegate, c));
    MatchLength(rest, Sample(delegate, c)[m..]);
    assert m == k;
    assert Sample(delegate, c)[k..] == Sample(delegate[k..], c);
    SampleDominates(rest, delegate[k..], c);
    DominatesAbsorb(rest, delegate, k);
  }

  /** A parent with one `**`: an accepted delegate whose sample it matches is covered. */
  lemma {:induction false} AcceptedSampleDominates(parent: seq<string>, delegate: seq<string>, c: char)
    requires Segments(parent) && WholeStars(parent) && Segments(delegate) && WholeStars(delegate)
    requires CountDoubleStars(parent) <= 1 && c != '/' && !Spells(parent, c)
    requires SegmentSubset(parent, delegate) && MatchSegments(parent, Sample(delegate, c))
    ensures Dominates(parent, delegate)
    decreases |parent|
  {
    if parent != [] && delegate != [] {
      var rest := parent[1..];
      assert !Spells(rest, c) by {
        assert forall i :: 0 <= i < |rest| ==> rest[i] == parent[i + 1];
      }
      if parent[0] == "**" {
        AbsorbingSampleDominates(parent, delegate, c);
      } else {
        assert Sample(delegate, c)[1..] == Sample(delegate[1..], c);
        AcceptedSampleDominates(rest, delegate[1..], c);
        PairExact(parent[0], delegate[0], c);
      }
    }
  }

  // ---- The main results ----------------------------------------------------------------------

  /** Every one-line string the delegate's compiled expression matches, the parent's matches. */
  ghost predicate Narrower(parent: string, delegate: string) {
    forall s :: OneLine(s) && Accepts(Compile(delegate), s) ==> Accepts(Compile(parent), s)
  }

  /** `**` only as a whole segment, no placeholder character, and one `**` in the parent or none in the delegate. */
  predicate InFragment(parent: string, delegate: string) {
    && WholeStars(Split(parent)) && WholeStars(Split(delegate))
    && (CountDoubleStars(Split(parent)) <= 1 || CountDoubleStars(Split(delegate)) == 0)
  }

  lemma CoveredIsNarrower(parent: string, delegate: string)
    requires WholeStars(Split(parent)) && WholeStars(Split(delegate))
    requires Dominates(Split(parent), Split(delegate))
    ensures Narrower(parent, delegate)
  {
    forall s | OneLine(s) && Accepts(Compile(delegate), s)
      ensures Accepts(Compile(parent), s)
    {
      EvaluatorMatchesBySegments(delegate, s);
      EvaluatorMatchesBySegments(parent, s);
      DominatesSound(Split(parent), Split(delegate), Split(s));
    }
  }

  lemma FirstSegment(segs: seq<string>)
    requires segs != [] && Segments(segs)
    ensures |segs[0]| <= |Join(segs)| && Join(segs)[..|segs[0]|] == segs[0]
    ensures |segs| == 1 ==> |Join(segs)| == |segs[0]|
    ensures |segs| > 1 ==> |segs[0]| < |Join(segs)| && Join(segs)[|segs[0]|] == '/'
                           && Join(segs)[|segs[0]| + 1..] == Join(segs[1..])
    ensures forall k :: 0 <= k < |segs[0]| ==> Join(segs)[k] != '/'
  {
    assert |segs| > 1 ==> Join(segs) == segs[0] + ("/" + Join(segs[1..]));
    assert forall k :: 0 <= k < |segs[0]| ==> segs[0][k] in segs[0];
  }

  lemma {:induction false} JoinInjective(a: seq<string>, b: seq<string>)
    requires a != [] && b != [] && Segments(a) && Segments(b) && Join(a) == Join(b)
    ensures a == b
  {
    var i, j := |a[0]|, |b[0]|;
    FirstSegment(a);
    FirstSegment(b);
    if i != j {
      assert false;
    }
    if |a| > 1 && |b| > 1 {
      JoinInjective(a[1..], b[1..]);
    }
  }

  /** The delegate's sample string, read segment by segment. */
  lemma SampleText(delegate: string, c: char)
    requires c != '/' && !LineTerminator(c) && OneLine(delegate)
    ensures OneLine(FillStars(delegate, c))
    ensures Split(FillStars(delegate, c)) == Sample(Split(delegate), c)
  {
    FillStarsAt(delegate, c);
    FillStarsJoin(Split(delegate), c);
    SampleSegments(Split(delegate), c);
    JoinInjective(Split(FillStars(delegate, c)), Sample(Split(delegate), c));
  }

  lemma SegmentChars(s: string, c: char)
    requires c !in s
    ensures !Spells(Split(s), c)
  {
    JoinChars(Split(s), c);
  }

  lemma {:induction false} JoinChars(segs: seq<string>, c: char)
    ensures Spells(segs, c) ==> c in Join(segs)
  {
    if segs != [] && Spells(segs, c) {
      var i :| 0 <= i < |segs| && c in segs[i];
      if i > 0 {
        assert segs[1..][i - 1] == segs[i];
        JoinChars(segs[1..], c);
      }
    }
  }

  /**
   Exactly when an accepted glob is sound: when the parent's own expression matches the delegate
   with each star replaced by a character the parent does not contain.
   */
  lemma AcceptedGlobSoundExactly(parent: string, delegate: string, c: char)
    requires IsRestrictedGlobRefinement(parent, delegate) && InFragment(parent, delegate)
    requires OneLine(delegate) && c !in parent && c != '/' && !LineTerminator(c)
    ensures Narrower(parent, delegate) <==> Accepts(Compile(parent), FillStars(delegate, c))
  {
    var p, d := Split(parent), Split(delegate);
    SampleText(delegate, c);
    SampleMatches(d, c);
    EvaluatorMatchesBySegments(delegate, FillStars(delegate, c));
    EvaluatorMatchesBySegments(parent, FillStars(delegate, c));
    if Accepts(Compile(parent), FillStars(delegate, c)) && parent != delegate {
      SegmentChars(parent, c);
      if CountDoubleStars(d) == 0 {
        SampleDominates(p, d, c);
      } else {
        AcceptedSampleDominates(p, d, c);
      }
      CoveredIsNarrower(parent, delegate);
    }
  }

  /** No parent segment that stands over a starred delegate segment contains the letter `x`. */
  predicate SentinelSafe(parent: seq<string>, delegate: seq<string>)
    decreases |parent|
  {
    if parent == [] || delegate == [] then true
    else if parent[0] == "**" then
      |parent| - 1 <= |delegate| ==> SentinelSafe(parent[1..], delegate[|delegate| - (|parent| - 1)..])
    else
      ('*' in delegate[0] ==> 'x' !in parent[0]) && SentinelSafe(parent[1..], delegate[1..])
  }

  lemma {:induction false} StarlessAccepts(seg: string, s: string)
    requires '*' !in seg && NUL !in seg && Accepts(AtomsOf(seg), s)
    ensures s == seg
  {
    if seg != "" {
      StarlessAccepts(seg[1..], s[1..]);
    }
  }

  lemma StarlessFill(seg: string, c: char)
    requires '*' !in seg
    ensures FillStars(seg, c) == seg
  {
  }

  /** An accepted pair of segments is included when the sentinel is not the parent's own letter. */
  lemma AcceptedPairIncluded(parent: string, delegate: string)
    requires SlashFree(parent) && SlashFree(delegate) && NUL !in parent && NUL !in delegate
    requires SingleStars(parent) && SingleStars(delegate)
    requires IntraSegmentSubset(parent, delegate)
    requires '*' in delegate ==> 'x' !in parent
    ensures Included(AtomsOf(parent), AtomsOf(delegate))
  {
    if parent != delegate {
      TokensAgree(parent);
      TokensAgree(delegate);
      WithStarsIsFill(Tokens(delegate), "x");
      FillStarsIsFill(delegate, 'x');
      if '*' in delegate {
        PairExact(parent, delegate, 'x');
      } else {
        StarlessFill(delegate, 'x');
        forall s | Accepts(AtomsOf(delegate), s)
          ensures Accepts(AtomsOf(parent), s)
        {
          StarlessAccepts(delegate, s);
        }
      }
    }
  }

  /** What is left of both patterns once the parent's only `**` has absorbed `k` segments. */
  lemma AfterAbsorbing(parent: seq<string>, delegate: seq<string>, k: nat)
    requires Segments(parent) && WholeStars(parent) && Segments(delegate) && WholeStars(delegate)
    requires CountDoubleStars(parent) <= 1 && parent != [] && parent[0] == "**" && k <= |delegate| && delegate != []
    requires |parent| - 1 == |delegate| - k && SentinelSafe(parent, delegate)
    ensures Segments(parent[1..]) && WholeStars(parent[1..]) && CountDoubleStars(parent[1..]) <= 1
    ensures Segments(delegate[k..]) && WholeStars(delegate[k..]) && SentinelSafe(parent[1..], delegate[k..])
  {
    assert parent == ["**"] + parent[1..];
  }

  lemma {:induction false} SafeDominates(parent: seq<string>, delegate: seq<string>)
    requires Segments(parent) && WholeStars(parent) && Segments(delegate) && WholeStars(delegate)
    requires CountDoubleStars(parent) <= 1 && |parent| <= |delegate|
    requires SegmentSubset(parent, delegate) && SentinelSafe(parent, delegate)
    ensures Dominates(parent, delegate)
    decreases |parent|
  {
    if parent != [] && delegate != [] {
      if parent[0] == "**" {
        var k := AbsorbedBy(parent, delegate);
        AfterAbsorbing(parent, delegate, k);
        SafeDominates(parent[1..], delegate[k..]);
        DominatesAbsorb(parent[1..], delegate, k);
        assert parent == ["**"] + parent[1..];
      } else {
        SafeDominates(parent[1..], delegate[1..]);
        AcceptedPairIncluded(parent[0], delegate[0]);
      }
    }
  }

  /**
   With one `**` at most in the parent and no `x` under a starred delegate segment, an accepted
   glob is sound exactly when the delegate has at least as many segments as the parent.
   */
  lemma AcceptedGlobSoundBySegments(parent: string, delegate: string)
    requires IsRestrictedGlobRefinement(parent, delegate) && OneLine(delegate)
    requires WholeStars(Split(parent)) && WholeStars(Split(delegate))
    requires CountDoubleStars(Split(parent)) <= 1 && SentinelSafe(Split(parent), Split(delegate))
    ensures Narrower(parent, delegate) <==> |Split(parent)| <= |Split(delegate)|
  {
    if parent != delegate {
      if |Split(parent)| <= |Split(delegate)| {
        SafeDominates(Split(parent), Split(delegate));
        CoveredIsNarrower(parent, delegate);
      } else {
        var s := FillStars(delegate, 'a');
        SampleText(delegate, 'a');
        SampleMatches(Split(delegate), 'a');
        EvaluatorMatchesBySegments(delegate, s);
        EvaluatorMatchesBySegments(parent, s);
        if MatchSegments(Split(parent), Split(s)) {
          MatchLength(Split(parent), Split(s));
        }
      }
    }
  }

  // ---- Where the checker's "never false-accepts" fails ---------------------------------------

  function CountSegStars(re: seq<Atom>): nat {
    if re == [] then 0 else (if re[0].SegStar? then 1 else 0) + CountSegStars(re[1..])
  }

  lemma CountSegStarsConcat(a: seq<Atom>, b: seq<Atom>)
    ensures CountSegStars(a + b) == CountSegStars(a) + CountSegStars(b)
  {
    if a == [] {
      assert a + b == b;
    } else {
      assert (a + b)[1..] == a[1..] + b;
    }
  }

  lemma LiteralsHaveNoStar(text: string)
    ensures CountSegStars(Literals(text)) == 0
  {
  }

  lemma {:induction false} StarsCounted(tokens: seq<Token>)
    ensures Stars(tokens) == CountSegStars(SegmentRegex(tokens))
  {
    if tokens != [] {
      var init, last := tokens[..|tokens| - 1], tokens[|tokens| - 1];
      StarsCounted(init);
      CountSegStarsConcat(SegmentRegex(init), if last.Star? then [SegStar] else Literals(last.text));
      if last.Literal? {
        LiteralsHaveNoStar(last.text);
      }
    }
  }

  /** The segment test, on segments without adjacent stars, in terms of the expressions. */
  lemma SegmentTest(parent: string, delegate: string)
    requires SingleStars(parent) && SingleStars(delegate) && NUL !in parent && NUL !in delegate
    ensures TokenSubset(Tokens(parent), Tokens(delegate)) <==>
            && Accepts(AtomsOf(parent), Fill(AtomsOf(delegate), ""))
            && Accepts(AtomsOf(parent), Fill(AtomsOf(delegate), "x"))
            && CountSegStars(AtomsOf(delegate)) <= CountSegStars(AtomsOf(parent))
  {
    TokensAgree(parent);
    TokensAgree(delegate);
    WithStarsIsFill(Tokens(delegate), "");
    WithStarsIsFill(Tokens(delegate), "x");
    StarsCounted(Tokens(parent));
    StarsCounted(Tokens(delegate));
  }

  lemma SingleSegment(s: string)
    requires SlashFree(s)
    ensures Split(s) == [s]
  {
    JoinInjective(Split(s), [s]);
  }

  lemma CompileSingle(seg: string)
    requires SingleStars(seg) && NUL !in seg
    ensures Compile(seg) == AtomsOf(seg)
  {
    MarkSingle(seg, "");
    assert seg + "" == seg && seg + MarkDoubleStars("") == seg;
  }

  /** A one-segment pair: the checker's verdict, and inclusion, in terms of the expressions. */
  lemma SingleSegmentPair(parent: string, delegate: string)
    requires parent != "**" && delegate != "**" && parent != delegate && SlashFree(parent) && SlashFree(delegate)
    ensures IsRestrictedGlobRefinement(parent, delegate) <==> TokenSubset(Tokens(parent), Tokens(delegate))
  {
    SingleSegment(parent);
    SingleSegment(delegate);
    assert [parent][1..] == [] && [delegate][1..] == [];
    assert SegmentSubset([parent], [delegate]) == IntraSegmentSubset(parent, delegate);
  }

  /** `s` is the two-character string `ab`. */
  predicate Two(s: string, a: char, b: char) {
    |s| == 2 && s[0] == a && s[1] == b
  }

  lemma LetterAtoms(s: string, a: char, b: char)
    requires Two(s, a, b) && a != NUL && b != NUL
    ensures AtomsOf(s) == [AtomOf(a)] + [AtomOf(b)]
  {
    AtomsOfAt(s);
  }

  lemma LetterAccepted(parent: string, delegate: string)
    requires Two(parent, 'x', '*') && Two(delegate, '*', 'x')
    ensures TokenSubset(Tokens(parent), Tokens(delegate))
  {
    LetterAtoms(parent, 'x', '*');
    LetterAtoms(delegate, '*', 'x');
    var p, d := AtomsOf(parent), AtomsOf(delegate);
    FillConcat([Lit('x')], [SegStar], "x");
    FillConcat([SegStar], [Lit('x')], "x");
    FillConcat([Lit('x')], [SegStar], "");
    FillConcat([SegStar], [Lit('x')], "");
    assert Fill(d, "") == Fill(p, "") && Fill(d, "x") == Fill(p, "x");
    FillAccepted(p, "");
    FillAccepted(p, "x");
    CountSegStarsConcat([Lit('x')], [SegStar]);
    CountSegStarsConcat([SegStar], [Lit('x')]);
    SegmentTest(parent, delegate);
  }

  lemma LetterWidens(parent: string, delegate: string)
    requires Two(parent, 'x', '*') && Two(delegate, '*', 'x')
    ensures !Narrower(parent, delegate)
  {
    LetterAtoms(parent, 'x', '*');
    LetterAtoms(delegate, '*', 'x');
    CompileSingle(parent);
    CompileSingle(delegate);
    var s := ['a'] + ['x'];
    assert AtomsOf(delegate)[1..] == [Lit('x')] && ['x'][1..] == [];
    StarSkips(AtomsOf(delegate), ['a'], ['x']);
    assert OneLine(s) && !Accepts(AtomsOf(parent), s);
  }

  lemma LetterFragment(s: string, a: char, b: char)
    requires Two(s, a, b) && a != '/' && b != '/' && a != NUL && b != NUL && !(a == '*' && b == '*')
    ensures SlashFree(s) && s != "**" && SingleStars(s) && NUL !in s
    ensures Split(s) == [s] && WholeStars(Split(s)) && CountDoubleStars(Split(s)) == 0
  {
    SingleSegment(s);
    assert SingleStars(s[1..]);
  }

  /** The sentinel is a letter the parent may spell: the checker takes `*x` to refine `x*`. */
  lemma SentinelLetterUnsound(parent: string, delegate: string)
    requires Two(parent, 'x', '*') && Two(delegate, '*', 'x')
    ensures IsRestrictedGlobRefinement(parent, delegate) && InFragment(parent, delegate)
    ensures !Narrower(parent, delegate)
  {
    LetterAccepted(parent, delegate);
    LetterWidens(parent, delegate);
    LetterFragment(parent, 'x', '*');
    LetterFragment(delegate, '*', 'x');
    SingleSegmentPair(parent, delegate);
  }

  /** Plain text: no wildcard, no separator, nothing the expressions treat specially. */
  predicate PlainText(s: string) {
    SlashFree(s) && '*' !in s && NUL !in s && OneLine(s)
  }

  lemma {:induction false} PlainSegment(s: string)
    requires PlainText(s)
    ensures s != "**" && SingleStars(s)
  {
    if |s| >= 2 {
      PlainSegment(s[1..]);
    }
  }

  /** The checker lets a final `**` absorb nothing; the evaluator's `.*` keeps the separator. */
  lemma EmptyAbsorptionUnsound(text: string)
    requires PlainText(text)
    ensures IsRestrictedGlobRefinement(text + "/**", text) && !Narrower(text + "/**", text)
  {
    var parent, delegate := [text, "**"], [text];
    PlainSegment(text);
    assert parent[1..] == ["**"] && delegate[1..] == [] && ["**"][1..] == [];
    assert Join(parent) == text + "/**" by {
      assert Join(["**"]) == "**";
    }
    JoinInjective(Split(text + "/**"), parent);
    SingleSegment(text);
    assert AllDoubleStars(["**"]);
    assert SegmentSubset(parent, delegate);
    assert SegmentSubset(["**"], []);
    assert CountDoubleStars(parent) <= 1 && SentinelSafe(parent, delegate);
    AcceptedGlobSoundBySegments(text + "/**", text);
  }

  lemma TokensSnoc(s: string, c: char)
    ensures Tokens(s + [c]) == AddChar(Tokens(s), c)
  {
    assert (s + [c])[..|s|] == s;
  }

  lemma {:induction false} TokensAppend(a: string, b: string, tail: string)
    requires Tokens(a) == Tokens(b)
    ensures Tokens(a + tail) == Tokens(b + tail)
    decreases |tail|
  {
    if tail == "" {
      assert a + tail == a && b + tail == b;
    } else {
      var first, rest := [tail[0]], tail[1..];
      TokensSnoc(a, tail[0]);
      TokensSnoc(b, tail[0]);
      TokensAppend(a + first, b + first, rest);
      assert tail == first + rest;
      Associative(a, first, rest);
      Associative(b, first, rest);
    }
  }

  /** Two stars in a row add no token. */
  lemma DoubledStarTokens(before: string, after: string)
    ensures Tokens(before + ['*'] + ['*'] + after) == Tokens(before + ['*'] + after)
  {
    var one := before + ['*'];
    EndsInStar(one);
    assert (one + ['*'])[..|one|] == one;
    TokensAppend(one + ['*'], one, after);
  }

  lemma {:induction false} MarkPlain(text: string, rest: string)
    requires PlainText(text)
    ensures MarkDoubleStars(text + rest) == text + MarkDoubleStars(rest)
  {
    if text == "" {
      assert text + rest == rest;
    } else {
      assert text[0] in text && forall c :: c in text[1..] ==> c in text;
      MarkPlain(text[1..], rest);
      assert text + rest == [text[0]] + (text[1..] + rest);
      MarkCons(text[0], text[1..] + rest);
      assert [text[0]] + (text[1..] + MarkDoubleStars(rest)) == text + MarkDoubleStars(rest);
    }
  }

  lemma AcceptsLiteral(c: char, re: seq<Atom>, s: string)
    requires Accepts(re, s)
    ensures Accepts([Lit(c)] + re, [c] + s)
  {
    assert ([Lit(c)] + re)[1..] == re && ([c] + s)[1..] == s;
  }

  lemma {:induction false} AcceptsPlain(text: string, re: seq<Atom>, s: string)
    requires '*' !in text && NUL !in text && Accepts(re, s)
    ensures Accepts(AtomsOf(text) + re, text + s)
  {
    if text == "" {
      assert AtomsOf(text) + re == re && text + s == s;
    } else {
      var atoms := AtomsOf(text[1..]);
      AcceptsPlain(text[1..], re, s);
      AcceptsLiteral(text[0], atoms + re, text[1..] + s);
      assert AtomsOf(text) == [Lit(text[0])] + atoms && text == [text[0]] + text[1..];
      Associative([Lit(text[0])], atoms, re);
      Associative([text[0]], text[1..], s);
    }
  }

  /** The evaluator reads the doubled star as `.*`, which crosses a separator. */
  lemma DoubledStarCrosses(before: string, after: string)
    requires PlainText(before) && PlainText(after)
    ensures Accepts(Compile(before + ['*'] + ['*'] + after), before + ("/" + after))
  {
    var stars := ['*'] + ['*'] + after;
    assert before + ['*'] + ['*'] + after == before + stars && stars[2..] == after;
    MarkPlain(before, stars);
    MarkPlain(after, "");
    assert after + "" == after && after + MarkDoubleStars("") == after;
    assert MarkDoubleStars(stars) == [NUL] + after;
    AtomsOfConcat(before, [NUL] + after);
    var re := [DotStar] + AtomsOf(after);
    assert AtomsOf([NUL] + after) == re by {
      assert ([NUL] + after)[1..] == after;
    }
    AcceptsPlain(after, [], "");
    assert AtomsOf(after) + [] == AtomsOf(after) && after + "" == after;
    assert re[1..] == AtomsOf(after) && ("/" + after)[1..] == after;
    assert Accepts(re, after);
    AcceptsPlain(before, re, "/" + after);
  }

  lemma DoubledStarAccepted(before: string, after: string)
    requires PlainText(before) && PlainText(after) && before + after != ""
    ensures IsRestrictedGlobRefinement(before + ['*'] + after, before + ['*'] + ['*'] + after)
  {
    var parent, delegate := before + ['*'] + after, before + ['*'] + ['*'] + after;
    StarSingle(before, after);
    DoubledStarTokens(before, after);
    SelfSubset(parent);
    assert |parent| >= 2 && (before != "" ==> parent[0] == before[0] && delegate[0] == before[0])
           && (after != "" ==> parent[|parent| - 1] in after && delegate[|delegate| - 1] in after);
    SingleSegmentPair(parent, delegate);
  }

  /** Inside a segment the checker reads `**` as one `*`; the evaluator lets it cross separators. */
  lemma DoubledStarUnsound(before: string, after: string)
    requires PlainText(before) && PlainText(after) && before + after != ""
    ensures IsRestrictedGlobRefinement(before + ['*'] + after, before + ['*'] + ['*'] + after)
    ensures !Narrower(before + ['*'] + after, before + ['*'] + ['*'] + after)
  {
    DoubledStarAccepted(before, after);
    DoubledStarCrosses(before, after);
    StarSingle(before, after);
    var parent, s := before + ['*'] + after, before + ("/" + after);
    CompileSingle(parent);
    SegmentAtoms(parent);
    assert s[|before|] == '/';
    if Accepts(Compile(parent), s) {
      InSegmentAccepts(AtomsOf(parent), s);
    }
  }

  lemma {:induction false} StarSingle(before: string, after: string)
    requires PlainText(before) && PlainText(after)
    ensures SingleStars(before + ['*'] + after)
  {
    var s := before + ['*'] + after;
    if before == "" {
      PlainSegment(after);
      assert s[1..] == after;
      assert after != "" ==> after[0] in after;
    } else {
      assert s[1..] == before[1..] + ['*'] + after;
      StarSingle(before[1..], after);
    }
  }

  lemma SelfSubset(seg: string)
    requires SingleStars(seg) && SlashFree(seg) && NUL !in seg
    ensures TokenSubset(Tokens(seg), Tokens(seg))
  {
    SegmentTest(seg, seg);
    SegmentAtoms(seg);
    FillAccepted(AtomsOf(seg), "");
    FillAccepted(AtomsOf(seg), "x");
  }

  // ---- Delegates without wildcards -----------------------------------------------------------

  /** The checker's own reading of a pattern: `**` takes zero or more whole segments. */
  predicate MatchWithEmpty(pat: seq<string>, segs: seq<string>)
    decreases |pat| + |segs|
  {
    if pat == [] then segs == []
    else if pat[0] == "**" then
      MatchWithEmpty(pat[1..], segs) || (segs != [] && MatchWithEmpty(pat, segs[1..]))
    else
      segs != [] && Accepts(SegmentRegex(Tokens(pat[0])), segs[0]) && MatchWithEmpty(pat[1..], segs[1..])
  }

  predicate WildcardFree(segs: seq<string>) {
    forall i :: 0 <= i < |segs| ==> '*' !in segs[i]
  }

  lemma {:induction false} StarlessTokens(seg: string)
    requires '*' !in seg
    ensures Tokens(seg) == if seg == "" then [] else [Literal(seg)]
  {
    if seg != "" {
      var init, c := seg[..|seg| - 1], seg[|seg| - 1];
      StarlessTokens(init);
      assert init + [c] == seg;
      if init == "" { assert seg == [c]; } else { assert [Literal(init)][..0] == []; }
    }
  }

  lemma LiteralsAccept(text: string)
    ensures Accepts(Literals(text), text)
  {
  }

  lemma SingleLiteral(text: string)
    ensures WithStars([Literal(text)], "") == text && WithStars([Literal(text)], "x") == text
    ensures Stars([Literal(text)]) == 0 && SegmentRegex([Literal(text)]) == Literals(text)
  {
    assert [Literal(text)][..0] == [] && "" + text == text && [] + Literals(text) == Literals(text);
  }

  lemma StarlessSegment(parent: string, delegate: string)
    requires '*' !in delegate
    ensures IntraSegmentSubset(parent, delegate) <==> Accepts(SegmentRegex(Tokens(parent)), delegate)
  {
    StarlessTokens(delegate);
    if parent == delegate {
      LiteralsAccept(delegate);
    }
    if delegate != "" { SingleLiteral(delegate); }
  }

  lemma {:induction false} MatchAbsorb(pat: seq<string>, segs: seq<string>)
    requires pat != [] && pat[0] == "**"
    ensures MatchWithEmpty(pat, segs) <==> exists k :: 0 <= k <= |segs| && MatchWithEmpty(pat[1..], segs[k..])
    decreases |segs|
  {
    assert segs[0..] == segs;
    if segs != [] {
      MatchAbsorb(pat, segs[1..]);
      assert forall k :: 0 <= k <= |segs[1..]| ==> segs[1..][k..] == segs[k + 1..];
      if MatchWithEmpty(pat, segs[1..]) {
        var k :| 0 <= k <= |segs[1..]| && MatchWithEmpty(pat[1..], segs[1..][k..]);
        assert segs[k + 1..] == segs[1..][k..];
      }
      if k :| 1 <= k <= |segs| && MatchWithEmpty(pat[1..], segs[k..]) {
        assert segs[1..][k - 1..] == segs[k..];
      }
    }
  }

  lemma MatchEmptyText(pat: seq<string>)
    ensures MatchWithEmpty(pat, []) <==> AllDoubleStars(pat)
  {
  }

  /** On a delegate without wildcards the checker decides membership, with `**` taking zero or more. */
  lemma {:induction false} WildcardFreeExact(parent: seq<string>, delegate: seq<string>)
    requires WildcardFree(delegate)
    ensures SegmentSubset(parent, delegate) <==> MatchWithEmpty(parent, delegate)
    decreases |parent|
  {
    if delegate == [] {
      MatchEmptyText(parent);
    } else if parent != [] {
      if parent[0] == "**" {
        MatchAbsorb(parent, delegate);
        forall k | 0 <= k <= |delegate|
          ensures SegmentSubset(parent[1..], delegate[k..]) <==> MatchWithEmpty(parent[1..], delegate[k..])
        {
          WildcardFreeExact(parent[1..], delegate[k..]);
        }
        if |parent| == 1 {
          assert parent[1..] == [] && delegate[|delegate|..] == [];
        }
      } else {
        assert '*' !in delegate[0];
        StarlessSegment(parent[0], delegate[0]);
        WildcardFreeExact(parent[1..], delegate[1..]);
      }
    }
  }
}
