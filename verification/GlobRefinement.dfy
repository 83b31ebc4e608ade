/**
 The delegation checker's decision procedure for restricted globs, and when the globs it
 accepts really do match no more than their parents.
 */
module GlobRefinement {
  import opened Common
  import opened Glob

  // ---- Inside one segment --------------------------------------------------------------------

  datatype Token = Star | Literal(text: string)

  function AddChar(tokens: seq<Token>, c: char): seq<Token> {
    var n := |tokens|;
    if c == '*' then
      if n > 0 && tokens[n - 1].Star? then tokens else tokens + [Star]
    else
      if n > 0 && tokens[n - 1].Literal? then tokens[..n - 1] + [Literal(tokens[n - 1].text + [c])]
      else tokens + [Literal([c])]
  }

  /** The tokens of a segment: maximal literals, and runs of stars collapsed to one. */
  function Tokens(seg: string): seq<Token> {
    if seg == "" then [] else AddChar(Tokens(seg[..|seg| - 1]), seg[|seg| - 1])
  }

  /** The tokens read so far, with the literal still being buffered. */
  function Buffered(tokens: seq<Token>, buf: string): seq<Token> {
    if buf == "" then tokens else tokens + [Literal(buf)]
  }

  lemma BufferChar(tokens: seq<Token>, buf: string, c: char)
    requires tokens != [] ==> tokens[|tokens| - 1].Star?
    requires c != '*'
    ensures AddChar(Buffered(tokens, buf), c) == Buffered(tokens, buf + [c])
  {
    if buf == "" {
      assert buf + [c] == [c];
    } else {
      assert Buffered(tokens, buf)[..|tokens|] == tokens;
    }
  }

  lemma BufferStar(tokens: seq<Token>, buf: string)
    requires tokens != [] ==> tokens[|tokens| - 1].Star?
    ensures AddChar(Buffered(tokens, buf), '*') ==
            if buf == "" && tokens != [] then tokens else Buffered(tokens, buf) + [Star]
  {
  }

  lemma TokensNext(seg: string, i: nat)
    requires i < |seg|
    ensures Tokens(seg[..i + 1]) == AddChar(Tokens(seg[..i]), seg[i])
  {
    assert seg[..i + 1][..i] == seg[..i];
  }

  // ---- What the tokens are ---------------------------------------------------------------------

  /** Literals are non-empty and star-free, and no two tokens of one kind stand side by side. */
  ghost predicate Maximal(tokens: seq<Token>) {
    && (forall i :: 0 <= i < |tokens| && tokens[i].Literal? ==> tokens[i].text != "" && '*' !in tokens[i].text)
    && (forall i, j :: 0 <= i && j == i + 1 && j < |tokens| ==> tokens[i].Star? != tokens[j].Star?)
  }

  function Spelled(tokens: seq<Token>): string {
    if tokens == [] then ""
    else
      var last := tokens[|tokens| - 1];
      Spelled(tokens[..|tokens| - 1]) + if last.Star? then ['*'] else last.text
  }

  /** A segment with each run of stars cut down to one. */
  function Collapsed(s: string): string {
    if s == "" then ""
    else
      var n := |s| - 1;
      if s[n] == '*' && n > 0 && s[n - 1] == '*' then Collapsed(s[..n]) else Collapsed(s[..n]) + [s[n]]
  }

  lemma AddCharMaximal(tokens: seq<Token>, c: char)
    requires Maximal(tokens)
    ensures Maximal(AddChar(tokens, c))
  {
  }

  lemma SpelledSnoc(tokens: seq<Token>, t: Token)
    ensures Spelled(tokens + [t]) == Spelled(tokens) + if t.Star? then ['*'] else t.text
  {
    assert (tokens + [t])[..|tokens|] == tokens;
  }

  lemma AddCharSpelled(tokens: seq<Token>, c: char)
    ensures Spelled(AddChar(tokens, c)) ==
            if c == '*' && tokens != [] && tokens[|tokens| - 1].Star? then Spelled(tokens) else Spelled(tokens) + [c]
  {
    if c != '*' && tokens != [] && tokens[|tokens| - 1].Literal? {
      var init, text := tokens[..|tokens| - 1], tokens[|tokens| - 1].text;
      SpelledSnoc(init, Literal(text + [c]));
      Associative(Spelled(init), text, [c]);
    } else {
      SpelledSnoc(tokens, if c == '*' then Star else Literal([c]));
    }
  }

  lemma EndsInStar(seg: string)
    requires seg != ""
    ensures Tokens(seg) != [] && (Tokens(seg)[|Tokens(seg)| - 1].Star? <==> seg[|seg| - 1] == '*')
  {
  }

  /** The tokens are maximal and spell the segment, but for repeated stars. */
  lemma {:induction false} TokensSpell(seg: string)
    ensures Maximal(Tokens(seg)) && Spelled(Tokens(seg)) == Collapsed(seg)
  {
    if seg != "" {
      var init, c := seg[..|seg| - 1], seg[|seg| - 1];
      TokensSpell(init);
      AddCharMaximal(Tokens(init), c);
      AddCharSpelled(Tokens(init), c);
      if init != "" { EndsInStar(init); }
    }
  }

  method TokenizeSegment(seg: string) returns (tokens: seq<Token>)
    ensures tokens == Tokens(seg)
    ensures Maximal(tokens) && Spelled(tokens) == Collapsed(seg)
  {
    TokensSpell(seg);
    tokens := [];
    var buf := "";
    for i := 0 to |seg|
      invariant Tokens(seg[..i]) == Buffered(tokens, buf)
      invariant tokens != [] ==> tokens[|tokens| - 1].Star?
    {
      TokensNext(seg, i);
      if seg[i] == '*' {
        BufferStar(tokens, buf);
        if buf != "" {
          tokens := tokens + [Literal(buf)];
          buf := "";
        }
        if tokens == [] || !tokens[|tokens| - 1].Star? {
          tokens := tokens + [Star];
        }
      } else {
        BufferChar(tokens, buf, seg[i]);
        buf := buf + [seg[i]];
      }
    }
    if buf != "" {
      tokens := tokens + [Literal(buf)];
    }
    assert seg[..|seg|] == seg;
  }

  function Literals(text: string): seq<Atom> {
    if text == "" then [] else [Lit(text[0])] + Literals(text[1..])
  }

  /** `compileSegmentRegex`. */
  function SegmentRegex(tokens: seq<Token>): seq<Atom> {
    if tokens == [] then []
    else
      var last := tokens[|tokens| - 1];
      SegmentRegex(tokens[..|tokens| - 1]) + if last.Star? then [SegStar] else Literals(last.text)
  }

  /** The tokens joined into a string, with `filler` in the place of each star. */
  function WithStars(tokens: seq<Token>, filler: string): string {
    if tokens == [] then ""
    else
      var last := tokens[|tokens| - 1];
      WithStars(tokens[..|tokens| - 1], filler) + if last.Star? then filler else last.text
  }

  function Stars(tokens: seq<Token>): nat {
    if tokens == [] then 0
    else Stars(tokens[..|tokens| - 1]) + if tokens[|tokens| - 1].Star? then 1 else 0
  }

  predicate TokenSubset(parent: seq<Token>, delegate: seq<Token>) {
    var parentRegex := SegmentRegex(parent);
    && Accepts(parentRegex, WithStars(delegate, ""))
    && Accepts(parentRegex, WithStars(delegate, "x"))
    && Stars(delegate) <= Stars(parent)
  }

  predicate IntraSegmentSubset(parent: string, delegate: string) {
    parent == delegate || TokenSubset(Tokens(parent), Tokens(delegate))
  }

  // ---- Whole patterns ------------------------------------------------------------------------

  predicate AllDoubleStars(segs: seq<string>) {
    segs == [] || (segs[0] == "**" && AllDoubleStars(segs[1..]))
  }

  predicate SegmentSubset(parent: seq<string>, delegate: seq<string>)
    decreases |parent|
  {
    if parent == [] || delegate == [] then AllDoubleStars(parent) && delegate == []
    else if parent[0] == "**" then
      |parent| == 1 || exists k :: 0 <= k <= |delegate| && SegmentSubset(parent[1..], delegate[k..])
    else
      delegate[0] != "**" && IntraSegmentSubset(parent[0], delegate[0]) && SegmentSubset(parent[1..], delegate[1..])
  }

  lemma AbsorbAnyCount(parent: seq<string>, delegate: seq<string>, i: nat, j: nat)
    requires i < |parent| - 1 && j < |delegate| && parent[i] == "**"
    ensures SegmentSubset(parent[i..], delegate[j..])
            <==> exists m :: j <= m <= |delegate| && SegmentSubset(parent[i + 1..], delegate[m..])
  {
    var p, d := parent[i..], delegate[j..];
    assert p[1..] == parent[i + 1..];
    assert forall k :: 0 <= k <= |d| ==> d[k..] == delegate[j + k..];
    assert forall m :: j <= m <= |delegate| ==> delegate[m..] == d[m - j..];
  }

  lemma AlignOne(parent: seq<string>, delegate: seq<string>, i: nat, j: nat)
    requires i < |parent| && j < |delegate| && parent[i] != "**"
    ensures SegmentSubset(parent[i..], delegate[j..])
            <==> delegate[j] != "**" && IntraSegmentSubset(parent[i], delegate[j])
                 && SegmentSubset(parent[i + 1..], delegate[j + 1..])
  {
    assert parent[i..][1..] == parent[i + 1..] && delegate[j..][1..] == delegate[j + 1..];
  }

  lemma TrailingAbsorbs(parent: seq<string>, delegate: seq<string>, i: nat, j: nat)
    requires i == |parent| - 1 && j < |delegate| && parent[i] == "**"
    ensures SegmentSubset(parent[i..], delegate[j..])
  {
    assert |parent[i..]| == 1 && parent[i..][0] == parent[i] && delegate[j..] != [];
  }

  lemma {:induction false} DoubleStarsFrom(parent: seq<string>, i: nat)
    requires i <= |parent|
    ensures AllDoubleStars(parent[i..]) <==> forall k :: i <= k < |parent| ==> parent[k] == "**"
    decreases |parent| - i
  {
    if i < |parent| {
      assert parent[i..][1..] == parent[i + 1..];
      DoubleStarsFrom(parent, i + 1);
    }
  }

  lemma OneSideEnds(parent: seq<string>, delegate: seq<string>, i: nat, j: nat)
    requires i <= |parent| && j <= |delegate| && (i == |parent| || j == |delegate|)
    ensures SegmentSubset(parent[i..], delegate[j..]) <==>
            (forall k :: i <= k < |parent| ==> parent[k] == "**") && j == |delegate|
  {
    DoubleStarsFrom(parent, i);
  }

  /** The checker's loop; it ends on every pair of segment lists. */
  method SegmentSubsetLoop(parent: seq<string>, delegate: seq<string>) returns (subset: bool)
    ensures subset == SegmentSubset(parent, delegate)
    decreases |parent|, 1
  {
    var i, j := 0, 0;
    assert parent[0..] == parent && delegate[0..] == delegate;
    while i < |parent| && j < |delegate|
      invariant i <= |parent| && j <= |delegate|
      invariant SegmentSubset(parent, delegate) == SegmentSubset(parent[i..], delegate[j..])
    {
      var p := parent[i];
      if p == "**" {
        if i == |parent| - 1 {
          TrailingAbsorbs(parent, delegate, i, j);
          return true;
        }
        AbsorbAnyCount(parent, delegate, i, j);
        subset := AnySuffixSubset(parent[i + 1..], delegate, j);
        return;
      }
      AlignOne(parent, delegate, i, j);
      if delegate[j] == "**" { return false; }
      if !IntraSegmentSubset(p, delegate[j]) { return false; }
      i, j := i + 1, j + 1;
    }
    OneSideEnds(parent, delegate, i, j);
    ghost var rest := i;
    while i < |parent| && parent[i] == "**"
      invariant rest <= i <= |parent|
      invariant forall k :: rest <= k < i ==> parent[k] == "**"
    {
      i := i + 1;
    }
    subset := i == |parent| && j == |delegate|;
  }

  /** The search over how much of the delegate a `**` absorbs. */
  method AnySuffixSubset(parent: seq<string>, delegate: seq<string>, j: nat) returns (found: bool)
    requires j <= |delegate|
    ensures found <==> exists m :: j <= m <= |delegate| && SegmentSubset(parent, delegate[m..])
    decreases |parent|, 2
  {
    found := false;
    for k := j to |delegate| + 1
      invariant forall m :: j <= m < k ==> !SegmentSubset(parent, delegate[m..])
    {
      found := SegmentSubsetLoop(parent, delegate[k..]);
      if found { return; }
    }
  }

  predicate IsRestrictedGlobRefinement(parent: string, delegate: string) {
    parent == delegate || SegmentSubset(Split(parent), Split(delegate))
  }

  // ---- The sentinel test is exact --------------------------------------------------------------

  /** Every string of `delegate` is a string of `parent`. */
  ghost predicate Included(parent: seq<Atom>, delegate: seq<Atom>) {
    forall s :: Accepts(delegate, s) ==> Accepts(parent, s)
  }

  /** A string of the expression: each star filled with `filler`. */
  function Fill(re: seq<Atom>, filler: string): string {
    if re == [] then ""
    else (if re[0].Lit? then [re[0].c] else filler) + Fill(re[1..], filler)
  }

  lemma {:induction false} FillAccepted(re: seq<Atom>, filler: string)
    requires InSegment(re) && SlashFree(filler)
    ensures Accepts(re, Fill(re, filler))
  {
    if re != [] {
      FillAccepted(re[1..], filler);
      if re[0].SegStar? {
        StarSkips(re, filler, Fill(re[1..], filler));
      }
    }
  }

  lemma {:induction false} StarSkips(re: seq<Atom>, skipped: string, s: string)
    requires re != [] && re[0].SegStar? && SlashFree(skipped) && Accepts(re[1..], s)
    ensures Accepts(re, skipped + s)
  {
    if skipped == "" {
      assert skipped + s == s;
    } else {
      StarSkips(re, skipped[1..], s);
      assert (skipped + s)[1..] == skipped[1..] + s;
    }
  }

  /** Where a character the parent never spells out was accepted, any slash-free text is. */
  lemma {:induction false} ReplaceSentinel(parent: seq<Atom>, delegate: seq<Atom>, c: char, s: string)
    requires InSegment(parent) && InSegment(delegate) && c != '/' && Lit(c) !in parent
    requires Accepts(parent, Fill(delegate, [c])) && Accepts(delegate, s)
    ensures Accepts(parent, s)
    decreases |parent| + |delegate| + |s|
  {
    if delegate != [] && parent != [] {
      var filled := Fill(delegate, [c]);
      var rest := Fill(delegate[1..], [c]);
      assert filled[1..] == rest;
      if parent[0].SegStar? && Accepts(parent[1..], filled) {
        ReplaceSentinel(parent[1..], delegate, c, s);
      } else if delegate[0].Lit? {
        ReplaceSentinel(if parent[0].Lit? then parent[1..] else parent, delegate[1..], c, s[1..]);
      } else if Accepts(delegate[1..], s) {
        ReplaceSentinel(parent, delegate[1..], c, s);
      } else {
        ReplaceSentinel(parent, delegate, c, s[1..]);
      }
    }
  }

  /** The sentinel test decides inclusion when the parent does not spell the sentinel. */
  lemma SentinelExact(parent: seq<Atom>, delegate: seq<Atom>, c: char)
    requires InSegment(parent) && InSegment(delegate) && c != '/' && Lit(c) !in parent
    ensures Accepts(parent, Fill(delegate, [c])) <==> Included(parent, delegate)
  {
    FillAccepted(delegate, [c]);
    if Accepts(parent, Fill(delegate, [c])) {
      forall s | Accepts(delegate, s)
        ensures Accepts(parent, s)
      {
        ReplaceSentinel(parent, delegate, c, s);
      }
    }
  }

  lemma LiteralsShape(text: string)
    ensures |Literals(text)| == |text| && forall i :: 0 <= i < |text| ==> Literals(text)[i] == Lit(text[i])
  {
  }

  lemma FillConcat(a: seq<Atom>, b: seq<Atom>, filler: string)
    ensures Fill(a + b, filler) == Fill(a, filler) + Fill(b, filler)
  {
    if a == [] {
      assert a + b == b;
    } else {
      assert (a + b)[1..] == a[1..] + b;
    }
  }

  lemma FillLiterals(text: string, filler: string)
    ensures Fill(Literals(text), filler) == text
  {
  }

  lemma {:induction false} WithStarsIsFill(tokens: seq<Token>, filler: string)
    ensures WithStars(tokens, filler) == Fill(SegmentRegex(tokens), filler)
  {
    if tokens != [] {
      var init, last := tokens[..|tokens| - 1], tokens[|tokens| - 1];
      WithStarsIsFill(init, filler);
      if last.Literal? {
        FillLiterals(last.text, filler);
        FillConcat(SegmentRegex(init), Literals(last.text), filler);
      } else {
        FillConcat(SegmentRegex(init), [SegStar], filler);
        assert Fill([SegStar], filler) == filler;
      }
    }
  }

  predicate TokenText(tokens: seq<Token>, c: char) {
    exists i :: 0 <= i < |tokens| && tokens[i].Literal? && c in tokens[i].text
  }

  lemma {:induction false} RegexLiterals(tokens: seq<Token>)
    ensures forall a :: a in SegmentRegex(tokens) ==> a.SegStar? || (a.Lit? && TokenText(tokens, a.c))
  {
    if tokens != [] {
      var init, last := tokens[..|tokens| - 1], tokens[|tokens| - 1];
      RegexLiterals(init);
      forall a | a in SegmentRegex(tokens)
        ensures a.SegStar? || (a.Lit? && TokenText(tokens, a.c))
      {
        if a in SegmentRegex(init) {
          if a.Lit? {
            var i :| 0 <= i < |init| && init[i].Literal? && a.c in init[i].text;
            assert tokens[i] == init[i];
          }
        } else if last.Literal? {
          LiteralsShape(last.text);
        }
      }
    }
  }

  predicate SlashFreeTokens(tokens: seq<Token>) {
    !TokenText(tokens, '/')
  }

  /**
   When the parent's literals do not contain `x`, the token test is language inclusion plus the
   star-count bound.
   */
  lemma TokenSubsetIsInclusion(parent: seq<Token>, delegate: seq<Token>)
    requires SlashFreeTokens(parent) && SlashFreeTokens(delegate) && !TokenText(parent, 'x')
    ensures TokenSubset(parent, delegate)
            <==> Included(SegmentRegex(parent), SegmentRegex(delegate)) && Stars(delegate) <= Stars(parent)
  {
    RegexLiterals(parent);
    RegexLiterals(delegate);
    var p, d := SegmentRegex(parent), SegmentRegex(delegate);
    WithStarsIsFill(delegate, "x");
    WithStarsIsFill(delegate, "");
    SentinelExact(p, d, 'x');
    FillAccepted(d, "");
  }

  /** Under the same proviso the literals-only test adds nothing to the sentinel test. */
  lemma LiteralTestRedundant(parent: seq<Token>, delegate: seq<Token>)
    requires SlashFreeTokens(parent) && SlashFreeTokens(delegate) && !TokenText(parent, 'x')
    requires Accepts(SegmentRegex(parent), WithStars(delegate, "x"))
    ensures Accepts(SegmentRegex(parent), WithStars(delegate, ""))
  {
    RegexLiterals(parent);
    RegexLiterals(delegate);
    WithStarsIsFill(delegate, "x");
    WithStarsIsFill(delegate, "");
    SentinelExact(SegmentRegex(parent), SegmentRegex(delegate), 'x');
    FillAccepted(SegmentRegex(delegate), "");
  }

  // ---- The checker's tokens and the evaluator's atoms --------------------------------------------

  lemma LiteralsSnoc(text: string, c: char)
    ensures Literals(text + [c]) == Literals(text) + [Lit(c)]
  {
    if text != "" {
      assert (text + [c])[1..] == text[1..] + [c];
    } else {
      assert text + [c] == [c];
    }
  }

  lemma SnocRegex(tokens: seq<Token>, t: Token)
    ensures SegmentRegex(tokens + [t]) == SegmentRegex(tokens) + if t.Star? then [SegStar] else Literals(t.text)
  {
    assert (tokens + [t])[..|tokens|] == tokens;
  }

  lemma ExtendLiteral(init: seq<Token>, text: string, c: char)
    ensures SegmentRegex(init + [Literal(text + [c])]) == SegmentRegex(init + [Literal(text)]) + [Lit(c)]
  {
    var re, lits := SegmentRegex(init), Literals(text);
    calc {
      SegmentRegex(init + [Literal(text + [c])]);
      { SnocRegex(init, Literal(text + [c])); }
      re + Literals(text + [c]);
      { LiteralsSnoc(text, c); }
      re + (lits + [Lit(c)]);
      (re + lits) + [Lit(c)];
      { SnocRegex(init, Literal(text)); }
      SegmentRegex(init + [Literal(text)]) + [Lit(c)];
    }
  }

  lemma AddLiteralRegex(tokens: seq<Token>, c: char)
    requires c != '*'
    ensures SegmentRegex(AddChar(tokens, c)) == SegmentRegex(tokens) + [Lit(c)]
  {
    var n := |tokens|;
    if n > 0 && tokens[n - 1].Literal? {
      assert tokens == tokens[..n - 1] + [Literal(tokens[n - 1].text)];
      ExtendLiteral(tokens[..n - 1], tokens[n - 1].text, c);
    } else {
      SnocRegex(tokens, Literal([c]));
      assert Literals([c]) == [Lit(c)];
    }
  }

  /** One more character adds its atom, unless it is a star that a star already stands before. */
  lemma AddCharRegex(tokens: seq<Token>, c: char)
    requires c != NUL && !(c == '*' && tokens != [] && tokens[|tokens| - 1].Star?)
    ensures SegmentRegex(AddChar(tokens, c)) == SegmentRegex(tokens) + [AtomOf(c)]
  {
    if c == '*' {
      SnocRegex(tokens, Star);
    } else {
      AddLiteralRegex(tokens, c);
    }
  }

  lemma {:induction false} SingleStarsSnoc(seg: string)
    requires seg != "" && SingleStars(seg)
    ensures SingleStars(seg[..|seg| - 1])
    ensures |seg| >= 2 ==> !(seg[|seg| - 2] == '*' && seg[|seg| - 1] == '*')
  {
    if |seg| > 2 {
      assert seg[1..][..|seg| - 2] == seg[..|seg| - 1][1..];
      SingleStarsSnoc(seg[1..]);
    }
  }

  lemma AtomsSnoc(init: string, c: char)
    ensures AtomsOf(init + [c]) == AtomsOf(init) + [AtomOf(c)]
  {
    AtomsOfConcat(init, [c]);
    assert [c][1..] == "";
  }

  /** On a segment without adjacent stars the checker and the evaluator build the same expression. */
  lemma {:induction false} TokensAgree(seg: string)
    requires SingleStars(seg) && NUL !in seg
    ensures SegmentRegex(Tokens(seg)) == AtomsOf(seg)
  {
    if seg != "" {
      var init, c := seg[..|seg| - 1], seg[|seg| - 1];
      SingleStarsSnoc(seg);
      TokensAgree(init);
      TokenAdded(init, c);
      assert seg == init + [c];
    }
  }

  lemma TokenAdded(init: string, c: char)
    requires c != NUL && (init != "" && c == '*' ==> init[|init| - 1] != '*')
    requires SegmentRegex(Tokens(init)) == AtomsOf(init)
    ensures SegmentRegex(AddChar(Tokens(init), c)) == AtomsOf(init + [c])
  {
    if init != "" {
      EndsInStar(init);
    }
    AddCharRegex(Tokens(init), c);
    AtomsSnoc(init, c);
  }
}
