/**
 When one glob of whole-segment `**` includes another, any number of `**` in either: exactly when
 it matches finitely many samples of it, each `**` filled with every small number of segments.
 */
module GlobRuns {
  import opened Common
  import opened Glob
  import opened GlobRefinement
  import opened GlobSoundness

  function Copies(c: char, k: nat): (segs: seq<string>)
    ensures |segs| == k && forall i :: 0 <= i < k ==> segs[i] == [c]
  {
    seq(k, _ => [c])
  }

  /** The number of segments that take exactly one. */
  function Singles(segs: seq<string>): nat {
    if segs == [] then 0 else (if segs[0] == "**" then 0 else 1) + Singles(segs[1..])
  }

  /** The delegate's segments with `c` at each star, and `runs[i]` segments `c` for its i-th `**`. */
  function RunSample(segs: seq<string>, c: char, runs: seq<nat>): seq<string>
    requires |runs| == CountDoubleStars(segs)
  {
    if segs == [] then []
    else if segs[0] == "**" then Copies(c, runs[0]) + RunSample(segs[1..], c, runs[1..])
    else [FillStars(segs[0], c)] + RunSample(segs[1..], c, runs)
  }

  /** One length from 1 to `most` for each `**`. */
  predicate ValidRuns(segs: seq<string>, runs: seq<nat>, most: nat) {
    |runs| == CountDoubleStars(segs) && forall i :: 0 <= i < |runs| ==> 1 <= runs[i] <= most
  }

  // ---- A sample and a text, side by side ---------------------------------------------------------

  /** A delegate segment with its text, or a `**` with its run in the sample and in the text. */
  datatype Block = One(d: string, t: string) | Run(k: nat, ts: seq<string>)

  function Sampled(bs: seq<Block>, c: char): seq<string> {
    if bs == [] then []
    else (match bs[0] case One(d, _) => [FillStars(d, c)] case Run(k, _) => Copies(c, k)) + Sampled(bs[1..], c)
  }

  function Texts(bs: seq<Block>): seq<string> {
    if bs == [] then []
    else (match bs[0] case One(_, t) => [t] case Run(_, ts) => ts) + Texts(bs[1..])
  }

  /** A shortened run is still longer than the number `n` of single segments left to cover it. */
  predicate Fair(b: Block, n: nat) {
    match b
    case One(d, t) => SlashFree(d) && NUL !in d && SlashFree(t) && Accepts(AtomsOf(d), t)
    case Run(k, ts) => Segments(ts) && (k == |ts| || n < k < |ts|)
  }

  predicate AllFair(bs: seq<Block>, n: nat) {
    forall i :: 0 <= i < |bs| ==> Fair(bs[i], n)
  }

  lemma FairTail(bs: seq<Block>, n: nat, less: nat)
    requires bs != [] && AllFair(bs, n) && less <= n
    ensures Fair(bs[0], n) && AllFair(bs[1..], less) && AllFair(bs, less)
  {
    forall i | 0 <= i < |bs|
      ensures Fair(bs[i], less)
    {
      assert Fair(bs[i], n);
    }
  }

  lemma ForeignOnly(p: string, c: char, t: string)
    requires SlashFree(p) && NUL !in p && c != '/' && c !in p && Accepts(AtomsOf(p), [c]) && SlashFree(t)
    ensures Accepts(AtomsOf(p), t)
  {
    var star := ['*'];
    assert star[1..] == "" && FillStars(star, c) == [c];
    PairExact(p, star, c);
    assert AtomsOf(star) == [SegStar];
    StarTakesAll(t);
  }

  lemma {:induction false} StarTakesAll(t: string)
    requires SlashFree(t)
    ensures Accepts([SegStar], t)
  {
    if t != "" {
      StarTakesAll(t[1..]);
    } else {
      assert [SegStar][1..] == [];
    }
  }

  lemma {:induction false} Absorbs(p: seq<string>, segs: seq<string>, m: nat)
    requires p != [] && p[0] == "**" && 1 <= m <= |segs|
    requires MatchSegments(p[1..], segs[m..]) || MatchSegments(p, segs[m..])
    ensures MatchSegments(p, segs)
    decreases m
  {
    if m > 1 {
      assert segs[1..][m - 1..] == segs[m..];
      Absorbs(p, segs[1..], m - 1);
    }
  }

  /** The blocks with one segment of the first run taken from the sample and `j` from the text. */
  function Taken(bs: seq<Block>, j: nat): seq<Block>
    requires bs != [] && bs[0].Run? && bs[0].k > 0 && j <= |bs[0].ts|
  {
    [Run(bs[0].k - 1, bs[0].ts[j..])] + bs[1..]
  }

  lemma TakenParts(bs: seq<Block>, j: nat, c: char)
    requires bs != [] && bs[0].Run? && bs[0].k > 0 && j <= |bs[0].ts|
    ensures Sampled(bs, c) != [] && Sampled(bs, c)[0] == [c] && Sampled(bs, c)[1..] == Sampled(Taken(bs, j), c)
    ensures j <= |Texts(bs)| && Texts(bs)[j..] == Texts(Taken(bs, j)) && (j > 0 ==> Texts(bs)[0] == bs[0].ts[0])
  {
    var run, rest := bs[0], bs[1..];
    assert Taken(bs, j)[1..] == rest;
    assert Copies(c, run.k) == [[c]] + Copies(c, run.k - 1);
    Associative([[c]], Copies(c, run.k - 1), Sampled(rest, c));
    assert (run.ts + Texts(rest))[j..] == run.ts[j..] + Texts(rest);
  }

  lemma TakenFair(bs: seq<Block>, j: nat, n: nat, less: nat)
    requires bs != [] && bs[0].Run? && bs[0].k > 0 && AllFair(bs, n) && 1 <= j <= |bs[0].ts|
    requires |bs[0].ts| - j == bs[0].k - 1 || (j == 1 && less == n - 1)
    requires less <= n
    ensures AllFair(Taken(bs, j), less)
  {
    FairTail(bs, n, less);
    assert Fair(Run(bs[0].k - 1, bs[0].ts[j..]), less);
  }

  /** A parent that matches the sample matches the text: a longer run has a `**` over it to stretch. */
  lemma {:induction false} Stretch(p: seq<string>, bs: seq<Block>, c: char)
    requires Segments(p) && WholeStars(p) && c != '/' && !Spells(p, c)
    requires AllFair(bs, Singles(p)) && MatchSegments(p, Sampled(bs, c))
    ensures MatchSegments(p, Texts(bs))
    decreases |p| + |Texts(bs)| + |bs|
  {
    if bs != [] {
      FairTail(bs, Singles(p), Singles(p));
      if bs[0].Run? && bs[0].k == 0 {
        assert Copies(c, 0) + Sampled(bs[1..], c) == Sampled(bs[1..], c) && [] + Texts(bs[1..]) == Texts(bs[1..]);
        Stretch(p, bs[1..], c);
      } else if p != [] {
        assert forall i :: 0 <= i < |p[1..]| ==> p[1..][i] == p[i + 1];
        if bs[0].One? {
          StretchOne(p, bs, c);
        } else {
          StretchRun(p, bs, c);
        }
      }
    }
  }

  lemma {:induction false} StretchOne(p: seq<string>, bs: seq<Block>, c: char)
    requires Segments(p) && WholeStars(p) && c != '/' && !Spells(p, c) && p != []
    requires bs != [] && bs[0].One? && AllFair(bs, Singles(p)) && MatchSegments(p, Sampled(bs, c))
    ensures MatchSegments(p, Texts(bs))
    decreases |p| + |Texts(bs)| + |bs|, 0
  {
    var rest := bs[1..];
    assert Sampled(bs, c)[1..] == Sampled(rest, c) && Texts(bs)[1..] == Texts(rest);
    FairTail(bs, Singles(p), Singles(p[1..]));
    FairTail(bs, Singles(p), Singles(p));
    if p[0] == "**" {
      if MatchSegments(p[1..], Sampled(rest, c)) { Stretch(p[1..], rest, c); } else { Stretch(p, rest, c); }
    } else {
      PairExact(p[0], bs[0].d, c);
      Stretch(p[1..], rest, c);
    }
  }

  lemma {:induction false} StretchRun(p: seq<string>, bs: seq<Block>, c: char)
    requires Segments(p) && WholeStars(p) && c != '/' && !Spells(p, c) && p != []
    requires bs != [] && bs[0].Run? && bs[0].k > 0 && AllFair(bs, Singles(p)) && MatchSegments(p, Sampled(bs, c))
    ensures MatchSegments(p, Texts(bs))
    decreases |p| + |Texts(bs)| + |bs|, 0
  {
    FairTail(bs, Singles(p), Singles(p));
    if p[0] == "**" {
      var j := |bs[0].ts| - bs[0].k + 1;
      TakenParts(bs, j, c);
      TakenFair(bs, j, Singles(p), Singles(p));
      Stretch(if MatchSegments(p[1..], Sampled(Taken(bs, j), c)) then p[1..] else p, Taken(bs, j), c);
      Absorbs(p, Texts(bs), j);
    } else {
      TakenParts(bs, 1, c);
      TakenFair(bs, 1, Singles(p), Singles(p[1..]));
      ForeignOnly(p[0], c, bs[0].ts[0]);
      Stretch(p[1..], Taken(bs, 1), c);
    }
  }

  // ---- Cutting a text along the delegate ----------------------------------------------------------

  lemma RunAdded(ts: seq<string>, k: nat, rest: seq<Block>, c: char, n: nat)
    requires AllFair(rest, n) && Fair(Run(k, ts), n)
    ensures
      var bs := [Run(k, ts)] + rest;
      AllFair(bs, n) && Texts(bs) == ts + Texts(rest) && Sampled(bs, c) == Copies(c, k) + Sampled(rest, c)
  {
    assert ([Run(k, ts)] + rest)[1..] == rest;
  }

  lemma OneAdded(d: string, t: string, rest: seq<Block>, c: char, n: nat)
    requires AllFair(rest, n) && Fair(One(d, t), n)
    ensures
      var bs := [One(d, t)] + rest;
      AllFair(bs, n) && Texts(bs) == [t] + Texts(rest) && Sampled(bs, c) == [FillStars(d, c)] + Sampled(rest, c)
  {
    assert ([One(d, t)] + rest)[1..] == rest;
  }

  /** The blocks of a text the delegate matches, each run shortened to at most `n + 1`, and the sample they give. */
  lemma {:induction false} Cut(d: seq<string>, segs: seq<string>, c: char, n: nat)
    returns (bs: seq<Block>, runs: seq<nat>)
    requires Segments(d) && WholeStars(d) && Segments(segs) && MatchSegments(d, segs)
    ensures AllFair(bs, n) && Texts(bs) == segs && ValidRuns(d, runs, n + 1) && Sampled(bs, c) == RunSample(d, c, runs)
  {
    if d == [] {
      bs, runs := [], [];
    } else {
      assert forall i :: 0 <= i < |d[1..]| ==> d[1..][i] == d[i + 1];
      if d[0] == "**" {
        assert d == ["**"] + d[1..];
        var m := MatchAfterDoubleStar(d[1..], segs);
        var rest, more := Cut(d[1..], segs[m..], c, n);
        var k := if m <= n then m else n + 1;
        RunAdded(segs[..m], k, rest, c, n);
        bs, runs := [Run(k, segs[..m])] + rest, [k] + more;
      } else {
        var rest, more := Cut(d[1..], segs[1..], c, n);
        OneAdded(d[0], segs[0], rest, c, n);
        bs, runs := [One(d[0], segs[0])] + rest, more;
      }
    }
  }

  lemma {:induction false} RunMatches(rest: seq<string>, segs: seq<string>, c: char, k: nat)
    requires k > 0 && MatchSegments(rest, segs)
    ensures MatchSegments(["**"] + rest, Copies(c, k) + segs)
  {
    var p := ["**"] + rest;
    assert p[1..] == rest && (Copies(c, k) + segs)[k..] == segs;
    Absorbs(p, Copies(c, k) + segs, k);
  }

  lemma FillSlashFree(seg: string, c: char)
    requires SlashFree(seg) && c != '/'
    ensures SlashFree(FillStars(seg, c))
  {
    FillStarsAt(seg, c);
  }

  /** A character of one of two lists of segments. */
  lemma SpellsEither(a: seq<string>, b: seq<string>, x: char)
    ensures Spells(a + b, x) <==> Spells(a, x) || Spells(b, x)
  {
    var all := a + b;
    if i :| 0 <= i < |a| && x in a[i] { assert x in all[i]; }
    if i :| 0 <= i < |b| && x in b[i] { assert x in all[|a| + i]; }
    if i :| 0 <= i < |all| && x in all[i] {
      if i >= |a| { assert x in b[i - |a|]; }
    }
  }

  /** A sample spells nothing but the delegate's characters and the foreign one. */
  lemma {:induction false} RunSampleSpells(d: seq<string>, c: char, runs: seq<nat>, x: char)
    requires |runs| == CountDoubleStars(d) && Spells(RunSample(d, c, runs), x) && x != c
    ensures Spells(d, x)
  {
    if d != [] {
      SpellsEither([d[0]], d[1..], x);
      assert d == [d[0]] + d[1..];
      if d[0] == "**" {
        SpellsEither(Copies(c, runs[0]), RunSample(d[1..], c, runs[1..]), x);
        RunSampleSpells(d[1..], c, runs[1..], x);
      } else {
        SpellsEither([FillStars(d[0], c)], RunSample(d[1..], c, runs), x);
        if Spells([FillStars(d[0], c)], x) {
          FillStarsAt(d[0], c);
          assert x in d[0] && [d[0]][0] == d[0];
        } else {
          RunSampleSpells(d[1..], c, runs, x);
        }
      }
    }
  }

  /** The delegate matches its samples. */
  lemma {:induction false} RunSampleMatches(d: seq<string>, c: char, runs: seq<nat>, most: nat)
    requires Segments(d) && WholeStars(d) && c != '/' && ValidRuns(d, runs, most)
    ensures MatchSegments(d, RunSample(d, c, runs)) && Segments(RunSample(d, c, runs))
  {
    if d != [] {
      assert forall i :: 0 <= i < |d[1..]| ==> d[1..][i] == d[i + 1];
      if d[0] == "**" {
        assert d == ["**"] + d[1..];
        RunSampleMatches(d[1..], c, runs[1..], most);
        RunMatches(d[1..], RunSample(d[1..], c, runs[1..]), c, runs[0]);
      } else {
        RunSampleMatches(d[1..], c, runs, most);
        FillStarsIsFill(d[0], c);
        FillSlashFree(d[0], c);
        SegmentAtoms(d[0]);
        FillAccepted(AtomsOf(d[0]), [c]);
      }
    }
  }

  // ---- The main result ----------------------------------------------------------------------------

  /** The parent matches each sample of the delegate whose runs are no longer than its single segments and one. */
  ghost predicate MatchesSamples(p: seq<string>, d: seq<string>, c: char) {
    forall runs :: ValidRuns(d, runs, Singles(p) + 1) ==> MatchSegments(p, RunSample(d, c, runs))
  }

  lemma SamplesSuffice(p: seq<string>, d: seq<string>, c: char, segs: seq<string>)
    requires Segments(p) && WholeStars(p) && Segments(d) && WholeStars(d) && Segments(segs)
    requires c != '/' && !Spells(p, c) && MatchesSamples(p, d, c) && MatchSegments(d, segs)
    ensures MatchSegments(p, segs)
  {
    var bs, runs := Cut(d, segs, c, Singles(p));
    Stretch(p, bs, c);
  }

  lemma SampleIsText(p: string, d: string, c: char, runs: seq<nat>)
    requires WholeStars(Split(p)) && WholeStars(Split(d)) && Narrower(p, d) && OneLine(d)
    requires c != '/' && !LineTerminator(c) && ValidRuns(Split(d), runs, Singles(Split(p)) + 1)
    ensures MatchSegments(Split(p), RunSample(Split(d), c, runs))
  {
    var segs := RunSample(Split(d), c, runs);
    RunSampleMatches(Split(d), c, runs, Singles(Split(p)) + 1);
    assert segs != [];
    var s := Join(segs);
    JoinInjective(Split(s), segs);
    forall x | Spells(segs, x) && x != c
      ensures Spells(Split(d), x)
    {
      RunSampleSpells(Split(d), c, runs, x);
    }
    JoinOneLineChars(segs, d, c);
    EvaluatorMatchesBySegments(d, s);
    EvaluatorMatchesBySegments(p, s);
  }

  /**
   For patterns in which `**` is always a whole segment: the parent's expression includes the delegate's
   exactly when it matches those finitely many samples, `c` being any character foreign to it.
   */
  lemma WholeStarsSoundExactly(parent: string, delegate: string, c: char)
    requires WholeStars(Split(parent)) && WholeStars(Split(delegate)) && OneLine(delegate)
    requires c !in parent && c != '/' && !LineTerminator(c)
    ensures Narrower(parent, delegate) <==> MatchesSamples(Split(parent), Split(delegate), c)
  {
    var p, d := Split(parent), Split(delegate);
    SegmentChars(parent, c);
    if Narrower(parent, delegate) {
      forall runs | ValidRuns(d, runs, Singles(p) + 1)
        ensures MatchSegments(p, RunSample(d, c, runs))
      {
        SampleIsText(parent, delegate, c, runs);
      }
    }
    if MatchesSamples(p, d, c) {
      forall s | OneLine(s) && Accepts(Compile(delegate), s)
        ensures Accepts(Compile(parent), s)
      {
        EvaluatorMatchesBySegments(delegate, s);
        EvaluatorMatchesBySegments(parent, s);
        SamplesSuffice(p, d, c, Split(s));
      }
    }
  }

  lemma {:induction false} SpelledByJoin(segs: seq<string>, x: char)
    requires x in Join(segs)
    ensures x == '/' || Spells(segs, x)
  {
    if |segs| > 1 && x !in segs[0] && x != '/' {
      assert x in segs[0] + "/" + Join(segs[1..]);
      SpelledByJoin(segs[1..], x);
      var i :| 0 <= i < |segs[1..]| && x in segs[1..][i];
      assert x in segs[i + 1];
    } else if segs != [] && x != '/' {
      assert x in segs[0];
    }
  }

  lemma JoinOneLineChars(segs: seq<string>, d: string, c: char)
    requires OneLine(d) && !LineTerminator(c) && forall x :: Spells(segs, x) ==> x == c || Spells(Split(d), x)
    ensures OneLine(Join(segs))
  {
    forall x | x in Join(segs)
      ensures !LineTerminator(x)
    {
      SpelledByJoin(segs, x);
      if Spells(Split(d), x) { JoinChars(Split(d), x); }
    }
  }

  // ---- One sample is not enough -----------------------------------------------------------------

  lemma PlainAccepts(seg: string, t: string)
    requires PlainText(seg)
    ensures Accepts(AtomsOf(seg), t) <==> t == seg
  {
    AcceptsPlain(seg, [], "");
    assert AtomsOf(seg) + [] == AtomsOf(seg) && seg + "" == seg;
    if Accepts(AtomsOf(seg), t) { StarlessAccepts(seg, t); }
  }

  /** The parent pattern of the example: any segments, `b`, one segment, `b`, any segments. */
  function Around(b: string): seq<string> {
    ["**", b, "*", b, "**"]
  }

  lemma AroundParts(b: string)
    ensures
      var p := Around(b);
      p[1..] == [b, "*", b, "**"] && p[1..][1..] == ["*", b, "**"] && p[1..][1..][1..] == [b, "**"] &&
        p[1..][1..][1..][1..] == ["**"]
  {
  }

  /** Where the middle of the pattern can stand: `b`, any segment, `b`, and something after. */
  predicate MiddleAt(segs: seq<string>, b: string, i: nat) {
    i + 3 < |segs| && segs[i] == b && segs[i + 2] == b
  }

  lemma OneSegment(p: seq<string>, segs: seq<string>)
    requires p != [] && p[0] != "**"
    ensures MatchSegments(p, segs) <==>
            (segs != [] && Accepts(AtomsOf(p[0]), segs[0]) && MatchSegments(p[1..], segs[1..]))
  {
  }

  lemma StarAccepts(t: string)
    requires SlashFree(t)
    ensures Accepts(AtomsOf("*"), t)
  {
    StarTakesAll(t);
    assert AtomsOf("*") == [SegStar] by {
      assert "*"[1..] == "";
    }
  }

  lemma MiddleMatches(b: string, segs: seq<string>)
    requires PlainText(b) && Segments(segs)
    ensures MatchSegments(Around(b)[1..], segs) <==> MiddleAt(segs, b, 0)
  {
    AroundParts(b);
    PlainSegment(b);
    OneSegment(Around(b)[1..], segs);
    if segs != [] {
      PlainAccepts(b, segs[0]);
      OneSegment(["*", b, "**"], segs[1..]);
      if |segs| > 1 {
        StarAccepts(segs[1]);
        var rest := segs[2..];
        assert segs[1..][1..] == rest;
        OneSegment([b, "**"], rest);
        if rest != [] {
          PlainAccepts(b, rest[0]);
          MatchAllSegments(rest[1..]);
        }
      }
    }
  }

  lemma {:induction false} AroundMatches(b: string, segs: seq<string>)
    requires PlainText(b) && Segments(segs)
    ensures MatchSegments(Around(b), segs) <==> exists i :: 1 <= i < |segs| && MiddleAt(segs, b, i)
    decreases |segs|
  {
    if segs != [] {
      var rest := segs[1..];
      MiddleMatches(b, rest);
      AroundMatches(b, rest);
      assert MiddleAt(rest, b, 0) <==> MiddleAt(segs, b, 1);
      if i :| 1 <= i < |rest| && MiddleAt(rest, b, i) { assert MiddleAt(segs, b, i + 1); }
      if i :| 1 <= i < |segs| && MiddleAt(segs, b, i) && i > 1 { assert MiddleAt(rest, b, i - 1); }
    }
  }

  /** The delegate of the example, and the text it matches with two segments for its `**`. */
  function Inner(x: string, b: string, c: string): seq<string> {
    [x, b, "**", b, c, b]
  }

  lemma OneAligned(p: seq<string>, d: seq<string>)
    requires p != [] && d != [] && p[0] != "**" && d[0] != "**"
    requires IntraSegmentSubset(p[0], d[0]) && SegmentSubset(p[1..], d[1..])
    ensures SegmentSubset(p, d)
  {
  }

  lemma StarCovers(c: string)
    requires PlainText(c)
    ensures IntraSegmentSubset("*", c)
  {
    StarlessSegment("*", c);
    assert SegmentRegex(Tokens("*")) == [SegStar];
    StarTakesAll(c);
  }

  lemma InnerAccepted(x: string, b: string, c: string)
    requires PlainText(x) && PlainText(b) && PlainText(c)
    ensures SegmentSubset(Around(b), Inner(x, b, c))
  {
    PlainSegment(b);
    PlainSegment(c);
    StarCovers(c);
    assert [b][1..] == [] && [b, "**"][1..] == ["**"] && AllDoubleStars(["**"]);
    OneAligned([b, "**"], [b]);
    assert [c, b][1..] == [b] && ["*", b, "**"][1..] == [b, "**"];
    OneAligned(["*", b, "**"], [c, b]);
    AroundParts(b);
    assert [b, c, b][1..] == [c, b];
    OneAligned(Around(b)[1..], [b, c, b]);
    assert Inner(x, b, c)[3..] == [b, c, b];
  }

  lemma PlainMatchesItself(segs: seq<string>)
    requires forall i :: 0 <= i < |segs| ==> PlainText(segs[i])
    ensures MatchSegments(segs, segs)
  {
    if segs != [] {
      PlainSegment(segs[0]);
      PlainAccepts(segs[0], segs[0]);
      PlainMatchesItself(segs[1..]);
    }
  }

  lemma InnerMatches(x: string, b: string, c: string, u: string, v: string)
    requires PlainText(x) && PlainText(b) && PlainText(c)
    ensures MatchSegments(Inner(x, b, c), [x, b, u, v, b, c, b])
  {
    var tail := [b, c, b];
    PlainMatchesItself(tail);
    assert ["**", b, c, b][1..] == tail && [u, v, b, c, b][2..] == tail;
    Absorbs(["**", b, c, b], [u, v, b, c, b], 2);
    PlainSegment(x);
    PlainSegment(b);
    PlainAccepts(x, x);
    PlainAccepts(b, b);
    assert Inner(x, b, c)[1..][1..] == ["**", b, c, b] && [x, b, u, v, b, c, b][1..][1..] == [u, v, b, c, b];
    OneSegment(Inner(x, b, c)[1..], [x, b, u, v, b, c, b][1..]);
  }

  predicate Simple(seg: string) {
    seg == "**" || seg == "*" || PlainText(seg)
  }

  lemma SimpleSegment(seg: string)
    requires Simple(seg)
    ensures SlashFree(seg) && WholeStarSegment(seg) && NUL !in seg && OneLine(seg)
  {
    if PlainText(seg) { PlainSegment(seg); }
  }

  lemma SimplePattern(segs: seq<string>)
    requires segs != [] && forall i :: 0 <= i < |segs| ==> Simple(segs[i])
    ensures Segments(segs) && WholeStars(segs) && Split(Join(segs)) == segs && OneLine(Join(segs))
  {
    forall i | 0 <= i < |segs|
      ensures SlashFree(segs[i]) && WholeStarSegment(segs[i]) && NUL !in segs[i] && OneLine(segs[i])
    {
      SimpleSegment(segs[i]);
    }
    JoinInjective(Split(Join(segs)), segs);
    forall x | x in Join(segs)
      ensures !LineTerminator(x)
    {
      SpelledByJoin(segs, x);
    }
  }

  lemma InnerSampleMatches(x: string, b: string, c: string, f: char)
    requires PlainText(x) && PlainText(b) && PlainText(c) && f != '/' && !LineTerminator(f)
    ensures Accepts(Compile(Join(Around(b))), FillStars(Join(Inner(x, b, c)), f))
  {
    SimplePattern(Around(b));
    SimplePattern(Inner(x, b, c));
    SampleText(Join(Inner(x, b, c)), f);
    var sample := Sample(Inner(x, b, c), f);
    SampleSegments(Inner(x, b, c), f);
    StarlessFill(b, f);
    AroundMatches(b, sample);
    assert MiddleAt(sample, b, 1);
    EvaluatorMatchesBySegments(Join(Around(b)), FillStars(Join(Inner(x, b, c)), f));
  }

  lemma InnerMissed(x: string, b: string, c: string, u: string, v: string)
    requires PlainText(b) && Segments([x, b, u, v, b, c, b]) && u != b && v != b
    ensures !MatchSegments(Around(b), [x, b, u, v, b, c, b])
  {
    var text := [x, b, u, v, b, c, b];
    AroundMatches(b, text);
    forall i | 1 <= i < |text|
      ensures !MiddleAt(text, b, i)
    {
      if i + 3 < |text| { assert i == 1 || i == 2 || i == 3; }
    }
  }

  lemma InnerWidens(x: string, b: string, c: string, u: string, v: string)
    requires PlainText(x) && PlainText(b) && PlainText(c) && PlainText(u) && PlainText(v) && u != b && v != b
    ensures !Narrower(Join(Around(b)), Join(Inner(x, b, c)))
  {
    var text := [x, b, u, v, b, c, b];
    SimplePattern(Around(b));
    SimplePattern(Inner(x, b, c));
    SimplePattern(text);
    InnerMatches(x, b, c, u, v);
    InnerMissed(x, b, c, u, v);
    EvaluatorMatchesBySegments(Join(Around(b)), Join(text));
    EvaluatorMatchesBySegments(Join(Inner(x, b, c)), Join(text));
  }

  /**
   With `**` twice in the parent and in the delegate one sample decides nothing: this pair is accepted,
   the parent matches the delegate with one letter at its stars, and still the delegate matches more.
   */
  lemma OneSampleIsNotEnough(x: string, b: string, c: string, u: string, v: string, f: char)
    requires PlainText(x) && PlainText(b) && PlainText(c) && PlainText(u) && PlainText(v) && u != b && v != b
    requires f != '/' && !LineTerminator(f)
    ensures IsRestrictedGlobRefinement(Join(Around(b)), Join(Inner(x, b, c)))
    ensures Accepts(Compile(Join(Around(b))), FillStars(Join(Inner(x, b, c)), f))
    ensures !Narrower(Join(Around(b)), Join(Inner(x, b, c)))
  {
    SimplePattern(Around(b));
    SimplePattern(Inner(x, b, c));
    InnerAccepted(x, b, c);
    InnerSampleMatches(x, b, c, f);
    InnerWidens(x, b, c, u, v);
  }
}
