/**
 What the evaluator makes of a restricted glob, atom by atom: which atoms a pattern is rewritten into, and
 which texts each of them and their sequence match.
 */
module GlobLaws {
  import opened Common
  import opened Glob

  // ---- What an expression matches ------------------------------------------------------------------

  /** `[^/]*` matches the texts without a slash, and `.*` those without a line terminator. */
  lemma {:induction false} StarMatches(s: string)
    ensures Accepts([SegStar], s) <==> forall i :: 0 <= i < |s| ==> s[i] != '/'
    decreases |s|
  {
    assert [SegStar][1..] == [];
    if s != "" {
      StarMatches(s[1..]);
      assert forall i :: 0 < i < |s| ==> s[i] == s[1..][i - 1];
    }
  }

  predicate BreaksLine(c: char) {
    c as int in {0x0A, 0x0D, 0x2028, 0x2029}
  }

  lemma {:induction false} DotStarMatches(s: string)
    ensures Accepts([DotStar], s) <==> forall i :: 0 <= i < |s| ==> !BreaksLine(s[i])
    decreases |s|
  {
    assert [DotStar][1..] == [];
    if s != "" {
      DotStarMatches(s[1..]);
      assert forall i :: 0 < i < |s| ==> s[i] == s[1..][i - 1];
    }
  }

  lemma LiteralMatches(c: char, s: string)
    ensures Accepts([Lit(c)], s) <==> s == [c]
  {
    assert [Lit(c)][1..] == [];
  }

  /** The text can be cut so that one expression matches what is before the cut and the other what is after. */
  predicate CutAt(a: seq<Atom>, b: seq<Atom>, s: string, k: nat) {
    k <= |s| && Accepts(a, s[..k]) && Accepts(b, s[k..])
  }

  ghost predicate InTwo(a: seq<Atom>, b: seq<Atom>, s: string) {
    exists k :: CutAt(a, b, s, k)
  }

  lemma CutLater(a: seq<Atom>, b: seq<Atom>, s: string, k: nat)
    requires s != "" && k < |s|
    ensures s[1..][..k] == s[..k + 1][1..] && s[1..][k..] == s[k + 1..]
    ensures s[..k + 1] == [s[0]] + s[1..][..k]
  {
  }

  lemma Empty(a: seq<Atom>, b: seq<Atom>, s: string)
    requires a == []
    ensures a + b == b && (InTwo(a, b, s) <==> Accepts(b, s))
  {
    assert a + b == b;
    assert s[..0] == "" && s[0..] == s;
    if Accepts(b, s) { assert CutAt(a, b, s, 0); }
  }

  lemma LiteralFirst(a: seq<Atom>, b: seq<Atom>, s: string)
    requires a != [] && a[0].Lit?
    ensures InTwo(a, b, s) <==> s != "" && s[0] == a[0].c && InTwo(a[1..], b, s[1..])
  {
    if k: nat :| CutAt(a, b, s, k) {
      CutLater(a, b, s, k - 1);
      assert CutAt(a[1..], b, s[1..], k - 1);
    }
    if s != "" && s[0] == a[0].c && InTwo(a[1..], b, s[1..]) {
      var k: nat :| CutAt(a[1..], b, s[1..], k);
      CutLater(a, b, s, k);
      assert CutAt(a, b, s, k + 1);
    }
  }

  /** Whether a star's expression may take the character. */
  predicate Takes(star: Atom, c: char) {
    if star.SegStar? then c != '/' else star.DotStar? && !LineTerminator(c)
  }

  lemma StarFirst(a: seq<Atom>, b: seq<Atom>, s: string)
    requires a != [] && !a[0].Lit?
    ensures InTwo(a, b, s) <==> InTwo(a[1..], b, s) || (s != "" && Takes(a[0], s[0]) && InTwo(a, b, s[1..]))
  {
    if k: nat :| CutAt(a, b, s, k) {
      if Accepts(a[1..], s[..k]) {
        assert CutAt(a[1..], b, s, k);
      } else {
        CutLater(a, b, s, k - 1);
        assert CutAt(a, b, s[1..], k - 1);
      }
    }
    if k: nat :| CutAt(a[1..], b, s, k) { assert CutAt(a, b, s, k); }
    if s != "" && Takes(a[0], s[0]) && InTwo(a, b, s[1..]) {
      var k: nat :| CutAt(a, b, s[1..], k);
      CutLater(a, b, s, k);
      assert CutAt(a, b, s, k + 1);
    }
  }

  /** A sequence of expressions matches exactly the texts that can be cut between them. */
  lemma {:induction false} SequenceMatches(a: seq<Atom>, b: seq<Atom>, s: string)
    ensures Accepts(a + b, s) <==> exists k :: 0 <= k <= |s| && Accepts(a, s[..k]) && Accepts(b, s[k..])
    decreases |a| + |s|
  {
    Sequenced(a, b, s);
    if k :| 0 <= k <= |s| && Accepts(a, s[..k]) && Accepts(b, s[k..]) { assert CutAt(a, b, s, k); }
  }

  lemma {:induction false} Sequenced(a: seq<Atom>, b: seq<Atom>, s: string)
    ensures Accepts(a + b, s) <==> InTwo(a, b, s)
    decreases |a| + |s|
  {
    if a == [] {
      Empty(a, b, s);
    } else {
      assert (a + b)[1..] == a[1..] + b;
      if a[0].Lit? {
        LiteralFirst(a, b, s);
        if s != "" { Sequenced(a[1..], b, s[1..]); }
      } else {
        StarFirst(a, b, s);
        Sequenced(a[1..], b, s);
        if s != "" { Sequenced(a, b, s[1..]); }
      }
    }
  }

  // ---- What a pattern becomes --------------------------------------------------------------------

  /** Any character but a star stands for itself; the placeholder's own character is read as `**`. */
  lemma TextBecomes(c: char, rest: string)
    requires c != '*'
    ensures Compile([c] + rest) == [if c as int == 0 then DotStar else Lit(c)] + Compile(rest)
  {
    MarkCons(c, rest);
    AtomsOfConcat([c], MarkDoubleStars(rest));
    assert AtomsOf([c]) == [AtomOf(c)];
  }

  function Run(n: nat): string {
    seq(n, _ => '*')
  }

  function DotStars(n: nat): seq<Atom> {
    seq(n, _ => DotStar)
  }

  lemma TwoStars(rest: string)
    ensures Compile(['*', '*'] + rest) == [DotStar] + Compile(rest)
  {
    var s := ['*', '*'] + rest;
    assert s[2..] == rest;
    AtomsOfConcat([NUL], MarkDoubleStars(rest));
    assert AtomsOf([NUL]) == [DotStar];
  }

  lemma OneStar(rest: string)
    requires rest == "" || rest[0] != '*'
    ensures Compile(['*'] + rest) == [SegStar] + Compile(rest)
  {
    MarkCons('*', rest);
    AtomsOfConcat(['*'], MarkDoubleStars(rest));
    assert AtomsOf(['*']) == [SegStar];
  }

  lemma RunSplits(n: nat, rest: string)
    requires n >= 2
    ensures Run(n) + rest == ['*', '*'] + (Run(n - 2) + rest)
  {
  }

  lemma DotStarsSplit(n: nat, re: seq<Atom>)
    requires n >= 2
    ensures [DotStar] + (DotStars((n - 2) / 2) + re) == DotStars(n / 2) + re
  {
    assert [DotStar] + DotStars((n - 2) / 2) == DotStars(n / 2);
  }

  /** In a run of stars each pair is one `.*`, and an odd one out, the last, is one `[^/]*`. */
  lemma {:induction false} StarsBecome(n: nat, rest: string)
    requires rest == "" || rest[0] != '*'
    ensures Compile(Run(n) + rest) == DotStars(n / 2) + (if n % 2 == 1 then [SegStar] else []) + Compile(rest)
  {
    if n == 0 {
      assert Run(n) + rest == rest && DotStars(0) + [] + Compile(rest) == Compile(rest);
    } else if n == 1 {
      assert Run(n) + rest == ['*'] + rest;
      OneStar(rest);
      assert DotStars(0) + [SegStar] + Compile(rest) == [SegStar] + Compile(rest);
    } else {
      var odd := if n % 2 == 1 then [SegStar] else [];
      StarsBecome(n - 2, rest);
      RunSplits(n, rest);
      TwoStars(Run(n - 2) + rest);
      Associative(DotStars((n - 2) / 2), odd, Compile(rest));
      DotStarsSplit(n, odd + Compile(rest));
      Associative(DotStars(n / 2), odd, Compile(rest));
    }
  }
}
