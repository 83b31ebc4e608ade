/** When the evaluator's expressions are included in one another, for parents without a separator. */
module GlobExact {
  import opened Common
  import opened Glob
  import opened GlobSoundness

  predicate HasLiteral(re: seq<Atom>, c: char) {
    exists i :: 0 <= i < |re| && re[i] == Lit(c)
  }

  /** One string of the expression: `c` at each `[^/]*` and a separator at each `.*`. */
  function Instance(re: seq<Atom>, c: char): string {
    if re == [] then ""
    else [if re[0].Lit? then re[0].c else if re[0].SegStar? then c else '/'] + Instance(re[1..], c)
  }

  lemma TailLiterals(re: seq<Atom>, c: char)
    requires re != []
    ensures HasLiteral(re, c) <==> re[0] == Lit(c) || HasLiteral(re[1..], c)
  {
    if HasLiteral(re[1..], c) {
      var i :| 0 <= i < |re[1..]| && re[1..][i] == Lit(c);
      assert re[i + 1] == Lit(c);
    }
    if HasLiteral(re, c) && re[0] != Lit(c) {
      var i :| 0 <= i < |re| && re[i] == Lit(c);
      assert re[1..][i - 1] == Lit(c);
    }
  }

  lemma {:induction false} InstanceAccepted(re: seq<Atom>, c: char)
    requires c != '/'
    ensures Accepts(re, Instance(re, c))
  {
    if re != [] {
      InstanceAccepted(re[1..], c);
      var s := Instance(re, c);
      assert s[1..] == Instance(re[1..], c);
      if !re[0].Lit? {
        assert Accepts(re, s[1..]);
        assert !LineTerminator('/');
      }
    }
  }

  /**
   The parent's `[^/]*` can take the foreign letter but no separator, and its literals take neither: what
   matches the instance matches every one-line string of the delegate.
   */
  lemma {:induction false} InstanceDecides(p: seq<Atom>, d: seq<Atom>, t: string, c: char)
    requires !HasLiteral(p, '/') && !HasLiteral(p, c) && Accepts(p, Instance(d, c))
    requires Accepts(d, t) && OneLine(t)
    ensures Accepts(p, t)
    decreases |p| + |d| + |t|
  {
    if p != [] {
      TailLiterals(p, '/');
      TailLiterals(p, c);
      var s := Instance(d, c);
      if !p[0].Lit? && Accepts(p[1..], s) {
        InstanceDecides(p[1..], d, t, c);
      } else {
        assert d != [] && s[1..] == Instance(d[1..], c);
        if p[0].Lit? {
          InstanceDecides(p[1..], d[1..], t[1..], c);
        } else if d[0].Lit? {
          InstanceDecides(p, d[1..], t[1..], c);
        } else if Accepts(d[1..], t) {
          InstanceDecides(p, d[1..], t, c);
        } else {
          InstanceDecides(p, d, t[1..], c);
        }
      }
    }
  }

  lemma {:induction false} MarkedLiterals(s: string, c: char)
    requires c in MarkDoubleStars(s)
    ensures c in s || c == NUL
  {
    if |s| >= 2 && s[0] == '*' && s[1] == '*' {
      if c != NUL { MarkedLiterals(s[2..], c); }
    } else if s != "" && c != s[0] {
      MarkedLiterals(s[1..], c);
    }
  }

  /** The literals of a compiled pattern are characters of the pattern. */
  lemma CompiledLiterals(pattern: string, c: char)
    requires HasLiteral(Compile(pattern), c)
    ensures c in pattern
  {
    var marked := MarkDoubleStars(pattern);
    AtomsOfAt(marked);
    var i :| 0 <= i < |marked| && AtomsOf(marked)[i] == Lit(c);
    MarkedLiterals(pattern, marked[i]);
  }

  lemma {:induction false} InstanceChars(re: seq<Atom>, c: char, x: char)
    requires x in Instance(re, c)
    ensures x == c || x == '/' || HasLiteral(re, x)
  {
    if x == Instance(re, c)[0] {
    } else {
      InstanceChars(re[1..], c, x);
    }
    TailLiterals(re, x);
  }

  lemma InstanceOneLine(pattern: string, c: char)
    requires OneLine(pattern) && !LineTerminator(c)
    ensures OneLine(Instance(Compile(pattern), c))
  {
    forall x | x in Instance(Compile(pattern), c)
      ensures !LineTerminator(x)
    {
      InstanceChars(Compile(pattern), c, x);
      if HasLiteral(Compile(pattern), x) { CompiledLiterals(pattern, x); }
    }
  }

  /** Every pattern free of line terminators matches some string free of them. */
  lemma MatchesSomething(pattern: string) returns (s: string)
    requires OneLine(pattern)
    ensures OneLine(s) && Accepts(Compile(pattern), s)
  {
    s := Instance(Compile(pattern), 'a');
    InstanceAccepted(Compile(pattern), 'a');
    InstanceOneLine(pattern, 'a');
  }

  /**
   A parent without a separator, stars doubled or not, against any delegate: its expression includes
   the delegate's exactly when it accepts one string, the delegate with a foreign letter at each single
   star and a separator at each doubled one.
   */
  lemma SlashFreeSoundExactly(parent: string, delegate: string, c: char)
    requires SlashFree(parent) && OneLine(delegate) && c !in parent && c != '/' && !LineTerminator(c)
    ensures Narrower(parent, delegate) <==> Accepts(Compile(parent), Instance(Compile(delegate), c))
  {
    var p, d := Compile(parent), Compile(delegate);
    InstanceAccepted(d, c);
    InstanceOneLine(delegate, c);
    if Accepts(p, Instance(d, c)) {
      if HasLiteral(p, '/') { CompiledLiterals(parent, '/'); }
      if HasLiteral(p, c) { CompiledLiterals(parent, c); }
      forall s | OneLine(s) && Accepts(d, s)
        ensures Accepts(p, s)
      {
        InstanceDecides(p, d, s, c);
      }
    }
  }
}
