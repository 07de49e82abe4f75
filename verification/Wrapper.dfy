/**
 The worker-side factory that `px_resolve_inline_closure` writes around an extracted closure, and exactly when its braces
 match.
 */
module Wrapper {
  import opened Lexer
  import opened Scanners
  import opened Extract
  import opened ExtractProofs

  /** What stands before the closure. */
  const FRONT := "<?php return static function (array $__cv) { extract($__cv); return "
  const SUFFIX := "; };"

  /** `strlen` cuts the text at its first NUL. */
  function BeforeNul(t: string): (r: string)
    ensures r <= t && '\0' !in r
    ensures |r| < |t| ==> t[|r|] == '\0'
    ensures '\0' !in t ==> r == t
  {
    if t == "" || t[0] == '\0' then "" else
      var rest := BeforeNul(t[1..]);
      assert t == [t[0]] + t[1..];
      [t[0]] + rest
  }

  /** The file that the worker compiles. */
  function Wrap(text: string): string {
    FRONT + BeforeNul(text) + SUFFIX
  }

  /** The braces of a header: balanced, and never more closed than opened. */
  ghost predicate HeaderBalanced(t: string, body: nat) {
    body <= |t| && Braces(t, 0, body) == 0 && forall i | 0 <= i <= body :: Braces(t, 0, i) >= 0
  }

  /** Neither a brace nor the beginning of a string or comment. */
  predicate IsQuiet(c: char) {
    Inert(c) && c != '{' && c != '}'
  }

  /** The brace of the factory, and nothing of interest to the lexer behind it. */
  lemma FrontBytes(f: string)
    requires f == FRONT
    ensures |f| == 68 && f[43] == '{' && forall i | 44 <= i < 68 :: IsQuiet(f[i])
  {
  }

  /** `w` is the factory around the text `u`. */
  ghost predicate Embeds(w: string, u: string) {
    && |w| == 68 + |u| + 4
    && w[43] == '{' && (forall i | 44 <= i < 68 :: IsQuiet(w[i]))
    && Within(u, w, 68) && Within(u + ";", w, 68)
    && w[68 + |u|] == ';' && w[69 + |u|] == ' ' && w[70 + |u|] == '}'
  }

  /** The wrapper holds the text before its first NUL. */
  lemma WrapEmbeds(t: string)
    ensures Embeds(Wrap(t), BeforeNul(t))
  {
    FrontBytes(FRONT);
    hide FRONT;
    var w, u := Wrap(t), BeforeNul(t);
    assert w == FRONT + u + SUFFIX;
    forall i | 43 <= i < 68
      ensures w[i] == FRONT[i]
    {
    }
  }

  /** The wrapper as it is spelled: it holds the text before the first NUL, and so the whole text exactly if there is none. */
  lemma WrapKeepsText(t: string)
    ensures Wrap(t) == "<?php return static function (array $__cv) { extract($__cv); return " + BeforeNul(t) + "; };"
    ensures BeforeNul(t) == t <==> '\0' !in t
  {
  }

  /** Up to the embedded text exactly the factory's brace is open. */
  lemma BeforeText(w: string, u: string, i: nat)
    requires Embeds(w, u) && 44 <= i <= 68
    ensures Run(w, 43, i) == At(Normal) && Braces(w, 43, i) == 1
  {
    hide Braces, Within;
    assert Run(w, 43, 43) == At(Normal);
    assert Run(w, 43, 44) == At(Normal);
    OneBrace(w, 43);
    RunInert(w, 44, i);
    RunRestarts(w, 43, 44, i);
    NestingFlat(w, 44, 44, i, '{', '}');
    NestingRestarts(w, 43, 44, i, '{', '}');
    BracesIs(w, 43, i);
    BracesIs(w, 43, 44);
  }

  lemma BracesIs(w: string, from: nat, i: nat)
    requires from <= i <= |w|
    ensures Braces(w, from, i) == Nesting(w, from, i, '{', '}')
  {
  }

  lemma OneBrace(w: string, from: nat)
    requires from < |w| && w[from] == '{'
    ensures Braces(w, from, from + 1) == 1
  {
    assert Nesting(w, from, from, '{', '}') == 0 && Weight(w, from, from, '{', '}') == 1;
  }

  /** In a text that the lexer enters in normal state the braces add up. */
  lemma BracesIn(w: string, t: string, from: nat, at: nat, j: nat)
    requires from <= at && Within(t, w, at) && j <= |t| && Run(w, from, at) == At(Normal)
    ensures Braces(w, from, at + j) == Braces(w, from, at) + Braces(t, 0, j)
  {
    NestingRestarts(w, from, at, at + j, '{', '}');
    NestingWithin(t, w, at, 0, j, '{', '}');
    hide Run, Nesting, Within;
  }

  /** Inside the embedded text the factory's brace is open on top of what the text itself has open. */
  lemma InText(w: string, u: string, j: nat)
    requires Embeds(w, u) && j <= |u|
    ensures Braces(w, 43, 68 + j) == 1 + Braces(u, 0, j)
  {
    BeforeText(w, u, 68);
    hide Run, Braces, Within, IsQuiet;
    BracesIn(w, u, 43, 68, j);
  }

  /** The lexer behind the embedded text is where it is behind the text and a semicolon's first look. */
  lemma BehindRun(w: string, u: string)
    requires Embeds(w, u)
    ensures Run(w, 43, 68 + |u|) == Run(u + ";", 0, |u|)
  {
    hide *;
    BeforeText(w, u, 68);
    TextLies(w, u);
    RunBehind(w, u + ";", |u|);
  }

  lemma TextLies(w: string, u: string)
    requires Embeds(w, u)
    ensures Within(u + ";", w, 68) && |u| < |u + ";"| && 68 + |u| <= |w|
  {
    hide Within, IsQuiet;
  }

  lemma RunBehind(w: string, v: string, i: nat)
    requires Within(v, w, 68) && i < |v| && 68 + i <= |w| && Run(w, 43, 68) == At(Normal)
    ensures Run(w, 43, 68 + i) == Run(v, 0, i)
  {
    RunRestarts(w, 43, 68, 68 + i);
    RunWithin(v, w, 68, 0, i);
    hide Run, Within;
  }

  /** A semicolon and a blank neither end nor begin a string or a comment. */
  lemma SuffixRun(w: string, from: nat, e: nat)
    requires from <= e && e + 2 < |w| && w[e] == ';' && w[e + 1] == ' '
    ensures Run(w, from, e + 2) == At(Normal) <==> Run(w, from, e) == At(Normal)
  {
    var cur := Run(w, from, e);
    assert cur != Skipped(Normal) by {
      if e > from {
        assert Peek(w, e - 1) == ';';
      }
    }
    assert Run(w, from, e + 1) == Advance(cur, ';', ' ');
  }

  /** The brace of the suffix counts exactly if the text before has left the lexer in normal state. */
  lemma SuffixBraces(w: string, from: nat, e: nat)
    requires from <= e && e + 3 <= |w| && w[e] == ';' && w[e + 1] == ' ' && w[e + 2] == '}'
    ensures Braces(w, from, e + 2) == Braces(w, from, e + 1) == Braces(w, from, e)
    ensures Braces(w, from, e + 3) == Braces(w, from, e) - (if Run(w, from, e) == At(Normal) then 1 else 0)
  {
    SuffixRun(w, from, e);
    assert Weight(w, from, e, '{', '}') == 0 && Weight(w, from, e + 1, '{', '}') == 0;
    assert Weight(w, from, e + 2, '{', '}') == if Run(w, from, e) == At(Normal) then -1 else 0;
  }

  /** The embedded text closes what it opens, and leaves the lexer in normal state. */
  ghost predicate ClosesItself(u: string) {
    HeaderBalanced(u, |u|) && Run(u + ";", 0, |u|) == At(Normal)
  }

  lemma OpenUpTo(w: string, u: string, i: nat)
    requires Embeds(w, u) && ClosesItself(u) && 43 < i <= 68 + |u|
    ensures Braces(w, 43, i) > 0
  {
    hide Run, Braces, Within, IsQuiet;
    if i < 68 {
      BeforeText(w, u, i);
    } else {
      InText(w, u, i - 68);
    }
  }

  lemma ClosingTextMatches(w: string, u: string)
    requires Embeds(w, u) && ClosesItself(u)
    ensures Balances(w, 43, |w| - 1)
  {
    var e := 68 + |u|;
    BehindRun(w, u);
    InText(w, u, |u|);
    SuffixBraces(w, 43, e);
    assert |w| - 1 == e + 3 && Braces(w, 43, e) == 1 && Run(w, 43, e) == At(Normal);
    hide Run, Braces, Embeds, ClosesItself;
    forall i | 43 < i < e + 3
      ensures Braces(w, 43, i) > 0
    {
      if i <= e {
        OpenUpTo(w, u, i);
      }
    }
  }

  lemma MatchNeedsClosingText(w: string, u: string)
    requires Embeds(w, u) && Balances(w, 43, |w| - 1)
    ensures ClosesItself(u)
  {
    var e := 68 + |u|;
    BehindRun(w, u);
    InText(w, u, |u|);
    SuffixBraces(w, 43, e);
    hide Run, Braces, Within, IsQuiet;
    forall j | 0 <= j <= |u|
      ensures Braces(u, 0, j) >= 0
    {
      InText(w, u, j);
      assert Braces(w, 43, 68 + j) > 0;
    }
  }

  /**
   For every text: matching the factory's brace lands on the final brace of the wrapper exactly if the part before the
   first NUL closes what it opens, never closes more, and ends outside strings and comments.
   */
  lemma WrapMatches(t: string)
    ensures Balances(Wrap(t), 43, |Wrap(t)| - 1) <==> ClosesItself(BeforeNul(t))
  {
    var w, u := Wrap(t), BeforeNul(t);
    WrapEmbeds(t);
    assert |w| > 0;
    hide Wrap, BeforeNul, Embeds, Balances, ClosesItself;
    if ClosesItself(u) {
      ClosingTextMatches(w, u);
    }
    if Balances(w, 43, |w| - 1) {
      MatchNeedsClosingText(w, u);
    }
  }

  /** The lexer over a closure's text: in normal state at the brace of the body and at the last byte. */
  lemma ClosureRun(t: string, k: nat, b: nat)
    requires k <= b < |t| && (forall x | 0 <= x < k :: Inert(t[x]))
    requires OpensBody(t, k, b) && Balances(t, b, |t|)
    ensures Run(t, 0, b) == At(Normal) && t[b] == '{'
    ensures Run(t, 0, |t| - 1) == At(Normal) && t[|t| - 1] == '}'
  {
    RunInert(t, 0, k);
    RunRestarts(t, 0, k, b);
    BalancesEndsWithBrace(t, b, |t|);
    RunRestarts(t, 0, b, |t| - 1);
  }

  lemma SliceHead(s: string, a: nat, m: nat, e: nat)
    requires a <= m <= e <= |s| && StaticWords(s[a..m])
    ensures forall x | 0 <= x < m - a :: Inert(s[a..e][x])
  {
    StaticWordsBytes(s[a..m]);
    forall x | 0 <= x < m - a
      ensures Inert(s[a..e][x])
    {
      assert s[a..e][x] == s[a..m][x];
    }
  }

  lemma SliceRun(s: string, lineNo: int, c: Cut)
    requires IsCut(s, lineNo, c)
    ensures c.start <= c.fn <= c.body < c.end <= |s|
    ensures var t, b := s[c.start..c.end], c.body - c.start;
            && Run(t, 0, b) == At(Normal) && t[b] == '{'
            && Run(t, 0, |t| - 1) == At(Normal) && t[|t| - 1] == '}'
            && Balances(t, b, |t|)
  {
    hide IsCut, FirstFunction, Balances, StaticWords, Matches, OpensBody, Run;
    SliceStart(s, lineNo, c);
    SelfDelimiting(s, lineNo, c);
    SliceHead(s, c.start, c.fn, c.end);
    ClosureRun(s[c.start..c.end], c.fn - c.start, c.body - c.start);
  }

  /** Over the body the braces of the text are those of its header and those of the body. */
  lemma HeaderAndBody(t: string, b: nat, j: nat)
    requires b <= j <= |t| && Run(t, 0, b) == At(Normal)
    ensures Braces(t, 0, j) == Braces(t, 0, b) + Braces(t, b, j)
  {
    NestingRestarts(t, 0, b, j, '{', '}');
  }

  /** A whole closure closes itself exactly if its header does: the body always does. */
  lemma ClosureClosesItself(t: string, b: nat)
    requires b < |t| && Run(t, 0, b) == At(Normal) && Balances(t, b, |t|)
    requires Run(t, 0, |t| - 1) == At(Normal) && t[|t| - 1] == '}'
    ensures ClosesItself(t) <==> HeaderBalanced(t, b)
  {
    EndsNormal(t);
    HeaderAndBody(t, b, |t|);
    assert Braces(t, b, |t|) == 0;
    hide Run;
    if HeaderBalanced(t, b) {
      forall j | 0 <= j <= |t|
        ensures Braces(t, 0, j) >= 0
      {
        if j > b {
          HeaderAndBody(t, b, j);
        }
      }
    }
  }

  lemma EndsNormal(t: string)
    requires |t| > 0 && Run(t, 0, |t| - 1) == At(Normal) && t[|t| - 1] == '}'
    ensures Run(t + ";", 0, |t|) == At(Normal)
  {
    RunWithin(t, t + ";", 0, 0, |t| - 1);
  }

  lemma PrefixBraces(u: string, t: string, i: nat)
    requires u <= t && i <= |u|
    ensures Braces(u, 0, i) == Braces(t, 0, i)
  {
    NestingWithin(u, t, 0, 0, i, '{', '}');
  }

  /** A closure that is cut inside its body leaves a brace open. */
  lemma CutBodyStaysOpen(t: string, b: nat, u: string)
    requires u <= t && b < |u| < |t| && Run(t, 0, b) == At(Normal) && Balances(t, b, |t|)
    ensures !HeaderBalanced(u, |u|)
  {
    HeaderAndBody(t, b, |u|);
    PrefixBraces(u, t, |u|);
    PrefixBraces(u, t, b);
    assert Braces(t, b, |u|) > 0;
  }

  /**
   The wrapper of an extracted closure is well bracketed in two cases only. Without a NUL: exactly if the header's own
   braces balance without ever closing more than they open, whatever braces, quotes or comments the body holds. With a
   NUL: exactly if that stands in the header, and the part of the header before it closes itself.
   */
  lemma WrapperMatches(s: string, lineNo: int, c: Cut)
    requires IsCut(s, lineNo, c)
    ensures c.start <= c.fn <= c.body < c.end <= |s|
    ensures var t, b := s[c.start..c.end], c.body - c.start;
            var u := BeforeNul(t);
            var well := if '\0' !in t then HeaderBalanced(t, b) else |u| <= b && ClosesItself(u);
            Balances(Wrap(t), 43, |Wrap(t)| - 1) <==> well
  {
    SliceRun(s, lineNo, c);
    var t, b := s[c.start..c.end], c.body - c.start;
    hide IsCut, Run, Balances, HeaderBalanced, Wrap;
    TextMatches(t, b);
  }

  lemma TextMatches(t: string, b: nat)
    requires b < |t| && Run(t, 0, b) == At(Normal) && Balances(t, b, |t|)
    requires Run(t, 0, |t| - 1) == At(Normal) && t[|t| - 1] == '}'
    ensures var u := BeforeNul(t);
            var well := if '\0' !in t then HeaderBalanced(t, b) else |u| <= b && ClosesItself(u);
            Balances(Wrap(t), 43, |Wrap(t)| - 1) <==> well
  {
    var u := BeforeNul(t);
    WrapMatches(t);
    assert |u| == |t| ==> u == t;
    hide Wrap, Run, Balances, HeaderBalanced, BeforeNul;
    if '\0' !in t {
      ClosureClosesItself(t, b);
    } else if |u| > b {
      hide ClosesItself;
      CutBodyStaysOpen(t, b, u);
      NeverCloses(u);
    }
  }

  lemma NeverCloses(u: string)
    requires !HeaderBalanced(u, |u|)
    ensures !ClosesItself(u)
  {
  }

  lemma CutBehind(t: string, b: nat)
    requires b < |t| && '\0' in t && '\0' !in t[..b + 1]
    ensures b < |BeforeNul(t)| < |t|
  {
    var u := BeforeNul(t);
    assert |u| == |t| ==> u == t;
  }

  /** So a NUL in the body always breaks the wrapper, however well the closure itself is bracketed. */
  lemma BodyNulBreaks(s: string, lineNo: int, c: Cut)
    requires IsCut(s, lineNo, c)
    requires c.start <= c.body < c.end <= |s| && '\0' in s[c.start..c.end] && '\0' !in s[c.start..c.body + 1]
    ensures !Balances(Wrap(s[c.start..c.end]), 43, |Wrap(s[c.start..c.end])| - 1)
  {
    WrapperMatches(s, lineNo, c);
    hide IsCut, Balances, Wrap, ClosesItself, HeaderBalanced, BeforeNul;
    var t, b := s[c.start..c.end], c.body - c.start;
    assert t[..b + 1] == s[c.start..c.body + 1];
    CutBehind(t, b);
  }

  /** In particular a header without braces outside its strings and comments is wrapped well. */
  lemma {:induction false} PlainHeaderIsBalanced(t: string, b: nat)
    requires b <= |t| && forall i | 0 <= i < b && IsCode(t, 0, i) :: t[i] != '{' && t[i] != '}'
    ensures HeaderBalanced(t, b)
    decreases b
  {
    assert Braces(t, 0, 0) == 0;
    if b > 0 {
      PlainHeaderIsBalanced(t, b - 1);
      assert Weight(t, 0, b - 1, '{', '}') == 0;
    }
  }
}
