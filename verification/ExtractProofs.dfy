/** What the extraction promises about the slice, and exactly when it and the worker's wrapper keep those promises. */
module ExtractProofs {
  import opened Lexer
  import opened Scanners
  import opened Extract

  /** The bytes that the walk to the left takes. */
  predicate IsStaticByte(c: char) {
    c == 's' || c == 't' || c == 'a' || c == 'i' || c == 'c' || IsBlank(c)
  }

  /** The word `static` and n blanks. */
  predicate StaticWord(t: string, n: nat) {
    0 < n && 6 + n <= |t| && Matches(t, 0, STATIC) && forall i | 6 <= i < 6 + n :: IsBlank(t[i])
  }

  /** Words `static`, each followed by blanks. */
  ghost predicate StaticWords(t: string)
    decreases |t|
  {
    t == "" || exists n: nat :: StaticWord(t, n) && StaticWords(t[6 + n..])
  }

  lemma OneStaticWord(t: string, n: nat)
    requires |t| == 6 + n && StaticWord(t, n)
    ensures StaticWords(t)
  {
    assert t[6 + n..] == "";
  }

  lemma {:induction false} StaticWordsAppend(a: string, b: string)
    requires StaticWords(a) && StaticWords(b)
    ensures StaticWords(a + b)
    decreases |a|
  {
    if a == "" {
      assert a + b == b;
    } else {
      var n: nat :| StaticWord(a, n) && StaticWords(a[6 + n..]);
      StaticWordsAppend(a[6 + n..], b);
      assert (a + b)[..6] == a[..6] && a[..6] == a[0..6] && (a + b)[..6] == (a + b)[0..6];
      assert StaticWord(a + b, n);
      assert (a + b)[6 + n..] == a[6 + n..] + b;
    }
  }

  lemma {:induction false} StaticWordsBytes(t: string)
    requires StaticWords(t)
    ensures forall i | 0 <= i < |t| :: IsStaticByte(t[i])
    decreases |t|
  {
    if t != "" {
      var n: nat :| StaticWord(t, n) && StaticWords(t[6 + n..]);
      StaticWordsBytes(t[6 + n..]);
      forall i | 0 <= i < |t|
        ensures IsStaticByte(t[i])
      {
        if i < 6 {
          MatchesByte(t, 0, STATIC, i);
        } else if i >= 6 + n {
          assert t[i] == t[6 + n..][i - (6 + n)];
        }
      }
    }
  }

  /** One turn of the walk takes one word with the blanks behind it. */
  lemma WalkTakesWord(s: string, lo: nat, start: nat)
    requires lo < start <= |s| && !IsIdentByte(s[start - 1])
    requires StaticEndsAt(s, lo, BackOver(s, lo, start - 1))
    ensures var q := BackOver(s, lo, start - 1);
            lo + 6 <= q < start - 1 && !IsIdentByte(s[q - 6]) && StaticWords(s[q - 5..start])
  {
    var q := BackOver(s, lo, start - 1);
    MatchesByte(s, q - 5, STATIC, 5);
    var word, n := s[q - 5..start], start - 1 - q;
    MatchesInSlice(s, q - 5, start, 0, STATIC);
    assert StaticWord(word, n);
    OneStaticWord(word, n);
  }

  /** What the walk to the left takes in front of a token are `static` words and blanks, and it stops before a token. */
  lemma {:induction false} WalkLeftTakes(s: string, lo: nat, start: nat)
    requires lo <= start <= |s| && (start > 0 ==> !IsIdentByte(s[start - 1]))
    ensures var r := WalkLeft(s, lo, start);
            StaticWords(s[r..start]) && (r > 0 ==> !IsIdentByte(s[r - 1]))
    decreases start
  {
    NoStaticWord();
    hide StaticWords, StaticEndsAt, IsIdentByte;
    assert s[start..start] == "";
    if start > lo {
      var q := BackOver(s, lo, start - 1);
      if StaticEndsAt(s, lo, q) {
        WalkTakesWord(s, lo, start);
        WalkLeftTakes(s, lo, q - 5);
        var r := WalkLeft(s, lo, q - 5);
        StaticWordsAppend(s[r..q - 5], s[q - 5..start]);
        assert s[r..start] == s[r..q - 5] + s[q - 5..start];
      }
    }
  }

  lemma NoStaticWord()
    ensures StaticWords("")
  {
  }

  /** The slice begins with `static` words and blanks, directly in front of the keyword. */
  lemma SliceStart(s: string, lineNo: int, c: Cut)
    requires IsCut(s, lineNo, c)
    ensures c.start <= c.fn && c.fn + 8 <= c.body < c.end <= |s|
    ensures StaticWords(s[c.start..c.fn]) && Matches(s, c.fn, FUNCTION)
  {
    WalkLeftTakes(s, c.line, c.fn);
    assert |FUNCTION| == 8;
    forall x | c.fn <= x < c.fn + 8
      ensures s[x] != '{'
    {
      MatchesByte(s, c.fn, FUNCTION, x - c.fn);
    }
  }

  // ---------- The slice alone ----------

  lemma SliceWithin(s: string, a: nat, e: nat)
    requires a <= e <= |s|
    ensures Within(s[a..e], s, a)
  {
  }

  /** Over bytes that start neither a string nor a comment nor a heredoc the keyword scanner stays in normal state. */
  lemma {:induction false} ScanInert(s: string, from: nat, i: nat)
    requires from <= i <= |s| && forall k | from <= k < i :: Inert(s[k]) && !StartsHeredoc(s, k)
    ensures ScanRun(s, from, i) == Lex(At(Normal))
    decreases i
  {
    if i > from {
      ScanInert(s, from, i - 1);
    }
  }

  lemma SliceFunction(s: string, lineNo: int, c: Cut)
    requires IsCut(s, lineNo, c)
    ensures FirstFunction(s[c.start..c.end], 0, c.fn - c.start)
  {
    SliceStart(s, lineNo, c);
    hide IsIdentByte, StaticWords, FirstBody, Balances, LineStarts, WalkLeft;
    StaticWordsBytes(s[c.start..c.fn]);
    var t, k := s[c.start..c.end], c.fn - c.start;
    forall x | 0 <= x < k
      ensures IsStaticByte(t[x])
    {
      assert t[x] == s[c.start..c.fn][x];
    }
    MatchesInSlice(s, c.start, c.end, k, FUNCTION);
    MatchesByte(t, k, FUNCTION, 0);
    assert KeywordAt(t, k, FUNCTION) by {
      assert KeywordAt(s, c.fn, FUNCTION);
      assert k + 8 < |t| && t[k + 8] == s[c.fn + 8];
      assert k > 0 ==> t[k - 1] == s[c.fn - 1];
    }
    FirstBehindStatic(t, k);
  }

  /** Behind bytes of `static` words the keyword is the first. */
  lemma FirstBehindStatic(t: string, k: nat)
    requires k < |t| && KeywordAt(t, k, FUNCTION) && t[k] == 'f' && forall x | 0 <= x < k :: IsStaticByte(t[x])
    ensures FirstFunction(t, 0, k)
  {
    ScanInert(t, 0, k);
    hide ScanRun, KeywordAt;
    forall x | 0 <= x < k
      ensures !Found(t, 0, x, FUNCTION)
    {
      hide Found;
      FoundBeginsWithF(t, 0, x);
    }
  }

  lemma FoundBeginsWithF(t: string, from: nat, x: nat)
    ensures Found(t, from, x, FUNCTION) ==> t[x] == 'f'
  {
    if Found(t, from, x, FUNCTION) {
      MatchesByte(t, x, FUNCTION, 0);
    }
  }

  lemma OpensBodyWithin(t: string, s: string, at: nat, from: nat, x: nat)
    requires Within(t, s, at) && from <= x < |t|
    ensures OpensBody(t, from, x) <==> OpensBody(s, at + from, at + x)
  {
    RunWithin(t, s, at, from, x);
    NestingWithin(t, s, at, from, x, '(', ')');
  }

  lemma FirstBodyWithin(t: string, s: string, at: nat, from: nat, body: nat)
    requires Within(t, s, at) && from <= body < |t| && FirstBody(s, at + from, at + body)
    ensures FirstBody(t, from, body)
  {
    forall x | from <= x <= body
      ensures OpensBody(t, from, x) <==> OpensBody(s, at + from, at + x)
    {
      OpensBodyWithin(t, s, at, from, x);
    }
  }

  lemma BodyWithin(t: string, s: string, at: nat, fn: nat, body: nat)
    requires Within(t, s, at) && fn <= body < |t|
    requires FirstBody(s, at + fn, at + body) && Balances(s, at + body, at + |t|)
    ensures FirstBody(t, fn, body) && Balances(t, body, |t|)
  {
    hide FirstBody, Balances, Within;
    FirstBodyWithin(t, s, at, fn, body);
    BalancesWithin(t, s, at, body, |t|);
  }

  /**
   The extracted text delimits itself: looking for the closure in the slice alone finds the keyword, the brace and the end
   at the same bytes, and the end is the end of the slice.
   */
  lemma SelfDelimiting(s: string, lineNo: int, c: Cut)
    requires IsCut(s, lineNo, c)
    ensures c.start <= c.fn <= c.body < c.end <= |s|
    ensures var t := s[c.start..c.end];
            && FirstFunction(t, 0, c.fn - c.start)
            && FirstBody(t, c.fn - c.start, c.body - c.start)
            && Balances(t, c.body - c.start, |t|)
  {
    SliceStart(s, lineNo, c);
    assert FirstBody(s, c.fn, c.body) && Balances(s, c.body, c.end);
    hide IsCut, FirstFunction, FirstBody, Balances, Matches, StaticWords, Within;
    SliceFunction(s, lineNo, c);
    SliceWithin(s, c.start, c.end);
    BodyWithin(s[c.start..c.end], s, c.start, c.fn - c.start, c.body - c.start);
  }

  /** In a text without heredocs the three scans are one run of the lexer, from the line to the end of the body. */
  lemma OneRun(s: string, lineNo: int, c: Cut, i: nat)
    requires IsCut(s, lineNo, c) && HeredocFree(s) && c.fn <= i <= c.end
    ensures c.line <= c.fn && Run(s, c.line, i) == Run(s, c.fn, i)
    ensures i >= c.body ==> Run(s, c.line, i) == Run(s, c.body, i)
    ensures Run(s, c.line, c.end) == At(Normal)
  {
    ScanIsRun(s, c.line, c.fn);
    RunRestarts(s, c.line, c.fn, i);
    RunRestarts(s, c.line, c.fn, c.body);
    if i >= c.body {
      RunRestarts(s, c.line, c.body, i);
    }
    RunRestarts(s, c.line, c.body, c.end);
    assert Run(s, c.body, c.body) == At(Normal);
    BalancesEndsWithBrace(s, c.body, c.end);
  }

  // ---------- Extracting again, and the word at the start of the line ----------

  /** Extracting from the slice gives the slice back exactly if it begins with the keyword: a `static` is lost. */
  lemma ExtractAgain(s: string, lineNo: int, c: Cut)
    requires IsCut(s, lineNo, c)
    ensures c.start <= c.fn <= c.body < c.end <= |s|
    ensures var t := s[c.start..c.end];
            var w := WalkLeft(t, 0, c.fn - c.start);
            && IsCut(t, 1, Cut(0, w, c.fn - c.start, c.body - c.start, |t|))
            && (w == 0 <==> c.start == c.fn)
  {
    hide FirstFunction, FirstBody, Balances, WalkLeft, Newlines;
    SelfDelimiting(s, lineNo, c);
    WalkToZero(s[c.start..c.end], c.fn - c.start);
  }

  /** The walk reaches the beginning of a text only if it starts there. */
  lemma {:induction false} WalkToZero(t: string, k: nat)
    requires k <= |t|
    ensures WalkLeft(t, 0, k) == 0 <==> k == 0
    decreases k
  {
    if k > 0 {
      var q := BackOver(t, 0, k - 1);
      if StaticEndsAt(t, 0, q) {
        WalkToZero(t, q - 5);
      }
    }
  }

  /** A `static` at `p` with nothing but blanks between it and the keyword. */
  ghost predicate StaticBefore(s: string, p: nat, fn: nat) {
    && p + 6 < fn <= |s| && s[p..p + 6] == "static"
    && (forall x | p + 6 <= x < fn :: s[x] == ' ' || s[x] == '\t')
    && (p > 0 ==> s[p - 1] !in IDENT)
  }

  /** Going back over the blanks behind a `static` ends on its last byte. */
  lemma BackToStatic(s: string, lo: nat, p: nat, fn: nat)
    requires lo <= p && StaticBefore(s, p, fn)
    ensures BackOver(s, lo, fn - 1) == p + 5
  {
    MatchesByte(s, p, STATIC, 5);
    assert !IsBlank(s[p + 5]);
  }

  /** The word that the walk takes first. */
  lemma WalkFindsStatic(s: string, lo: nat, fn: nat)
    requires lo < fn <= |s| && !IsIdentByte(s[fn - 1]) && StaticEndsAt(s, lo, BackOver(s, lo, fn - 1))
    ensures var q := BackOver(s, lo, fn - 1); lo < q - 5 && StaticBefore(s, q - 5, fn)
  {
    hide IDENT;
    var q := BackOver(s, lo, fn - 1);
    MatchesByte(s, q - 5, STATIC, 5);
    assert q < fn - 1;
    IdentBytes(s[q - 6]);
    hide IsIdentByte;
  }

  lemma StaticIsFound(s: string, lo: nat, p: nat, fn: nat)
    requires lo < p && StaticBefore(s, p, fn)
    ensures StaticEndsAt(s, lo, BackOver(s, lo, fn - 1))
  {
    BackToStatic(s, lo, p, fn);
    IdentBytes(s[p - 1]);
    hide IDENT;
  }

  /** The slice keeps a `static` exactly if the word begins after the first byte of the line. */
  lemma KeepsStatic(s: string, lineNo: int, c: Cut)
    requires IsCut(s, lineNo, c)
    ensures c.start < c.fn <==> exists p: nat :: c.line < p && StaticBefore(s, p, c.fn)
  {
    assert c.line <= c.fn <= |s| && (c.fn > 0 ==> !IsIdentByte(s[c.fn - 1]));
    hide FirstFunction, FirstBody, Balances, LineStarts, WalkLeft;
    WalkKeepsStatic(s, c.line, c.fn);
  }

  lemma WalkKeepsStatic(s: string, lo: nat, fn: nat)
    requires lo <= fn <= |s| && (fn > 0 ==> !IsIdentByte(s[fn - 1]))
    ensures WalkLeft(s, lo, fn) < fn <==> exists p: nat :: lo < p && StaticBefore(s, p, fn)
  {
    hide StaticBefore, StaticEndsAt, IsIdentByte;
    if WalkLeft(s, lo, fn) < fn {
      WalkFindsStatic(s, lo, fn);
    }
    if p: nat :| lo < p && StaticBefore(s, p, fn) {
      StaticIsFound(s, lo, p, fn);
      StaticRoom(s, p, fn);
    }
  }

  lemma StaticRoom(s: string, p: nat, fn: nat)
    requires StaticBefore(s, p, fn)
    ensures p + 6 < fn <= |s|
  {
  }

  /** The walk stops, or goes on from where it has come to. */
  lemma WalkOnce(s: string, lo: nat, start: nat) returns (next: nat)
    requires lo <= start <= |s|
    ensures lo <= next <= start
    ensures if next == start then WalkLeft(s, lo, start) == start else WalkLeft(s, lo, start) == WalkLeft(s, lo, next)
  {
    next := start;
    if start > lo {
      var q := BackOver(s, lo, start - 1);
      if StaticEndsAt(s, lo, q) {
        next := q - 5;
      }
    }
    hide BackOver, StaticEndsAt;
  }

  lemma {:induction false} WalkAgain(s: string, lo: nat, start: nat)
    requires lo <= start <= |s|
    ensures WalkLeft(s, lo, WalkLeft(s, lo, start)) == WalkLeft(s, lo, start)
    decreases start
  {
    hide WalkLeft;
    var next := WalkOnce(s, lo, start);
    if next < start {
      WalkAgain(s, lo, next);
    }
  }

  /** And it keeps all of them: none that begins after the first byte of the line is left in front of the slice. */
  lemma KeepsEveryStatic(s: string, lineNo: int, c: Cut)
    requires IsCut(s, lineNo, c)
    ensures forall p: nat :: c.line < p ==> !StaticBefore(s, p, c.start)
  {
    hide LineStarts, FirstBody, Balances, WalkLeft, StaticBefore, StaticWords, IsIdentByte;
    assert c.line <= c.fn <= |s| && (c.fn > 0 ==> !IsIdentByte(s[c.fn - 1]));
    NoneIsLeft(s, c.line, c.fn);
  }

  lemma NoneIsLeft(s: string, lo: nat, fn: nat)
    requires lo <= fn <= |s| && (fn > 0 ==> !IsIdentByte(s[fn - 1]))
    ensures forall p: nat :: lo < p ==> !StaticBefore(s, p, WalkLeft(s, lo, fn))
  {
    hide WalkLeft, StaticBefore, StaticWords, IsIdentByte;
    WalkLeftTakes(s, lo, fn);
    WalkAgain(s, lo, fn);
    WalkKeepsStatic(s, lo, WalkLeft(s, lo, fn));
  }

  /** So a `static` that begins the line is dropped. */
  lemma StaticAtLineStartIsDropped(s: string, lineNo: int, c: Cut)
    requires IsCut(s, lineNo, c) && StaticBefore(s, c.line, c.fn)
    ensures c.start == c.fn
  {
    BackToStatic(s, c.line, c.line, c.fn);
  }
}
