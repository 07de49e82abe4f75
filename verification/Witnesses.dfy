/**
 PHP files that show what the extraction does, and files on which it, or the wrapper, is not what the comments of the C
 file say.
 */
module Witnesses {
  import opened Lexer
  import opened Scanners
  import opened Extract
  import opened ExtractProofs
  import opened Wrapper

  // ---------- A `static` at the beginning of a line ----------

  /** A file that returns a static closure. */
  const STATIC_FILE := "<?php return\nstatic function(){};"

  /** Extracting the closure of line 2 gives it without its `static`. */
  lemma StaticIsLost()
    ensures IsCut(STATIC_FILE, 2, Cut(13, 20, 20, 30, 32)) && STATIC_FILE[20..32] == "function(){}"
  {
    StaticFileCut(STATIC_FILE);
    StaticFileSlice(STATIC_FILE);
    hide IsCut;
  }

  lemma StaticFileSlice(s: string)
    requires s == STATIC_FILE
    ensures s[20..32] == "function(){}"
  {
  }

  lemma StaticFileCut(s: string)
    requires s == STATIC_FILE
    ensures IsCut(s, 2, Cut(13, 20, 20, 30, 32))
  {
    StaticFileLine(s);
    StaticFileBytes(s);
    LineKeyword(s);
    StaticFileBody(s);
    StaticFileWord(s);
    StaticFileStart(s);
    hide LineStarts, LineBytes, FirstFunction, FirstBody, Balances, WalkLeft;
  }

  lemma {:induction false} NoNewlines(s: string, i: nat)
    requires i <= |s| && '\n' !in s[..i]
    ensures Newlines(s, i) == 0
  {
    if i > 0 {
      assert s[..i] == s[..i - 1] + [s[i - 1]];
      NoNewlines(s, i - 1);
    }
  }

  lemma StaticFileLine(s: string)
    requires s == STATIC_FILE
    ensures LineStarts(s, 2, 13)
  {
    assert s[..12] == "<?php return";
    NoNewlines(s, 12);
  }

  lemma StaticFileWord(s: string)
    requires s == STATIC_FILE
    ensures 20 < |s| && s[13..19] == "static" && s[12] == '\n' && s[19] == ' '
  {
  }

  lemma StaticFileStart(s: string)
    requires 20 < |s| && s[13..19] == "static" && s[12] == '\n' && s[19] == ' '
    ensures WalkLeft(s, 13, 20) == 20
  {
    IdentBytes('\n');
    hide IDENT;
    assert StaticBefore(s, 13, 20);
    BackToStatic(s, 13, 13, 20);
  }

  /** The bytes of line 2 before the keyword. */
  ghost predicate LineBytes(s: string) {
    && 28 < |s| && s[20..28] == FUNCTION && !IsIdentByte(s[19]) && !IsIdentByte(s[28])
    && forall k | 13 <= k < 20 :: Inert(s[k]) && s[k] != 'f' && !StartsHeredoc(s, k)
  }

  lemma StaticFileBytes(s: string)
    requires s == STATIC_FILE
    ensures LineBytes(s)
  {
    assert s[20..28] == "function";
  }

  lemma LineKeyword(s: string)
    requires LineBytes(s)
    ensures FirstFunction(s, 13, 20)
  {
    ScanInert(s, 13, 20);
    MatchesByte(s, 20, FUNCTION, 0);
    hide ScanRun;
    assert Found(s, 13, 20, FUNCTION);
    forall x | 13 <= x < 20
      ensures !Found(s, 13, x, FUNCTION)
    {
      FoundBeginsWithF(s, 13, x);
    }
  }

  lemma StaticFileBody(s: string)
    requires s == STATIC_FILE
    ensures FirstBody(s, 20, 30) && Balances(s, 30, 32)
  {
    HeaderOpens(s, 20, 28, 29);
    EmptyBody(s, 30);
  }

  /** A header with one pair of parentheses. */
  lemma ParenBytes(s: string, from: nat, open: nat, close: nat)
    requires from <= open < close < |s| && s[open] == '(' && s[close] == ')'
    requires forall k | from <= k < close && k != open :: s[k] != '(' && s[k] != ')'
    requires forall k | from <= k <= close :: Inert(s[k])
    ensures Parens(s, from, close + 1) == 0
  {
    RunInert(s, from, open);
    RunInert(s, from, close);
    NestingFlat(s, from, from, open, '(', ')');
    assert Weight(s, from, open, '(', ')') == 1 && Weight(s, from, close, '(', ')') == -1;
    NestingFlat(s, from, open + 1, close, '(', ')');
  }

  /** A header with one pair of parentheses, without quotes and comments, right before its body. */
  lemma HeaderOpens(s: string, fn: nat, open: nat, close: nat)
    requires fn <= open < close && close + 1 < |s| && s[open] == '(' && s[close] == ')' && s[close + 1] == '{'
    requires forall k | fn <= k < close && k != open :: s[k] != '(' && s[k] != ')'
    requires forall k | fn <= k <= close :: Inert(s[k]) && s[k] != '{'
    ensures FirstBody(s, fn, close + 1)
  {
    RunInert(s, fn, close + 1);
    ParenBytes(s, fn, open, close);
    hide Run;
  }

  lemma EmptyBody(s: string, b: nat)
    requires b + 1 < |s| && s[b] == '{' && s[b + 1] == '}'
    ensures Balances(s, b, b + 2)
  {
    OneBrace(s, b);
    RunInert(s, b, b + 1);
    assert Weight(s, b, b + 1, '{', '}') == -1;
  }

  // ---------- A `static` behind other bytes of its line ----------

  const KEPT_FILE := "<?php return static function(){};"

  /** On the line of the `return` the word is kept. */
  lemma StaticIsKept()
    ensures IsCut(KEPT_FILE, 1, Cut(0, 13, 20, 30, 32)) && KEPT_FILE[13..32] == "static function(){}"
  {
    KeptFileBytes(KEPT_FILE);
    KeptFileStart(KEPT_FILE);
    ClosureAt(KEPT_FILE, 20);
    hide FirstFunction, FirstBody, Balances, WalkLeft;
  }

  lemma KeptFileBytes(s: string)
    requires s == KEPT_FILE
    ensures s[13..32] == "static function(){}" && s[13..19] == "static" && s[20..31] == "function(){"
    ensures |s| == 33 && s[31] == '}' && s[19] == ' ' && s[12] == ' ' && s[11] == 'n' && s[6] == 'r'
    ensures forall k | 0 <= k < 20 :: Inert(s[k]) && s[k] != 'f' && !StartsHeredoc(s, k)
  {
    assert s[13..19] == "static";
    assert s[20..31] == "function(){";
  }

  lemma KeptFileStart(s: string)
    requires |s| == 33 && s[13..19] == "static" && s[19] == ' ' && s[12] == ' ' && s[11] == 'n' && s[6] == 'r'
    ensures WalkLeft(s, 0, 20) == 13
  {
    IdentBytes(' ');
    hide IDENT;
    BackToStatic(s, 0, 13, 20);
    assert StaticEndsAt(s, 0, 18);
    assert BackOver(s, 0, 12) == 11;
    if StaticEndsAt(s, 0, 11) {
      MatchesByte(s, 6, STATIC, 0);
    }
    assert WalkLeft(s, 0, 13) == 13;
  }

  /** A closure without parameters and with an empty body, behind bytes that hold nothing of interest to the lexer. */
  lemma ClosureAt(s: string, fn: nat)
    requires 0 < fn && fn + 12 < |s| && s[fn..fn + 11] == "function(){" && s[fn + 11] == '}'
    requires !IsIdentByte(s[fn - 1]) && forall k | 0 <= k < fn :: Inert(s[k]) && !StartsHeredoc(s, k)
    requires forall k | 0 <= k < fn && s[k] == 'f' :: k > 0 && IsIdentByte(s[k - 1])
    ensures FirstFunction(s, 0, fn) && FirstBody(s, fn, fn + 10) && Balances(s, fn + 10, fn + 12)
  {
    var t := s[fn..fn + 11];
    EmptyClosure(t);
    assert forall k | 0 <= k < 11 :: s[fn + k] == t[k];
    assert forall k | fn <= k < fn + 11 :: s[k] == t[k - fn];
    assert s[fn..fn + 8] == t[..8] == FUNCTION;
    ClosureKeyword(s, fn);
    HeaderOpens(s, fn, fn + 8, fn + 9);
    EmptyBody(s, fn + 10);
    hide FirstFunction, FirstBody, Balances;
  }

  lemma EmptyClosure(t: string)
    requires t == "function(){"
    ensures |t| == 11 && t[..8] == FUNCTION && t[8] == '(' && t[9] == ')' && t[10] == '{'
    ensures forall k | 0 <= k < 10 :: Inert(t[k]) && t[k] != '{' && (k < 8 ==> t[k] != '(' && t[k] != ')')
  {
  }

  lemma ClosureKeyword(s: string, fn: nat)
    requires 0 < fn && fn + 8 < |s| && s[fn..fn + 8] == FUNCTION && s[fn + 8] == '('
    requires !IsIdentByte(s[fn - 1]) && forall k | 0 <= k < fn :: Inert(s[k]) && !StartsHeredoc(s, k)
    requires forall k | 0 <= k < fn && s[k] == 'f' :: k > 0 && IsIdentByte(s[k - 1])
    ensures FirstFunction(s, 0, fn)
  {
    ScanInert(s, 0, fn);
    MatchesByte(s, fn, FUNCTION, 0);
    hide ScanRun;
    assert Found(s, 0, fn, FUNCTION);
    forall x | 0 <= x < fn
      ensures !Found(s, 0, x, FUNCTION)
    {
      FoundBeginsWithF(s, 0, x);
    }
  }

  // ---------- The keyword inside a longer name ----------

  const CALL_FILE := "<?php my_function(function(){});"

  /** The name of the function that is called ends in the keyword; the closure is its argument. */
  lemma NameIsNoKeyword()
    ensures IsCut(CALL_FILE, 1, Cut(0, 18, 18, 28, 30)) && CALL_FILE[18..30] == "function(){}"
  {
    CallFileBytes(CALL_FILE);
    CallFileStart(CALL_FILE);
    ClosureAt(CALL_FILE, 18);
    hide FirstFunction, FirstBody, Balances, WalkLeft;
  }

  lemma CallFileBytes(s: string)
    requires s == CALL_FILE
    ensures |s| == 32 && s[18..30] == "function(){}" && s[18..29] == "function(){" && s[29] == '}'
    ensures s[17] == '(' && s[12] == 'c' && s[8] == '_'
    ensures forall k | 0 <= k < 18 :: Inert(s[k]) && !StartsHeredoc(s, k) && (s[k] == 'f' ==> k == 9)
  {
    assert s[18..29] == "function(){";
  }

  lemma CallFileStart(s: string)
    requires |s| == 32 && s[17] == '(' && s[12] == 'c'
    ensures WalkLeft(s, 0, 18) == 18
  {
    assert BackOver(s, 0, 17) == 17;
    if StaticEndsAt(s, 0, 17) {
      MatchesByte(s, 12, STATIC, 0);
    }
  }

  // ---------- An escaped quote ----------

  /** The brace in the string, which a backslash keeps open, closes nothing. */
  lemma EscapedQuoteStaysOpen()
    ensures var s := "{\"\\\"}\"}"; |s| == 7 && Balances(s, 0, 7) && !Balances(s, 0, 5)
  {
    var s := "{\"\\\"}\"}";
    OneBrace(s, 0);
    assert Run(s, 0, 1) == At(Normal) && Run(s, 0, 2) == At(DqString);
    assert Run(s, 0, 3) == Skipped(DqString) && Run(s, 0, 4) == At(DqString) && Run(s, 0, 5) == At(DqString);
    assert Run(s, 0, 6) == At(Normal);
    hide Run;
    assert Braces(s, 0, 2) == 1 && Braces(s, 0, 3) == 1 && Braces(s, 0, 4) == 1;
    assert Braces(s, 0, 5) == 1 && Braces(s, 0, 6) == 1 && Braces(s, 0, 7) == 0;
  }

  // ---------- Files that return one closure ----------

  const BEFORE_CLOSURE := "<?php return "

  function FileOf(t: string): string {
    BEFORE_CLOSURE + t + ";"
  }

  ghost predicate StartsFunction(t: string) {
    8 < |t| && t[..8] == FUNCTION && !IsIdentByte(t[8])
  }

  /** The extraction from such a file is the extraction from the closure alone. */
  lemma FileCut(t: string, b: nat)
    requires StartsFunction(t) && b <= |t| && FirstBody(t, 0, b) && Balances(t, b, |t|)
    ensures IsCut(FileOf(t), 1, Cut(0, 13, 13, 13 + b, 13 + |t|)) && FileOf(t)[13..13 + |t|] == t
  {
    var s := FileOf(t);
    assert s[13..13 + |t|] == t;
    SliceWithin(s, 13, 13 + |t|);
    FileKeyword(s, t);
    FileStart(s, t);
    FileBody(s, t, b);
    hide FirstFunction, FirstBody, Balances, WalkLeft;
  }

  lemma FileBody(s: string, t: string, b: nat)
    requires Within(t, s, 13) && FirstBody(t, 0, b) && Balances(t, b, |t|)
    ensures FirstBody(s, 13, 13 + b) && Balances(s, 13 + b, 13 + |t|)
  {
    BalancesWithin(t, s, 13, b, |t|);
    hide OpensBody, Balances, Within;
    OpensBodyWithin(t, s, 13, 0, b);
    forall x | 13 <= x < 13 + b
      ensures !OpensBody(s, 13, x)
    {
      OpensBodyWithin(t, s, 13, 0, x - 13);
    }
  }

  lemma BeforeBytes(s: string, t: string)
    requires s == FileOf(t) && StartsFunction(t)
    ensures |s| == |t| + 14 && s[13..21] == FUNCTION && !IsIdentByte(s[21])
    ensures forall k | 0 <= k < 13 :: Inert(s[k]) && s[k] != 'f' && !StartsHeredoc(s, k) && s[k] == BEFORE_CLOSURE[k]
  {
    assert forall k | 0 <= k < 13 :: s[k] == BEFORE_CLOSURE[k];
    assert forall k | 0 <= k < |t| :: s[13 + k] == t[k];
    assert s[13..21] == t[..8];
    assert s[13] == t[..8][0] == FUNCTION[0];
  }

  lemma FileKeyword(s: string, t: string)
    requires s == FileOf(t) && StartsFunction(t)
    ensures FirstFunction(s, 0, 13)
  {
    BeforeBytes(s, t);
    ScanInert(s, 0, 13);
    MatchesByte(s, 13, FUNCTION, 0);
    hide ScanRun, FileOf;
    assert Found(s, 0, 13, FUNCTION);
    forall x | 0 <= x < 13
      ensures !Found(s, 0, x, FUNCTION)
    {
      FoundBeginsWithF(s, 0, x);
    }
  }

  lemma FileStart(s: string, t: string)
    requires s == FileOf(t) && StartsFunction(t)
    ensures WalkLeft(s, 0, 13) == 13
  {
    BeforeBytes(s, t);
    assert s[12] == ' ' && s[11] == 'n' && s[6] == 'r';
    assert BackOver(s, 0, 12) == 11;
    if StaticEndsAt(s, 0, 11) {
      MatchesByte(s, 6, STATIC, 0);
    }
  }

  // ---------- A brace in the header ----------

  /** A closure whose parameter has a heredoc for its default: the text of one closing brace. */
  const HEREDOC_CLOSURE := "function($a=<<<X\n}\nX\n){}"

  /** The closure is extracted in full, but its header does not balance, and so its wrapper closes too early. */
  lemma WrapperCanBreak()
    ensures IsCut(FileOf(HEREDOC_CLOSURE), 1, Cut(0, 13, 13, 35, 37))
    ensures FileOf(HEREDOC_CLOSURE)[13..37] == HEREDOC_CLOSURE
    ensures '\0' !in HEREDOC_CLOSURE && !HeaderBalanced(HEREDOC_CLOSURE, 22)
    ensures !Balances(Wrap(HEREDOC_CLOSURE), 43, |Wrap(HEREDOC_CLOSURE)| - 1)
  {
    HeredocHasBytes(HEREDOC_CLOSURE);
    HeredocBody(HEREDOC_CLOSURE);
    HeredocHeader(HEREDOC_CLOSURE);
    FileCut(HEREDOC_CLOSURE, 22);
    hide IsCut, FirstBody, Balances, HeaderBalanced, Wrap, FileOf;
    WrapperMatches(FileOf(HEREDOC_CLOSURE), 1, Cut(0, 13, 13, 35, 37));
  }

  /** The bytes of the closure that matter. */
  ghost predicate HeredocBytes(t: string) {
    && |t| == 24 && t[..8] == FUNCTION && t[8] == '(' && t[17] == '}' && t[21] == ')' && t[22] == '{' && t[23] == '}'
    && (forall k | 0 <= k < 22 :: Inert(t[k]) && t[k] != '{')
    && (forall k | 0 <= k < 21 && k != 8 :: t[k] != '(' && t[k] != ')')
    && (forall k | 0 <= k < 17 :: t[k] != '}')
    && '\0' !in t
  }

  lemma HeredocHasBytes(t: string)
    requires t == HEREDOC_CLOSURE
    ensures HeredocBytes(t)
  {
  }

  lemma HeredocBody(t: string)
    requires HeredocBytes(t)
    ensures StartsFunction(t) && FirstBody(t, 0, 22) && Balances(t, 22, 24)
  {
    HeaderOpens(t, 0, 8, 21);
    EmptyBody(t, 22);
    hide FirstBody, Balances;
  }

  lemma HeredocHeader(t: string)
    requires HeredocBytes(t)
    ensures !HeaderBalanced(t, 22)
  {
    RunInert(t, 0, 17);
    NestingFlat(t, 0, 0, 17, '{', '}');
    assert Weight(t, 0, 17, '{', '}') == -1;
    assert Braces(t, 0, 18) == -1;
  }

  // ---------- A NUL in the body ----------

  /** A closure that returns a string of one NUL byte. */
  const NUL_CLOSURE := "function(){return '\0';}"

  /** The closure is extracted in full and its header balances, but the wrapper is cut inside its body. */
  lemma NulBreaksWrapper()
    ensures IsCut(FileOf(NUL_CLOSURE), 1, Cut(0, 13, 13, 23, 36)) && FileOf(NUL_CLOSURE)[13..36] == NUL_CLOSURE
    ensures HeaderBalanced(NUL_CLOSURE, 10) && BeforeNul(NUL_CLOSURE) == NUL_CLOSURE[..19]
    ensures !Balances(Wrap(NUL_CLOSURE), 43, |Wrap(NUL_CLOSURE)| - 1)
  {
    NulHasBytes(NUL_CLOSURE);
    NulIsCut(NUL_CLOSURE);
  }

  lemma NulIsCut(t: string)
    requires NulBytes(t)
    ensures IsCut(FileOf(t), 1, Cut(0, 13, 13, 23, 36)) && FileOf(t)[13..36] == t
    ensures HeaderBalanced(t, 10) && BeforeNul(t) == t[..19]
    ensures !Balances(Wrap(t), 43, |Wrap(t)| - 1)
  {
    NulBody(t);
    NulCut(t);
    FileCut(t, 10);
    assert t[19] == '\0';
    hide IsCut, StartsFunction, FirstBody, Balances, HeaderBalanced, Wrap, FileOf, BeforeNul, NulBytes;
    WrapperMatches(FileOf(t), 1, Cut(0, 13, 13, 23, 36));
  }

  ghost predicate NulBytes(t: string) {
    && |t| == 23 && t[..8] == FUNCTION && t[8] == '(' && t[9] == ')' && t[10] == '{'
    && (forall k | 0 <= k < 18 && k != 10 :: Inert(t[k]) && t[k] != '{' && t[k] != '}')
    && (forall k | 0 <= k < 8 :: t[k] != '(' && t[k] != ')')
    && t[18] == '\'' && t[19] == '\0' && t[20] == '\'' && t[21] == ';' && t[22] == '}'
    && '\0' !in t[..19]
  }

  lemma NulHasBytes(t: string)
    requires t == NUL_CLOSURE
    ensures NulBytes(t)
  {
  }

  lemma NulBody(t: string)
    requires NulBytes(t)
    ensures StartsFunction(t) && HeaderBalanced(t, 10) && FirstBody(t, 0, 10) && Balances(t, 10, 23)
  {
    HeaderOpens(t, 0, 8, 9);
    QuoteBody(t, 10, 18);
    PlainHeaderIsBalanced(t, 10);
    hide FirstBody, Balances, HeaderBalanced;
  }

  lemma NulCut(t: string)
    requires NulBytes(t)
    ensures BeforeNul(t) == t[..19]
  {
    hide BeforeNul;
  }

  /** A body that ends in a string of one byte. */
  lemma QuoteBody(s: string, b: nat, q: nat)
    requires b < q && q + 4 < |s| && s[b] == '{' && (forall k | b < k < q :: Inert(s[k]) && s[k] != '{' && s[k] != '}')
    requires s[q] == '\'' && s[q + 1] == '\0' && s[q + 2] == '\'' && s[q + 3] == ';' && s[q + 4] == '}'
    ensures Balances(s, b, q + 5)
  {
    OneBrace(s, b);
    RunInert(s, b, q);
    assert Run(s, b, q + 1) == At(SqString);
    assert Run(s, b, q + 2) == At(SqString);
    assert Run(s, b, q + 3) == At(Normal);
    assert Run(s, b, q + 4) == At(Normal);
    assert Weight(s, b, q + 4, '{', '}') == -1;
    hide Run, Weight;
    forall i | b < i <= q + 4
      ensures Braces(s, b, i) == 1
    {
      NestingFlat(s, b, b + 1, i, '{', '}');
    }
    assert Braces(s, b, q + 5) == Braces(s, b, q + 4) + Weight(s, b, q + 4, '{', '}');
  }
}
