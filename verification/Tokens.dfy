/**
 Where strings, comments and heredocs end, said on the text alone, and that the lexer and the keyword scanner are in normal
 state exactly between these tokens.
 */
module Tokens {
  import opened Lexer
  import opened Scanners

  // ---------- On the text ----------

  /** How many backslashes stand directly before byte `i`, counted back to `lo`. */
  function Backslashes(s: string, lo: nat, i: nat): nat
    requires i <= |s|
    decreases i
  {
    if i <= lo || s[i - 1] != '\\' then 0 else 1 + Backslashes(s, lo, i - 1)
  }

  predicate BeginsString(s: string, q: nat) {
    q < |s| && (s[q] == '\'' || s[q] == '"')
  }

  /** Two slashes, or a hash that begins no attribute. */
  predicate BeginsLineComment(s: string, q: nat) {
    q < |s| && if s[q] == '#' then q + 1 == |s| || s[q + 1] != '[' else q + 1 < |s| && s[q] == s[q + 1] == '/'
  }

  predicate BeginsBlockComment(s: string, q: nat) {
    q + 1 < |s| && s[q] == '/' && s[q + 1] == '*'
  }

  /** Before `e` ends a quote like the one at `q`, with an even number of backslashes before it. */
  predicate StringCloses(s: string, q: nat, e: nat) {
    q + 1 < e <= |s| && s[e - 1] == s[q] && Backslashes(s, q + 1, e - 1) % 2 == 0
  }

  predicate LineCommentCloses(s: string, q: nat, e: nat) {
    q + 1 < e <= |s| && s[e - 1] == '\n'
  }

  /** The closing bytes do not overlap the opening ones. */
  predicate BlockCommentCloses(s: string, q: nat, e: nat) {
    q + 4 <= e <= |s| && s[e - 2] == '*' && s[e - 1] == '/'
  }

  /** What closes the token at `q` ends before `e`; any other byte is a token of its own. */
  predicate Closes(s: string, q: nat, e: nat) {
    if BeginsString(s, q) then StringCloses(s, q, e)
    else if BeginsLineComment(s, q) then LineCommentCloses(s, q, e)
    else if BeginsBlockComment(s, q) then BlockCommentCloses(s, q, e)
    else e == q + 1 <= |s|
  }

  /** The token that begins at `q` ends before `e`: behind the first bytes that close it. */
  ghost predicate TokenEnds(s: string, q: nat, e: nat) {
    Closes(s, q, e) && forall x | q < x < e :: !Closes(s, q, x)
  }

  /** Tokens that follow one another lead from `from` to `i`. */
  ghost predicate Between(s: string, from: nat, i: nat)
    decreases i
  {
    i == from || exists q: nat | from <= q < i :: Between(s, from, q) && TokenEnds(s, q, i)
  }

  // ---------- The lexer ----------

  /** The lexer is in normal state nowhere strictly between `q` and `i`. */
  ghost predicate Away(s: string, from: nat, q: nat, i: nat)
    requires from <= q && i <= |s|
  {
    forall x | q < x < i :: Run(s, from, x) != At(Normal)
  }

  /** Behind `q` the lexer is next in normal state at `e`. */
  ghost predicate NextNormal(s: string, from: nat, q: nat, e: nat) {
    from <= q < e <= |s| && Run(s, from, e) == At(Normal) && Away(s, from, q, e)
  }

  /** The lexer inside a string or comment that begins at `q` and is not closed yet. */
  function Inside(s: string, q: nat, i: nat): Cursor
    requires q < i <= |s|
  {
    if BeginsString(s, q) then
      var m := if s[q] == '"' then DqString else SqString;
      if Backslashes(s, q + 1, i) % 2 == 1 && i < |s| && s[i] != '\0' then Skipped(m) else At(m)
    else if BeginsLineComment(s, q) then
      if i == q + 1 && s[q] == '/' then Skipped(LineComment) else At(LineComment)
    else
      if i == q + 1 then Skipped(BlockComment)
      else if BlockCommentCloses(s, q, i + 1) then Skipped(Normal) else At(BlockComment)
  }

  /** The first byte of a token. */
  lemma EntersToken(s: string, from: nat, q: nat)
    requires IsCode(s, from, q)
    ensures Run(s, from, q + 1) == if Closes(s, q, q + 1) then At(Normal) else Inside(s, q, q + 1)
    ensures Closes(s, q, q + 1) || Inside(s, q, q + 1) != At(Normal)
  {
    assert Run(s, from, q + 1) == Step(Normal, s[q], Peek(s, q));
    hide Run;
  }

  /** One byte inside a token: the token is closed behind it, or it goes on. */
  lemma StaysInToken(s: string, from: nat, q: nat, i: nat)
    requires from <= q && q + 1 < i <= |s| && !Closes(s, q, q + 1) && Run(s, from, i - 1) == Inside(s, q, i - 1)
    ensures Run(s, from, i) == if Closes(s, q, i) then At(Normal) else Inside(s, q, i)
    ensures Closes(s, q, i) || Inside(s, q, i) != At(Normal)
  {
    assert Run(s, from, i) == Advance(Inside(s, q, i - 1), s[i - 1], Peek(s, i - 1));
    hide Run;
  }

  /** Up to where it is first closed the lexer is inside the token, and there it is in normal state. */
  lemma {:induction false} RunInToken(s: string, from: nat, q: nat, i: nat)
    requires IsCode(s, from, q) && q < i <= |s| && forall x | q < x < i :: !Closes(s, q, x)
    ensures Run(s, from, i) == if Closes(s, q, i) then At(Normal) else Inside(s, q, i)
    ensures Closes(s, q, i) || Inside(s, q, i) != At(Normal)
    decreases i
  {
    hide Run, Closes, Inside;
    if i == q + 1 {
      EntersToken(s, from, q);
    } else {
      RunInToken(s, from, q, i - 1);
      StaysInToken(s, from, q, i);
    }
  }

  /** From the first byte of a token the lexer is next in normal state exactly where the token ends. */
  lemma {:induction false} TokenIsNext(s: string, from: nat, q: nat, e: nat)
    requires IsCode(s, from, q)
    ensures NextNormal(s, from, q, e) <==> TokenEnds(s, q, e)
  {
    ClosesInText(s, q, e);
    hide Run, Closes, Inside;
    if TokenEnds(s, q, e) {
      forall x | q < x <= e
        ensures Run(s, from, x) == At(Normal) <==> x == e
      {
        RunInToken(s, from, q, x);
      }
    } else if NextNormal(s, from, q, e) {
      NotClosedBefore(s, from, q, e);
      RunInToken(s, from, q, e);
    }
  }

  lemma ClosesInText(s: string, q: nat, e: nat)
    ensures Closes(s, q, e) ==> q < e <= |s|
  {
  }

  lemma {:induction false} NotClosedBefore(s: string, from: nat, q: nat, i: nat)
    requires IsCode(s, from, q) && q < i <= |s| && forall x | q < x < i :: Run(s, from, x) != At(Normal)
    ensures forall x | q < x < i :: !Closes(s, q, x)
    decreases i
  {
    hide Run, Closes, Inside;
    if i > q + 1 {
      NotClosedBefore(s, from, q, i - 1);
      RunInToken(s, from, q, i - 1);
    }
  }

  lemma {:induction false} LastNormal(s: string, from: nat, i: nat) returns (q: nat)
    requires from < i <= |s|
    ensures from <= q < i && Run(s, from, q) == At(Normal)
    ensures forall x | q < x < i :: Run(s, from, x) != At(Normal)
    decreases i
  {
    if i == from + 1 || Run(s, from, i - 1) == At(Normal) {
      q := i - 1;
    } else {
      q := LastNormal(s, from, i - 1);
    }
  }

  /** The lexer is in normal state exactly between tokens: a byte is code if and only if a chain of tokens leads to it. */
  lemma {:induction false} NormalIffBetween(s: string, from: nat, i: nat)
    requires from <= i <= |s|
    ensures Run(s, from, i) == At(Normal) <==> Between(s, from, i)
    decreases i
  {
    hide TokenEnds;
    if i > from {
      forall q: nat | from <= q < i && Between(s, from, q) && TokenEnds(s, q, i)
        ensures Run(s, from, i) == At(Normal)
      {
        NormalIffBetween(s, from, q);
        TokenIsNext(s, from, q, i);
      }
      var q := LastNormal(s, from, i);
      NormalIffBetween(s, from, q);
      TokenIsNext(s, from, q, i);
      hide Run;
    }
  }

  // ---------- Heredocs, on the text ----------

  /** No blank at `i`. */
  predicate StopsBlanks(s: string, i: nat) {
    i < |s| ==> s[i] != ' ' && s[i] != '\t'
  }

  ghost predicate AreBlanks(s: string, lo: nat, hi: nat) {
    lo <= hi <= |s| && forall x | lo <= x < hi :: s[x] == ' ' || s[x] == '\t'
  }

  /** The blanks up to `first`, the label from `lo` to `hi`, and where the search for the closing label begins. */
  datatype Opening = Opening(first: nat, lo: nat, hi: nat, body: nat)

  /** Behind `<<<`: blanks, perhaps a quote, a label of at most 63 bytes, and the quote again if the label has one. */
  ghost predicate Opens(s: string, i: nat, o: Opening) {
    && AreBlanks(s, i + 3, o.first) && StopsBlanks(s, o.first)
    && o.lo == (if o.first < |s| && s[o.first] == '\'' then o.first + 1 else o.first)
    && o.lo <= o.hi <= o.lo + 63 && o.hi <= |s| && (forall x | o.lo <= x < o.hi :: s[x] in IDENT)
    && (o.hi < o.lo + 63 && o.hi < |s| ==> s[o.hi] !in IDENT)
    && o.body == (if o.lo > o.first && o.hi < |s| && s[o.hi] == '\'' then o.hi + 1 else o.hi)
  }

  /** A newline at `m`, then blanks, then the label, which ends before `e` and before any identifier byte. */
  ghost predicate ClosesLine(s: string, word: string, m: nat, e: nat) {
    && m + 1 + |word| <= e <= |s| && s[m] == '\n'
    && AreBlanks(s, m + 1, e - |word|) && StopsBlanks(s, e - |word|)
    && s[e - |word|..e] == word && (e < |s| ==> s[e] !in IDENT)
  }

  ghost predicate LineCloses(s: string, word: string, m: nat) {
    exists e: nat :: ClosesLine(s, word, m, e)
  }

  /** The first line at or behind `from` that closes ends with its label at `e`; the text ends at `e` if there is none. */
  ghost predicate FirstClose(s: string, word: string, from: nat, e: nat) {
    if exists m: nat :: from <= m && LineCloses(s, word, m)
    then exists m: nat :: from <= m && ClosesLine(s, word, m, e) && forall x | from <= x < m :: !LineCloses(s, word, x)
    else e == |s|
  }

  /** The heredoc or nowdoc at `i` extends to `e`. */
  ghost predicate HeredocSpans(s: string, i: nat, e: nat) {
    exists o :: Opens(s, i, o) && FirstClose(s, s[o.lo..o.hi], o.body, e)
  }

  lemma {:induction false} BlanksSkipped(s: string, j: nat, k: nat)
    requires j <= |s|
    ensures SkipBlanks(s, j) == k <==> AreBlanks(s, j, k) && StopsBlanks(s, k)
    decreases |s| - j
  {
    if j < |s| && IsBlank(s[j]) {
      BlanksSkipped(s, j + 1, k);
    }
  }

  lemma {:induction false} LabelRead(s: string, j: nat, room: nat)
    requires j <= |s|
    ensures var k := LabelEnd(s, j, room);
            && k <= j + room && (forall x | j <= x < k :: s[x] in IDENT)
            && (k < j + room && k < |s| ==> s[k] !in IDENT)
    decreases |s| - j
  {
    hide IDENT, IsIdentByte;
    if room > 0 && j < |s| {
      IdentBytes(s[j]);
      if IsIdentByte(s[j]) {
        LabelRead(s, j + 1, room - 1);
      }
    }
  }

  lemma ClosesLineIff(s: string, word: string, m: nat, e: nat)
    ensures ClosesLine(s, word, m, e) <==> ClosesAt(s, m, word) && e == SkipBlanks(s, m + 1) + |word|
  {
    hide IDENT, IsIdentByte, AreBlanks, StopsBlanks, SkipBlanks;
    if m < |s| {
      BlanksSkipped(s, m + 1, SkipBlanks(s, m + 1));
      if e >= |word| {
        BlanksSkipped(s, m + 1, e - |word|);
      }
    }
    if e < |s| {
      IdentBytes(s[e]);
    }
  }

  lemma LineClosesIff(s: string, word: string, m: nat)
    ensures LineCloses(s, word, m) <==> ClosesAt(s, m, word)
  {
    hide ClosesLine;
    if ClosesAt(s, m, word) {
      ClosesLineIff(s, word, m, SkipBlanks(s, m + 1) + |word|);
    }
    if e: nat :| ClosesLine(s, word, m, e) {
      ClosesLineIff(s, word, m, e);
    }
  }

  lemma {:induction false} FirstCloseIs(s: string, word: string, from: nat)
    requires from <= |s|
    ensures FirstClose(s, word, from, CloseFrom(s, from, word))
    decreases |s| - from
  {
    LineClosesIff(s, word, from);
    hide ClosesLine, LineCloses;
    if from == |s| {
      forall m: nat | from <= m
        ensures !LineCloses(s, word, m)
      {
        LineClosesIff(s, word, m);
      }
    } else if ClosesAt(s, from, word) {
      ClosesLineIff(s, word, from, SkipBlanks(s, from + 1) + |word|);
      assert from <= from && LineCloses(s, word, from);
    } else {
      FirstCloseIs(s, word, from + 1);
      hide CloseFrom;
      CloseLater(s, word, from, CloseFrom(s, from + 1, word));
    }
  }

  lemma CloseLater(s: string, word: string, from: nat, e: nat)
    requires !LineCloses(s, word, from) && FirstClose(s, word, from + 1, e)
    ensures FirstClose(s, word, from, e)
  {
    hide ClosesLine, LineCloses;
    if m: nat :| from <= m && LineCloses(s, word, m) {
      assert from + 1 <= m;
      var n: nat :| from + 1 <= n && ClosesLine(s, word, n, e) && forall x | from + 1 <= x < n :: !LineCloses(s, word, x);
      assert forall x | from <= x < n :: !LineCloses(s, word, x);
    } else {
      forall m: nat | from + 1 <= m
        ensures !LineCloses(s, word, m)
      {
        assert from <= m;
      }
    }
  }

  lemma FirstCloseUnique(s: string, word: string, from: nat, e: nat, e': nat)
    requires FirstClose(s, word, from, e) && FirstClose(s, word, from, e')
    ensures e == e'
  {
    hide ClosesLine;
    if m: nat :| from <= m && LineCloses(s, word, m) {
      var n: nat :| from <= n && ClosesLine(s, word, n, e) && forall x | from <= x < n :: !LineCloses(s, word, x);
      var n': nat :| from <= n' && ClosesLine(s, word, n', e') && forall x | from <= x < n' :: !LineCloses(s, word, x);
      assert LineCloses(s, word, n) && LineCloses(s, word, n');
      ClosesLineIff(s, word, n, e);
      ClosesLineIff(s, word, n, e');
    }
  }

  lemma OpensUnique(s: string, i: nat, o: Opening, o': Opening)
    requires i + 3 <= |s| && Opens(s, i, o) && Opens(s, i, o')
    ensures o == o'
  {
    BlanksSkipped(s, i + 3, o.first);
    BlanksSkipped(s, i + 3, o'.first);
    hide AreBlanks, StopsBlanks, SkipBlanks, IDENT;
  }

  /** Where the scanner's heredoc handling ends. */
  lemma HeredocEndIff(s: string, i: nat, e: nat)
    requires StartsHeredoc(s, i)
    ensures HeredocEnd(s, i) == e <==> HeredocSpans(s, i, e)
  {
    var o := OpeningOf(s, i);
    hide HeredocEnd, Opens, FirstClose, CloseFrom;
    FirstCloseIs(s, s[o.lo..o.hi], o.body);
    if o' :| Opens(s, i, o') && FirstClose(s, s[o'.lo..o'.hi], o'.body, e) {
      OpensUnique(s, i, o, o');
      FirstCloseUnique(s, s[o.lo..o.hi], o.body, e, HeredocEnd(s, i));
    }
  }

  lemma OpeningOf(s: string, i: nat) returns (o: Opening)
    requires StartsHeredoc(s, i)
    ensures Opens(s, i, o) && HeredocEnd(s, i) == CloseFrom(s, o.body, s[o.lo..o.hi])
  {
    hide SkipBlanks, LabelEnd, AreBlanks, StopsBlanks, CloseFrom, IDENT;
    var first := SkipBlanks(s, i + 3);
    var nowdoc := first < |s| && s[first] == '\'';
    var lo := if nowdoc then first + 1 else first;
    var hi := LabelEnd(s, lo, 63);
    o := Opening(first, lo, hi, if nowdoc && hi < |s| && s[hi] == '\'' then hi + 1 else hi);
    BlanksSkipped(s, i + 3, first);
    LabelRead(s, lo, 63);
  }

  // ---------- The keyword scanner ----------

  /** As `TokenEnds`, where a heredoc is a token too, together with the byte behind it. */
  ghost predicate ScanTokenEnds(s: string, q: nat, e: nat) {
    if q + 3 <= |s| && s[q..q + 3] == "<<<" then 0 < e <= |s| && HeredocSpans(s, q, e - 1)
    else TokenEnds(s, q, e)
  }

  ghost predicate ScanBetween(s: string, from: nat, i: nat)
    decreases i
  {
    i == from || exists q: nat | from <= q < i :: ScanBetween(s, from, q) && ScanTokenEnds(s, q, i)
  }

  /** The scanner is in normal state nowhere strictly between `q` and `i`. */
  ghost predicate ScanAway(s: string, from: nat, q: nat, i: nat)
    requires from <= q && i <= |s|
  {
    forall x | q < x < i :: ScanRun(s, from, x) != Lex(At(Normal))
  }

  ghost predicate NextScan(s: string, from: nat, q: nat, e: nat) {
    from <= q < e <= |s| && ScanRun(s, from, e) == Lex(At(Normal)) && ScanAway(s, from, q, e)
  }

  /** Between two points of normal state the scanner is the lexer, unless a heredoc begins. */
  lemma {:induction false} ScanInToken(s: string, from: nat, q: nat, i: nat)
    requires from <= q < i <= |s| && ScanRun(s, from, q) == Lex(At(Normal)) && !StartsHeredoc(s, q)
    ensures Away(s, q, q, i) ==> ScanRun(s, from, i) == Lex(Run(s, q, i))
    ensures Away(s, q, q, i) <==> ScanAway(s, from, q, i)
    decreases i
  {
    if i == q + 1 {
      assert Run(s, q, q) == At(Normal);
    } else {
      ScanInToken(s, from, q, i - 1);
      assert Run(s, q, i) == Advance(Run(s, q, i - 1), s[i - 1], Peek(s, i - 1));
      hide Run, ScanRun;
      assert Away(s, q, q, i) <==> Away(s, q, q, i - 1) && Run(s, q, i - 1) != At(Normal);
      assert ScanAway(s, from, q, i) <==> ScanAway(s, from, q, i - 1) && ScanRun(s, from, i - 1) != Lex(At(Normal));
      hide Away, ScanAway;
      if Away(s, q, q, i) {
        ScanStep(s, from, i);
      }
    }
  }

  lemma ScanStep(s: string, from: nat, i: nat)
    requires from < i <= |s| && ScanRun(s, from, i - 1).Lex? && ScanRun(s, from, i - 1) != Lex(At(Normal))
    ensures ScanRun(s, from, i) == Lex(Advance(ScanRun(s, from, i - 1).cur, s[i - 1], Peek(s, i - 1)))
  {
  }

  /** From a heredoc on, the scanner is next in normal state one byte behind its end. */
  lemma HeredocIsNext(s: string, from: nat, q: nat, e: nat)
    requires from <= q < |s| && ScanRun(s, from, q) == Lex(At(Normal)) && StartsHeredoc(s, q)
    ensures NextScan(s, from, q, e) <==> 0 < e <= |s| && HeredocSpans(s, q, e - 1)
  {
    hide *;
    var j := HeredocEnd(s, q);
    if 0 < e {
      HeredocEndIff(s, q, e - 1);
    }
    forall x: nat | q < x <= j + 1 && x <= |s|
      ensures ScanRun(s, from, x) == Lex(At(Normal)) <==> x == j + 1
    {
      ScanOver(s, from, q, x);
    }
    OnlyNext(s, from, q, j + 1, e);
  }

  /** Where the scanner is first in normal state again, it is next. */
  lemma OnlyNext(s: string, from: nat, q: nat, n: nat, e: nat)
    requires from <= q < n && forall x: nat | q < x <= n && x <= |s| :: ScanRun(s, from, x) == Lex(At(Normal)) <==> x == n
    ensures NextScan(s, from, q, e) <==> e == n <= |s|
  {
    hide ScanRun;
    if n <= |s| {
      assert ScanRun(s, from, n) == Lex(At(Normal));
    }
  }

  /** From any other token on, where the token ends. */
  lemma ScanTokenIsNext(s: string, from: nat, q: nat, e: nat)
    requires from <= q < |s| && ScanRun(s, from, q) == Lex(At(Normal)) && !StartsHeredoc(s, q)
    ensures NextScan(s, from, q, e) <==> TokenEnds(s, q, e)
  {
    assert Run(s, q, q) == At(Normal);
    TokenIsNext(s, q, q, e);
    hide Run, ScanRun, TokenEnds;
    if q < e <= |s| {
      ScanInToken(s, from, q, e);
    }
  }

  lemma NextScanIff(s: string, from: nat, q: nat, e: nat)
    requires from <= q < |s| && ScanRun(s, from, q) == Lex(At(Normal))
    ensures NextScan(s, from, q, e) <==> ScanTokenEnds(s, q, e)
  {
    hide ScanRun, TokenEnds, HeredocSpans, NextScan;
    if q + 3 <= |s| {
      assert s[q..q + 3] == [s[q], s[q + 1], s[q + 2]];
    }
    if StartsHeredoc(s, q) {
      HeredocIsNext(s, from, q, e);
    } else {
      ScanTokenIsNext(s, from, q, e);
    }
  }

  lemma {:induction false} LastScan(s: string, from: nat, i: nat) returns (q: nat)
    requires from < i <= |s|
    ensures from <= q < i && ScanRun(s, from, q) == Lex(At(Normal))
    ensures forall x | q < x < i :: ScanRun(s, from, x) != Lex(At(Normal))
    decreases i
  {
    if i == from + 1 || ScanRun(s, from, i - 1) == Lex(At(Normal)) {
      q := i - 1;
    } else {
      q := LastScan(s, from, i - 1);
    }
  }

  /** The keyword scanner is in normal state exactly between tokens, heredocs among them. */
  lemma {:induction false} ScanIffBetween(s: string, from: nat, i: nat)
    requires from <= i <= |s|
    ensures ScanRun(s, from, i) == Lex(At(Normal)) <==> ScanBetween(s, from, i)
    decreases i
  {
    hide ScanTokenEnds;
    if i > from {
      forall q: nat | from <= q < i && ScanBetween(s, from, q) && ScanTokenEnds(s, q, i)
        ensures ScanRun(s, from, i) == Lex(At(Normal))
      {
        ScanIffBetween(s, from, q);
        NextScanIff(s, from, q, i);
      }
      var q := LastScan(s, from, i);
      ScanIffBetween(s, from, q);
      NextScanIff(s, from, q, i);
      hide ScanRun;
    }
  }

  /**
   A keyword is found exactly where a chain of tokens leads, the next token is a single byte of code, the bytes of the
   keyword stand there, and the bytes beside them are none of the 63 of an identifier.
   */
  lemma FoundOnText(s: string, from: nat, i: nat, keyword: string)
    requires from <= i < |s|
    ensures Found(s, from, i, keyword)
       <==> && ScanBetween(s, from, i) && ScanTokenEnds(s, i, i + 1)
            && i + |keyword| <= |s| && s[i..i + |keyword|] == keyword && !TouchesIdent(s, i, |keyword|)
  {
    FoundIff(s, from, i, keyword);
    ScanIffBetween(s, from, i);
    if ScanRun(s, from, i) == Lex(At(Normal)) {
      SingleByte(s, i);
    }
    hide ScanRun, ScanBetween, ScanTokenEnds, TouchesIdent, Step;
  }

  lemma SingleByte(s: string, i: nat)
    requires i < |s|
    ensures Step(Normal, s[i], Peek(s, i)) == At(Normal) && !StartsHeredoc(s, i) <==> ScanTokenEnds(s, i, i + 1)
  {
    if i + 3 <= |s| {
      assert s[i..i + 3] == [s[i], s[i + 1], s[i + 2]];
    }
    if StartsHeredoc(s, i) {
      HeredocEndIff(s, i, i);
    }
    hide HeredocSpans, HeredocEnd;
  }
}
