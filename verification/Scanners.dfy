/**
 The scanning loops of bridge_closure.c, each proved against the lexer: lines, keywords, the closure's header and body.
 An offset of -1 is the C code's "not found".
 */
module Scanners {
  import opened Lexer

  // ---------- Lines ----------

  /** How many newlines stand before offset `i`. */
  function Newlines(s: string, i: nat): nat
    requires i <= |s|
  {
    if i == 0 then 0 else Newlines(s, i - 1) + (if s[i - 1] == '\n' then 1 else 0)
  }

  lemma {:induction false} NewlinesMonotone(s: string, i: nat, j: nat)
    requires i <= j <= |s|
    ensures Newlines(s, i) <= Newlines(s, j)
    decreases j
  {
    if i < j {
      NewlinesMonotone(s, i, j - 1);
    }
  }

  /** `offset_of_line`: right behind the newline that ends the line before; -1 if there are not that many lines. */
  method OffsetOfLine(s: string, lineNo: int) returns (r: int)
    ensures lineNo <= 1 ==> r == 0
    ensures lineNo > 1 && r >= 0 ==> 0 < r <= |s| && s[r - 1] == '\n' && Newlines(s, r) == lineNo - 1
    ensures r < 0 <==> lineNo > 1 && Newlines(s, |s|) < lineNo - 1
    ensures r >= -1
  {
    if lineNo <= 1 {
      return 0;
    }
    var seen, i := 1, 0;
    while i < |s|
      invariant 0 <= i <= |s| && seen == 1 + Newlines(s, i) && seen < lineNo
    {
      if s[i] == '\n' {
        seen := seen + 1;
        if seen == lineNo {
          NewlinesMonotone(s, i + 1, |s|);
          return i + 1;
        }
      }
      i := i + 1;
    }
    return -1;
  }

  // ---------- Keywords ----------

  predicate IsIdentByte(c: char) {
    'a' <= c <= 'z' || 'A' <= c <= 'Z' || '0' <= c <= '9' || c == '_'
  }

  const LOWER := "abcdefghijklmnopqrstuvwxyz"
  const UPPER := "ABCDEFGHIJKLMNOPQRSTUVWXYZ"
  const IDENT := LOWER + UPPER + "0123456789_"

  /** The ranges hold just these 63 bytes. */
  lemma IdentBytes(c: char)
    ensures IsIdentByte(c) <==> c in IDENT
  {
    LowerBytes(c);
    UpperBytes(c);
    hide LOWER, UPPER;
    assert c in IDENT <==> c in LOWER || c in UPPER || c in "0123456789_";
  }

  lemma LowerBytes(c: char)
    ensures 'a' <= c <= 'z' <==> c in LOWER
  {
  }

  lemma UpperBytes(c: char)
    ensures 'A' <= c <= 'Z' <==> c in UPPER
  {
  }

  predicate IsBlank(c: char) {
    c == ' ' || c == '\t'
  }

  /** `memcmp` inside the text: the bytes of `w` stand at `p`. */
  predicate Matches(s: string, p: nat, w: string) {
    p + |w| <= |s| && s[p..p + |w|] == w
  }

  lemma MatchesByte(s: string, p: nat, w: string, i: nat)
    requires Matches(s, p, w) && i < |w|
    ensures s[p + i] == w[i]
  {
    assert s[p..p + |w|][i] == s[p + i];
  }

  /** A match inside a slice is a match in the text. */
  lemma MatchesInSlice(s: string, a: nat, e: nat, p: nat, w: string)
    requires a <= e <= |s| && p + |w| <= e - a
    ensures Matches(s[a..e], p, w) <==> Matches(s, a + p, w)
  {
    var t := s[a..e];
    var x, y := t[p..p + |w|], s[a + p..a + p + |w|];
    assert forall i | 0 <= i < |w| :: x[i] == t[p + i] && y[i] == s[a + p + i];
    assert x == y;
  }

  /** A whole-token occurrence of the keyword. */
  predicate KeywordAt(s: string, i: nat, keyword: string) {
    && Matches(s, i, keyword)
    && (i == 0 || !IsIdentByte(s[i - 1]))
    && (i + |keyword| == |s| || !IsIdentByte(s[i + |keyword|]))
  }

  function SkipBlanks(s: string, j: nat): (r: nat)
    requires j <= |s|
    ensures j <= r <= |s|
    decreases |s| - j
  {
    if j < |s| && IsBlank(s[j]) then SkipBlanks(s, j + 1) else j
  }

  /** The end of an identifier of at most `room` bytes. */
  function LabelEnd(s: string, j: nat, room: nat): (r: nat)
    requires j <= |s|
    ensures j <= r <= |s|
    decreases |s| - j
  {
    if room > 0 && j < |s| && IsIdentByte(s[j]) then LabelEnd(s, j + 1, room - 1) else j
  }

  predicate StartsHeredoc(s: string, i: nat) {
    i + 2 < |s| && s[i] == '<' && s[i + 1] == '<' && s[i + 2] == '<'
  }

  /** The closing label stands on the line that begins behind `j`. */
  predicate ClosesAt(s: string, j: nat, word: string) {
    j < |s| && s[j] == '\n' &&
    var k := SkipBlanks(s, j + 1);
    Matches(s, k, word) && (k + |word| == |s| || !IsIdentByte(s[k + |word|]))
  }

  /** Behind the first closing label at or after `j`; the end of the text if there is none. */
  function CloseFrom(s: string, j: nat, word: string): (r: nat)
    requires j <= |s|
    ensures j <= r <= |s|
    decreases |s| - j
  {
    if j == |s| then j
    else if ClosesAt(s, j, word) then SkipBlanks(s, j + 1) + |word|
    else CloseFrom(s, j + 1, word)
  }

  /** Where the heredoc or nowdoc that begins at `i` ends for the scanner. */
  function HeredocEnd(s: string, i: nat): (r: nat)
    requires StartsHeredoc(s, i)
    ensures i + 3 <= r <= |s|
  {
    var j := SkipBlanks(s, i + 3);
    var nowdoc := j < |s| && s[j] == '\'';
    var from := if nowdoc then j + 1 else j;
    var to := LabelEnd(s, from, 63);
    var body := if nowdoc && to < |s| && s[to] == '\'' then to + 1 else to;
    CloseFrom(s, body, s[from..to])
  }

  /** The keyword scanner before a byte: it lexes, or passes over everything before `until`. */
  datatype Scan = Lex(cur: Cursor) | Over(until: nat)

  /** The keyword scanner: the lexer, which also passes over heredocs and over the byte behind each. */
  function ScanRun(s: string, from: nat, i: nat): Scan
    requires from <= i <= |s|
    decreases i
  {
    if i == from then Lex(At(Normal))
    else match ScanRun(s, from, i - 1)
      case Over(until) => if i >= until then Lex(At(Normal)) else Over(until)
      case Lex(cur) =>
        if cur == At(Normal) && StartsHeredoc(s, i - 1) then Over(HeredocEnd(s, i - 1) + 1)
        else Lex(Advance(cur, s[i - 1], Peek(s, i - 1)))
  }

  /** A whole-token keyword that begins in normal state. */
  predicate Found(s: string, from: nat, i: nat, keyword: string) {
    && from <= i < |s| && ScanRun(s, from, i) == Lex(At(Normal))
    && Step(Normal, s[i], Peek(s, i)) == At(Normal) && !StartsHeredoc(s, i)
    && KeywordAt(s, i, keyword)
  }

  /** An occurrence of the keyword in normal state, whole token or not. */
  predicate CodeMatch(s: string, from: nat, i: nat, keyword: string) {
    && from <= i < |s| && ScanRun(s, from, i) == Lex(At(Normal))
    && Step(Normal, s[i], Peek(s, i)) == At(Normal) && !StartsHeredoc(s, i)
    && i + |keyword| <= |s| && s[i..i + |keyword|] == keyword
  }

  /** The byte before or the byte behind is one of an identifier. */
  predicate TouchesIdent(s: string, i: nat, n: nat) {
    (0 < i <= |s| && s[i - 1] in IDENT) || (i + n < |s| && s[i + n] in IDENT)
  }

  /** Found are the occurrences between bytes that are none of the 63. */
  lemma FoundIff(s: string, from: nat, i: nat, keyword: string)
    ensures Found(s, from, i, keyword) <==> CodeMatch(s, from, i, keyword) && !TouchesIdent(s, i, |keyword|)
  {
    if 0 < i <= |s| {
      IdentBytes(s[i - 1]);
    }
    if i + |keyword| < |s| {
      IdentBytes(s[i + |keyword|]);
    }
    hide ScanRun, IsIdentByte;
  }

  /** What has been passed over has such a byte beside it, and what is found has none. */
  lemma FoundSides(s: string, from: nat, i: nat, keyword: string)
    requires i <= |s| && forall x | from <= x < i :: !Found(s, from, x, keyword)
    ensures forall x | from <= x < i && CodeMatch(s, from, x, keyword) :: TouchesIdent(s, x, |keyword|)
    ensures Found(s, from, i, keyword) ==> CodeMatch(s, from, i, keyword) && !TouchesIdent(s, i, |keyword|)
  {
    hide Found, CodeMatch, TouchesIdent;
    forall x | from <= x <= i
      ensures Found(s, from, x, keyword) <==> CodeMatch(s, from, x, keyword) && !TouchesIdent(s, x, |keyword|)
    {
      FoundIff(s, from, x, keyword);
    }
    FoundIff(s, from, i, keyword);
  }

  /** From a heredoc on, the scanner lexes nothing until it is past the byte behind the heredoc. */
  lemma {:induction false} ScanOver(s: string, from: nat, i: nat, x: nat)
    requires from <= i < |s| && ScanRun(s, from, i) == Lex(At(Normal)) && StartsHeredoc(s, i)
    requires i < x <= |s|
    ensures x <= HeredocEnd(s, i) ==> ScanRun(s, from, x) == Over(HeredocEnd(s, i) + 1)
    ensures x == HeredocEnd(s, i) + 1 ==> ScanRun(s, from, x) == Lex(At(Normal))
    decreases x
  {
    if x > i + 1 {
      ScanOver(s, from, i, x - 1);
    }
  }

  /** No heredoc begins anywhere. */
  ghost predicate HeredocFree(s: string) {
    forall i | 0 <= i < |s| :: !StartsHeredoc(s, i)
  }

  /** Without heredocs the keyword scanner is the lexer. */
  lemma {:induction false} ScanIsRun(s: string, from: nat, i: nat)
    requires from <= i <= |s| && HeredocFree(s)
    ensures ScanRun(s, from, i) == Lex(Run(s, from, i))
    decreases i
  {
    if i > from {
      ScanIsRun(s, from, i - 1);
    }
  }

  method PassBlanks(s: string, from: nat) returns (j: nat)
    requires from <= |s|
    ensures j == SkipBlanks(s, from)
  {
    j := from;
    while j < |s| && IsBlank(s[j])
      invariant from <= j <= |s| && SkipBlanks(s, j) == SkipBlanks(s, from)
    {
      j := j + 1;
    }
  }

  /** The label of a heredoc: at most 63 identifier bytes. */
  method ReadWord(s: string, from: nat) returns (word: string, j: nat)
    requires from <= |s|
    ensures j == LabelEnd(s, from, 63) && word == s[from..j]
  {
    word, j := "", from;
    while j < |s| && IsIdentByte(s[j]) && |word| + 1 < 64
      invariant from <= j <= |s| && |word| == j - from && word == s[from..j] && |word| <= 63
      invariant LabelEnd(s, j, 63 - |word|) == LabelEnd(s, from, 63)
    {
      word := word + [s[j]];
      j := j + 1;
    }
  }

  /** The search for the closing label. */
  method FindClose(s: string, from: nat, word: string) returns (j: nat)
    requires from <= |s|
    ensures j == CloseFrom(s, from, word)
  {
    j := from;
    while j < |s|
      invariant from <= j <= |s| && CloseFrom(s, j, word) == CloseFrom(s, from, word)
      decreases |s| - j
    {
      if s[j] == '\n' {
        var k := PassBlanks(s, j + 1);
        if Matches(s, k, word)
           && (k + |word| == |s| || !IsIdentByte(s[k + |word|])) {
          return k + |word|;
        }
      }
      j := j + 1;
    }
  }

  /** The minimal heredoc and nowdoc handling of `scan_find_keyword`. */
  method SkipHeredoc(s: string, i: nat) returns (j: nat)
    requires StartsHeredoc(s, i)
    ensures j == HeredocEnd(s, i)
  {
    j := PassBlanks(s, i + 3);
    var nowdoc := false;
    if j < |s| && s[j] == '\'' {
      nowdoc := true;
      j := j + 1;
    }
    var word;
    word, j := ReadWord(s, j);
    if nowdoc && j < |s| && s[j] == '\'' {
      j := j + 1;
    }
    j := FindClose(s, j, word);
  }

  /**
   `scan_find_keyword`: the least offset at or after `from` where the keyword is found, -1 if there is none. The bytes on
   both sides of it are none of an identifier, and each occurrence that was passed over in normal state has one beside it.
   */
  method FindKeyword(s: string, from: nat, keyword: string) returns (r: int)
    ensures r == -1 || (from <= r < |s| && Found(s, from, r, keyword))
    ensures forall x | from <= x < (if r == -1 then |s| else r) :: !Found(s, from, x, keyword)
    ensures r == -1 || (CodeMatch(s, from, r, keyword) && !TouchesIdent(s, r, |keyword|))
    ensures forall x | from <= x < (if r == -1 then |s| else r) && CodeMatch(s, from, x, keyword) ::
              TouchesIdent(s, x, |keyword|)
  {
    var st, i := Normal, from;
    while i < |s|
      invariant from <= i && (i <= |s| ==> ScanRun(s, from, i) == Lex(At(st)))
      invariant forall x | from <= x < i && x < |s| :: !Found(s, from, x, keyword)
      decreases |s| - i
    {
      var c, n := s[i], Peek(s, i);
      ghost var i0, st0 := i, st;
      match st {
        case Normal =>
          if c == '\'' {
            st := SqString;
          } else if c == '"' {
            st := DqString;
          } else if c == '/' && n == '/' {
            st := LineComment;
            i := i + 1;
          } else if c == '#' && n != '[' {
            st := LineComment;
          } else if c == '/' && n == '*' {
            st := BlockComment;
            i := i + 1;
          } else if StartsHeredoc(s, i) {
            var j := SkipHeredoc(s, i);
            PassHeredoc(s, from, i, keyword);
            i := j;
          } else if KeywordAt(s, i, keyword) {
            FoundSides(s, from, i, keyword);
            return i;
          }
        case SqString =>
          if c == '\\' && n != '\0' {
            i := i + 1;
          } else if c == '\'' {
            st := Normal;
          }
        case DqString =>
          if c == '\\' && n != '\0' {
            i := i + 1;
          } else if c == '"' {
            st := Normal;
          }
        case LineComment =>
          if c == '\n' {
            st := Normal;
          }
        case BlockComment =>
          if c == '*' && n == '/' {
            st := Normal;
            i := i + 1;
          }
      }
      i := i + 1;
      assert i == i0 + 2 && !(st0 == Normal && StartsHeredoc(s, i0)) ==>
          ScanRun(s, from, i0 + 1) == Lex(Step(st0, c, n));
    }
    FoundSides(s, from, |s|, keyword);
    return -1;
  }

  /** What a heredoc covers is no keyword, and the scanner is in normal state behind it. */
  lemma PassHeredoc(s: string, from: nat, i: nat, keyword: string)
    requires from <= i < |s| && ScanRun(s, from, i) == Lex(At(Normal)) && StartsHeredoc(s, i)
    ensures var j := HeredocEnd(s, i);
            && (forall x | i <= x < j + 1 && x < |s| :: !Found(s, from, x, keyword))
            && (j < |s| ==> ScanRun(s, from, j + 1) == Lex(At(Normal)))
  {
    var j := HeredocEnd(s, i);
    forall x | i <= x < j + 1 && x < |s|
      ensures !Found(s, from, x, keyword)
    {
      if x > i {
        ScanOver(s, from, i, x);
      }
    }
    if j < |s| {
      ScanOver(s, from, i, j + 1);
    }
  }

  // ---------- The header and the body ----------

  /** The braces that have been passed over outside strings and comments stand inside parentheses. */
  lemma NoBrace(s: string, from: nat, i: nat)
    requires forall x | from <= x < i :: !OpensBody(s, from, x)
    ensures forall x | from <= x < i && IsCode(s, from, x) && s[x] == '{' :: Parens(s, from, x) != 0
  {
    forall x | from <= x < i && IsCode(s, from, x) && s[x] == '{'
      ensures Parens(s, from, x) != 0
    {
      assert !OpensBody(s, from, x);
    }
  }

  /** The loop of `extract_closure_text` that looks for the brace that opens the body. */
  method FindBody(s: string, from: nat) returns (r: int)
    ensures r == -1 || (from <= r < |s| && s[r] == '{' && OpensBody(s, from, r))
    ensures forall x | from <= x < (if r == -1 then |s| else r) :: !OpensBody(s, from, x)
    ensures r == -1 || (IsCode(s, from, r) && Parens(s, from, r) == 0)
    ensures forall x | from <= x < (if r == -1 then |s| else r) && IsCode(s, from, x) && s[x] == '{' ::
              Parens(s, from, x) != 0
  {
    var st, depth, i := Normal, 0, from;
    while i < |s|
      invariant from <= i && (i <= |s| ==> Run(s, from, i) == At(st) && depth == Parens(s, from, i))
      invariant forall x | from <= x < i && x < |s| :: !OpensBody(s, from, x)
      decreases |s| - i
    {
      var c, n := s[i], Peek(s, i);
      ghost var i0, st0 := i, st;
      match st {
        case Normal =>
          if c == '\'' {
            st := SqString;
          } else if c == '"' {
            st := DqString;
          } else if c == '/' && n == '/' {
            st := LineComment;
            i := i + 1;
          } else if c == '#' && n != '[' {
            st := LineComment;
          } else if c == '/' && n == '*' {
            st := BlockComment;
            i := i + 1;
          } else {
            if c == '(' {
              depth := depth + 1;
            }
            if c == ')' {
              depth := depth - 1;
            }
            if c == '{' && depth == 0 {
              NoBrace(s, from, i);
              return i;
            }
          }
        case SqString =>
          if c == '\\' && n != '\0' {
            i := i + 1;
          } else if c == '\'' {
            st := Normal;
          }
        case DqString =>
          if c == '\\' && n != '\0' {
            i := i + 1;
          } else if c == '"' {
            st := Normal;
          }
        case LineComment =>
          if c == '\n' {
            st := Normal;
          }
        case BlockComment =>
          if c == '*' && n == '/' {
            st := Normal;
            i := i + 1;
          }
      }
      i := i + 1;
      assert Run(s, from, i0 + 1) == Step(st0, c, n);
      assert Parens(s, from, i0 + 1) == depth;
    }
    NoBrace(s, from, |s|);
    return -1;
  }

  /** `scan_brace_match`: the offset behind the matching brace, -1 if `from` is no brace or has no match. */
  method BraceMatch(s: string, from: nat) returns (r: int)
    ensures from >= |s| || s[from] != '{' ==> r == -1
    ensures r == -1 || (from < r <= |s| && Balances(s, from, r))
    ensures r == -1 && from < |s| && s[from] == '{' ==> forall e | from < e <= |s| :: Braces(s, from, e) > 0
  {
    if from >= |s| || s[from] != '{' {
      return -1;
    }
    var depth, st, i := 0, Normal, from;
    while i < |s|
      invariant from <= i <= |s| && Run(s, from, i) == At(st) && depth == Braces(s, from, i)
      invariant forall e | from < e <= i :: Braces(s, from, e) > 0
      decreases |s| - i
    {
      var c, n := s[i], Peek(s, i);
      ghost var i0, st0 := i, st;
      match st {
        case Normal =>
          if c == '\'' {
            st := SqString;
          } else if c == '"' {
            st := DqString;
          } else if c == '/' && n == '/' {
            st := LineComment;
            i := i + 1;
          } else if c == '#' && n != '[' {
            st := LineComment;
          } else if c == '/' && n == '*' {
            st := BlockComment;
            i := i + 1;
          } else if c == '{' {
            depth := depth + 1;
          } else if c == '}' {
            depth := depth - 1;
            if depth == 0 {
              assert Run(s, from, i + 1) == At(Normal) && Braces(s, from, i + 1) == 0;
              return i + 1;
            }
          }
        case SqString =>
          if c == '\\' && n != '\0' {
            i := i + 1;
          } else if c == '\'' {
            st := Normal;
          }
        case DqString =>
          if c == '\\' && n != '\0' {
            i := i + 1;
          } else if c == '"' {
            st := Normal;
          }
        case LineComment =>
          if c == '\n' {
            st := Normal;
          }
        case BlockComment =>
          if c == '*' && n == '/' {
            st := Normal;
            i := i + 1;
          }
      }
      i := i + 1;
      assert Run(s, from, i0 + 1) == Step(st0, c, n);
      assert Braces(s, from, i0 + 1) == depth;
    }
    return -1;
  }
}
