/**
 The five-state lexer that bridge_closure.c repeats in its three scanning loops, as one function on the text, and what
 the loops look for: keywords, parentheses and braces outside quotes and comments. A text is a string of bytes.
 */
module Lexer {
  datatype Mode = Normal | SqString | DqString | LineComment | BlockComment

  /** Where the lexer stands before a byte: it looks at the byte in a mode, or passes over it. */
  datatype Cursor = At(mode: Mode) | Skipped(mode: Mode)

  /** The byte after `i`, and NUL at the end. */
  function Peek(s: string, i: nat): char {
    if i + 1 < |s| then s[i + 1] else '\0'
  }

  /** One turn of the switch: `c` is the byte, `n` the one after it. */
  function Step(m: Mode, c: char, n: char): Cursor {
    match m
    case Normal =>
      if c == '\'' then At(SqString)
      else if c == '"' then At(DqString)
      else if c == '/' && n == '/' then Skipped(LineComment)
      else if c == '#' && n != '[' then At(LineComment)
      else if c == '/' && n == '*' then Skipped(BlockComment)
      else At(Normal)
    case SqString =>
      if c == '\\' && n != '\0' then Skipped(SqString)
      else if c == '\'' then At(Normal)
      else At(SqString)
    case DqString =>
      if c == '\\' && n != '\0' then Skipped(DqString)
      else if c == '"' then At(Normal)
      else At(DqString)
    case LineComment =>
      if c == '\n' then At(Normal) else At(LineComment)
    case BlockComment =>
      if c == '*' && n == '/' then Skipped(Normal) else At(BlockComment)
  }

  function Advance(cur: Cursor, c: char, n: char): Cursor {
    match cur
    case At(m) => Step(m, c, n)
    case Skipped(m) => At(m)
  }

  /** The lexer before byte `i`, started in normal state at `from`. */
  function Run(s: string, from: nat, i: nat): Cursor
    requires from <= i <= |s|
    decreases i
  {
    if i == from then At(Normal) else Advance(Run(s, from, i - 1), s[i - 1], Peek(s, i - 1))
  }

  /** Byte `i` is looked at in normal state: it lies in no string and no comment. */
  predicate IsCode(s: string, from: nat, i: nat) {
    from <= i < |s| && Run(s, from, i) == At(Normal)
  }

  /** How much byte `i` adds to the nesting that `open` and `close` count. */
  function Weight(s: string, from: nat, i: nat, open: char, close: char): int {
    if !IsCode(s, from, i) then 0 else if s[i] == open then 1 else if s[i] == close then -1 else 0
  }

  /** Openings minus closings among the code bytes before `i`. */
  function Nesting(s: string, from: nat, i: nat, open: char, close: char): int
    requires from <= i <= |s|
    decreases i
  {
    if i == from then 0
    else Nesting(s, from, i - 1, open, close) + Weight(s, from, i - 1, open, close)
  }

  function Braces(s: string, from: nat, i: nat): int
    requires from <= i <= |s|
  {
    Nesting(s, from, i, '{', '}')
  }

  function Parens(s: string, from: nat, i: nat): int
    requires from <= i <= |s|
  {
    Nesting(s, from, i, '(', ')')
  }

  /** `e` is the least offset after `from` at which the braces balance. */
  ghost predicate Balances(s: string, from: nat, e: nat) {
    from < e <= |s| && Braces(s, from, e) == 0 && forall i | from < i < e :: Braces(s, from, i) > 0
  }

  /** A brace outside all parentheses. */
  predicate OpensBody(s: string, from: nat, i: nat) {
    IsCode(s, from, i) && s[i] == '{' && Parens(s, from, i) == 0
  }

  // ---------- Runs ----------

  /** A run that is in normal state somewhere goes on as a run that starts there. */
  lemma {:induction false} RunRestarts(s: string, from: nat, mid: nat, i: nat)
    requires from <= mid <= i <= |s| && Run(s, from, mid) == At(Normal)
    ensures Run(s, from, i) == Run(s, mid, i)
    decreases i
  {
    if i > mid {
      RunRestarts(s, from, mid, i - 1);
    }
  }

  lemma {:induction false} NestingRestarts(s: string, from: nat, mid: nat, i: nat, open: char, close: char)
    requires from <= mid <= i <= |s| && Run(s, from, mid) == At(Normal)
    ensures Nesting(s, from, i, open, close)
         == Nesting(s, from, mid, open, close) + Nesting(s, mid, i, open, close)
    decreases i
  {
    if i > mid {
      NestingRestarts(s, from, mid, i - 1, open, close);
      RunRestarts(s, from, mid, i - 1);
    }
  }

  /** `t` stands in `s` at offset `at`. */
  ghost predicate Within(t: string, s: string, at: nat) {
    at + |t| <= |s| && forall i | 0 <= i < |t| :: s[at + i] == t[i]
  }

  /** Inside another text the lexer does the same, up to the last byte, which it may see with another byte after it. */
  lemma {:induction false} RunWithin(t: string, s: string, at: nat, from: nat, i: nat)
    requires Within(t, s, at) && from <= i < |t|
    ensures Run(t, from, i) == Run(s, at + from, at + i)
    decreases i
  {
    if i > from {
      RunWithin(t, s, at, from, i - 1);
      assert s[at + (i - 1)] == t[i - 1] && s[at + i] == t[i];
    }
  }

  lemma {:induction false} NestingWithin(t: string, s: string, at: nat, from: nat, i: nat, open: char, close: char)
    requires Within(t, s, at) && from <= i <= |t|
    ensures Nesting(t, from, i, open, close) == Nesting(s, at + from, at + i, open, close)
    decreases i
  {
    if i > from {
      NestingWithin(t, s, at, from, i - 1, open, close);
      RunWithin(t, s, at, from, i - 1);
      assert s[at + (i - 1)] == t[i - 1];
    }
  }

  /** No quote and no comment begins here. */
  predicate Inert(c: char) {
    c != '\'' && c != '"' && c != '/' && c != '#'
  }

  /** Over inert bytes the lexer stays in normal state. */
  lemma {:induction false} RunInert(s: string, from: nat, i: nat)
    requires from <= i <= |s| && (forall k | from <= k < i :: Inert(s[k]))
    ensures Run(s, from, i) == At(Normal)
    decreases i
  {
    if i > from {
      RunInert(s, from, i - 1);
    }
  }

  /** Where neither bracket occurs the nesting stays. */
  lemma {:induction false} NestingFlat(s: string, from: nat, mid: nat, i: nat, open: char, close: char)
    requires from <= mid <= i <= |s| && (forall k | mid <= k < i :: s[k] != open && s[k] != close)
    ensures Nesting(s, from, i, open, close) == Nesting(s, from, mid, open, close)
    decreases i
  {
    if i > mid {
      NestingFlat(s, from, mid, i - 1, open, close);
    }
  }

  // ---------- Brace matching ----------

  lemma BalancesUnique(s: string, from: nat, e: nat, e': nat)
    requires Balances(s, from, e) && Balances(s, from, e')
    ensures e == e'
  {
  }

  /** Between a brace and its match the last byte is a closing brace, outside strings and comments. */
  lemma BalancesEndsWithBrace(s: string, from: nat, e: nat)
    requires Balances(s, from, e) && IsCode(s, from, from) && s[from] == '{'
    ensures from + 1 < e && IsCode(s, from, e - 1) && s[e - 1] == '}' && Run(s, from, e) == At(Normal)
  {
    assert Nesting(s, from, from, '{', '}') == 0 && Weight(s, from, from, '{', '}') == 1;
    assert Braces(s, from, from + 1) == 1;
    assert Braces(s, from, e - 1) > 0;
    assert Weight(s, from, e - 1, '{', '}') == -1;
  }

  /** Matching a brace inside another text gives the same end. */
  lemma BalancesWithin(t: string, s: string, at: nat, from: nat, e: nat)
    requires Within(t, s, at) && from <= e <= |t|
    ensures Balances(t, from, e) <==> Balances(s, at + from, at + e)
  {
    forall i | from <= i <= e
      ensures Braces(t, from, i) == Braces(s, at + from, at + i)
    {
      NestingWithin(t, s, at, from, i, '{', '}');
    }
    if Balances(t, from, e) {
      var from' := at + from;
      forall i | from' < i < at + e
        ensures Braces(s, from', i) > 0
      {
        assert Braces(t, from, i - at) == Braces(s, at + from, at + (i - at));
      }
    }
  }
}
