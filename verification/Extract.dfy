/** `extract_closure_text` of bridge_closure.c, after the file has been read: the text of one inline closure. */
module Extract {
  import opened Wrappers
  import opened Lexer
  import opened Scanners

  const FUNCTION := "function"
  const STATIC := "static"

  datatype ExtractError = LineOutOfRange | NoFunction | NoBody | Unbalanced

  /** The offsets of an extraction: of the line, of what is kept, of the keyword, of the body's brace, and of the end. */
  datatype Cut = Cut(line: nat, start: nat, fn: nat, body: nat, end: nat)

  /** Back over blanks, but not before `lo`. */
  function BackOver(s: string, lo: nat, p: nat): (q: nat)
    requires lo <= p < |s|
    ensures lo <= q <= p
    ensures forall x | q < x <= p :: IsBlank(s[x])
    ensures q > lo ==> !IsBlank(s[q])
    decreases p
  {
    if p > lo && IsBlank(s[p]) then BackOver(s, lo, p - 1) else p
  }

  /** A whole-token `static` ends at `q`, with at least one byte of the line before it. */
  predicate StaticEndsAt(s: string, lo: nat, q: nat) {
    lo + 6 <= q < |s| && Matches(s, q - 5, STATIC) && !IsIdentByte(s[q - 6])
  }

  /** The walk to the left over `static` words and blanks. */
  function WalkLeft(s: string, lo: nat, start: nat): (r: nat)
    requires lo <= start <= |s|
    ensures lo <= r <= start
    decreases start
  {
    if start == lo then start else
      var q := BackOver(s, lo, start - 1);
      if StaticEndsAt(s, lo, q) then WalkLeft(s, lo, q - 5) else start
  }

  ghost predicate LineStarts(s: string, lineNo: int, off: nat) {
    && off <= |s|
    && (if lineNo <= 1 then off == 0 else off > 0 && s[off - 1] == '\n' && Newlines(s, off) == lineNo - 1)
  }

  ghost predicate FirstFunction(s: string, off: nat, fn: nat) {
    Found(s, off, fn, FUNCTION) && forall x | off <= x < fn :: !Found(s, off, x, FUNCTION)
  }

  ghost predicate FirstBody(s: string, fn: nat, body: nat) {
    OpensBody(s, fn, body) && forall x | fn <= x < body :: !OpensBody(s, fn, x)
  }

  ghost predicate IsCut(s: string, lineNo: int, c: Cut) {
    && LineStarts(s, lineNo, c.line)
    && FirstFunction(s, c.line, c.fn)
    && FirstBody(s, c.fn, c.body)
    && Balances(s, c.body, c.end)
    && c.start == WalkLeft(s, c.line, c.fn)
  }

  /** The loop that walks left from the keyword. */
  method LeftWalk(s: string, line: nat, fn: nat) returns (start: nat)
    requires line <= fn <= |s|
    ensures start == WalkLeft(s, line, fn)
  {
    start := fn;
    while start > line
      invariant line <= start <= fn && WalkLeft(s, line, start) == WalkLeft(s, line, fn)
      decreases start
    {
      var q := start - 1;
      while q > line && IsBlank(s[q])
        invariant line <= q < start && BackOver(s, line, q) == BackOver(s, line, start - 1)
      {
        q := q - 1;
      }
      if q >= line + 6 && Matches(s, q - 5, STATIC) && (q - 5 == 0 || !IsIdentByte(s[q - 6])) {
        start := q - 5;
      } else {
        return;
      }
    }
  }

  /** `extract_closure_text`: the slice of the only cut, or the first thing that is missing. */
  method ExtractText(s: string, lineNo: int) returns (r: Result<string, ExtractError>, ghost c: Cut)
    ensures r.Ok? ==> IsCut(s, lineNo, c) && r.value == s[c.start..c.end]
    ensures r == Err(LineOutOfRange) <==> forall off :: !LineStarts(s, lineNo, off)
    ensures r == Err(NoFunction) ==>
              LineStarts(s, lineNo, c.line) && forall x | c.line <= x < |s| :: !Found(s, c.line, x, FUNCTION)
    ensures r == Err(NoBody) ==>
              && LineStarts(s, lineNo, c.line) && FirstFunction(s, c.line, c.fn)
              && forall x | c.fn <= x < |s| :: !OpensBody(s, c.fn, x)
    ensures r == Err(Unbalanced) ==>
              && LineStarts(s, lineNo, c.line) && FirstFunction(s, c.line, c.fn) && FirstBody(s, c.fn, c.body)
              && forall e | c.body < e <= |s| :: Braces(s, c.body, e) > 0
  {
    hide Found, OpensBody, Balances, WalkLeft, Newlines, Braces;
    c := Cut(0, 0, 0, 0, 0);
    var line := OffsetOfLine(s, lineNo);
    if line < 0 {
      NoSuchLine(s, lineNo);
      return Err(LineOutOfRange), c;
    }
    assert LineStarts(s, lineNo, line);
    hide LineStarts;
    c := c.(line := line);
    var fn := FindKeyword(s, line, FUNCTION);
    if fn < 0 {
      return Err(NoFunction), c;
    }
    c := c.(fn := fn);
    var body := FindBody(s, fn);
    if body < 0 {
      return Err(NoBody), c;
    }
    c := c.(body := body);
    var end := BraceMatch(s, body);
    if end < 0 {
      return Err(Unbalanced), c;
    }
    var start := LeftWalk(s, line, fn);
    c := Cut(line, start, fn, body, end);
    r := Ok(s[start..end]);
  }

  lemma NoSuchLine(s: string, lineNo: int)
    requires lineNo > 1 && Newlines(s, |s|) < lineNo - 1
    ensures forall off :: !LineStarts(s, lineNo, off)
  {
    forall off: nat | off <= |s|
      ensures !LineStarts(s, lineNo, off)
    {
      NewlinesMonotone(s, off, |s|);
    }
  }

  lemma LineUnique(s: string, lineNo: int, off: nat, off': nat)
    requires LineStarts(s, lineNo, off) && LineStarts(s, lineNo, off')
    ensures off == off'
  {
    if lineNo > 1 && off < off' {
      NewlinesMonotone(s, off, off' - 1);
    } else if lineNo > 1 && off' < off {
      NewlinesMonotone(s, off', off - 1);
    }
  }

  /** There is at most one cut, so the text and the line decide what is extracted. */
  lemma CutUnique(s: string, lineNo: int, c: Cut, c': Cut)
    requires IsCut(s, lineNo, c) && IsCut(s, lineNo, c')
    ensures c == c'
  {
    LineUnique(s, lineNo, c.line, c'.line);
    BalancesUnique(s, c.body, c.end, c'.end);
  }
}
