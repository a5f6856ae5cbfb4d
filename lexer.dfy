/**
 * Character-level scanning of json_parser.c: skip_whitespace, has_char,
 * json_is_literal, and the strchr scan for a closing quote. The text is the
 * characters before the C terminator; the end of the sequence is the terminator.
 */
module Lexer {

  /** iscntrl in the C locale: codes 0-31 and 127. */
  predicate IsCntrl(c: char)
  {
    c as int < 32 || c as int == 127
  }

  /** isspace in the C locale: space, \t, \n, \v, \f, \r. */
  predicate IsSpace(c: char)
  {
    c == ' ' || c == '\t' || c == '\n' || c == '\r' || c as int == 11 || c as int == 12
  }

  /** What skip_whitespace skips. */
  predicate IsBlank(c: char)
  {
    IsCntrl(c) || IsSpace(c)
  }

  /** The characters of a C buffer before its first terminator. */
  function UntilTerminator(buffer: seq<char>): (t: seq<char>)
    ensures t <= buffer && '\0' !in t
    ensures |t| < |buffer| ==> buffer[|t|] == '\0'
  {
    if buffer == [] || buffer[0] == '\0' then []
    else [buffer[0]] + UntilTerminator(buffer[1..])
  }

  /**
   * skip_whitespace, stopping at the end of the text: the position of the first
   * character at or after pos that is neither a control character nor a space,
   * or the end of the text. At the end it leaves the cursor where it is.
   */
  function SkipWhitespace(s: seq<char>, pos: nat): (r: nat)
    requires pos <= |s|
    ensures pos <= r <= |s|
    ensures r == |s| || !IsBlank(s[r])
    decreases |s| - pos
  {
    if pos < |s| && IsBlank(s[pos]) then SkipWhitespace(s, pos + 1) else pos
  }

  /** Everything skip_whitespace steps over is blank, so it stops at the first non-blank. */
  lemma {:induction false} SkippedAreBlank(s: seq<char>, pos: nat)
    requires pos <= |s|
    ensures forall k | pos <= k < SkipWhitespace(s, pos) :: IsBlank(s[k])
    decreases |s| - pos
  {
    if pos < |s| && IsBlank(s[pos]) {
      SkippedAreBlank(s, pos + 1);
    }
  }

  /**
   * skip_whitespace as written, over the raw memory mem that holds the text, its
   * terminator and whatever follows: only the starting position is tested for the
   * terminator, and since iscntrl('\0') holds the loop then skips a terminator it
   * meets later. (The scan stops at the end of mem only because memory beyond it
   * is not part of the model.)
   */
  function SkipWhitespaceAsWritten(mem: seq<char>, pos: nat): (r: nat)
    requires pos <= |mem|
    ensures pos <= r <= |mem|
    ensures pos < |mem| && mem[pos] == '\0' ==> r == pos
    ensures !(pos < |mem| && mem[pos] == '\0') ==>
      (r == |mem| || !IsBlank(mem[r])) && forall k | pos <= k < r :: IsBlank(mem[k])
  {
    if pos < |mem| && mem[pos] == '\0' then pos
    else SkippedAreBlank(mem, pos); SkipWhitespace(mem, pos)
  }

  /** The outcome of a scanning step: whether it matched, and the new cursor. */
  datatype Step = Step(found: bool, next: nat)

  /**
   * has_char: skips blanks; if the next character is c it is consumed and found
   * holds; otherwise the cursor stays on that character (or at the end).
   */
  function HasChar(s: seq<char>, pos: nat, c: char): (r: Step)
    requires pos <= |s|
    ensures pos <= r.next <= |s|
    ensures r.found <==> SkipWhitespace(s, pos) < |s| && s[SkipWhitespace(s, pos)] == c
    ensures r.next == if r.found then SkipWhitespace(s, pos) + 1 else SkipWhitespace(s, pos)
  {
    var p := SkipWhitespace(s, pos);
    if p < |s| && s[p] == c then Step(true, p + 1) else Step(false, p)
  }

  /**
   * json_is_literal: when the text at pos starts with lit (strncmp over strlen(lit)
   * characters) the cursor moves past it; otherwise it stays. Nothing is required
   * of the character that follows.
   */
  function IsLiteral(s: seq<char>, pos: nat, lit: string): (r: Step)
    requires pos <= |s|
    ensures r.found <==> lit <= s[pos..]
    ensures r.next == if r.found then pos + |lit| else pos
  {
    if pos + |lit| <= |s| && s[pos..pos + |lit|] == lit then Step(true, pos + |lit|)
    else Step(false, pos)
  }

  /** strchr: the position of the first c at or after pos, or the end when there is none. */
  function FindChar(s: seq<char>, pos: nat, c: char): (r: nat)
    requires pos <= |s|
    ensures pos <= r <= |s|
    ensures r < |s| ==> s[r] == c
    decreases |s| - pos
  {
    if pos == |s| || s[pos] == c then pos else FindChar(s, pos + 1, c)
  }

  /** strchr passes over no c: every character before the position it returns differs from c. */
  lemma {:induction false} FindCharSkipsOthers(s: seq<char>, pos: nat, c: char)
    requires pos <= |s|
    ensures forall k | pos <= k < FindChar(s, pos, c) :: s[k] != c
    decreases |s| - pos
  {
    if pos < |s| && s[pos] != c {
      FindCharSkipsOthers(s, pos + 1, c);
    }
  }

  /**
   * Finding (skip_whitespace, json_parser.c:356-360): a blank followed by the
   * terminator makes the as-written scan step over the terminator, while the
   * corrected scan stops at the end of the text.
   */
  lemma SkipRunsPastTerminator()
    ensures var mem := [' ', '\0', 'x'];
      UntilTerminator(mem) == [' '] &&
      SkipWhitespaceAsWritten(mem, 0) == 2 &&
      SkipWhitespace(UntilTerminator(mem), 0) == 1
  {
    var mem := [' ', '\0', 'x'];
    assert UntilTerminator(mem[2..]) == ['x'];
    assert UntilTerminator(mem[1..]) == [];
    assert SkipWhitespace(mem, 1) == 2;
  }
}
