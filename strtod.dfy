/**
 * How many characters strtod consumes (C11 section 7.22.1.3, in the C locale): the
 * longest prefix that is a decimal floating constant, a hexadecimal one, INF or
 * INFINITY, or NAN with an optional parenthesised tail, each after an optional
 * sign. The converted double itself is not modelled. strtod also skips leading
 * white space (isspace) before all this; that skip is not modelled, because
 * json_parse_value calls strtod only after skip_whitespace, at a character that
 * is neither a blank nor any other character isspace accepts.
 */
module Strtod {

  predicate IsDigit(c: char)
  {
    '0' <= c <= '9'
  }

  predicate IsHexDigit(c: char)
  {
    IsDigit(c) || 'a' <= c <= 'f' || 'A' <= c <= 'F'
  }

  /** Letters, digits and underscore: what may stand between NAN( and ). */
  predicate IsNanChar(c: char)
  {
    IsDigit(c) || 'a' <= c <= 'z' || 'A' <= c <= 'Z' || c == '_'
  }

  predicate IsDigitOf(c: char, hex: bool)
  {
    if hex then IsHexDigit(c) else IsDigit(c)
  }

  function Lower(c: char): char
  {
    if 'A' <= c <= 'Z' then (c as int + 32) as char else c
  }

  /** The end of the run of (hex) digits starting at i. */
  function DigitsEnd(s: seq<char>, i: nat, hex: bool): (e: nat)
    requires i <= |s|
    ensures i <= e <= |s|
    ensures forall k | i <= k < e :: IsDigitOf(s[k], hex)
    ensures e == |s| || !IsDigitOf(s[e], hex)
    decreases |s| - i
  {
    if i < |s| && IsDigitOf(s[i], hex) then DigitsEnd(s, i + 1, hex) else i
  }

  /** The end of the run of NAN( ) characters starting at i. */
  function NanCharsEnd(s: seq<char>, i: nat): (e: nat)
    requires i <= |s|
    ensures i <= e <= |s|
    ensures e == |s| || !IsNanChar(s[e])
    decreases |s| - i
  {
    if i < |s| && IsNanChar(s[i]) then NanCharsEnd(s, i + 1) else i
  }

  /**
   * The end of a mantissa at i: digits with at most one '.', at least one digit
   * among them; i itself when there is none.
   */
  function MantissaEnd(s: seq<char>, i: nat, hex: bool): (e: nat)
    requires i <= |s|
    ensures i <= e <= |s|
    ensures e > i ==> exists k :: i <= k < e && IsDigitOf(s[k], hex)
  {
    var a := DigitsEnd(s, i, hex);
    if a < |s| && s[a] == '.' then
      var b := DigitsEnd(s, a + 1, hex);
      if a > i then b
      else if b > a + 1 then assert IsDigitOf(s[a + 1], hex); b
      else i
    else
      assert a > i ==> IsDigitOf(s[i], hex);
      a
  }

  /**
   * The end of an optional exponent at i: the marker (e/E, or p/P after a hex
   * mantissa), an optional sign and at least one decimal digit; i when incomplete.
   */
  function ExponentEnd(s: seq<char>, i: nat, marker: char): (e: nat)
    requires i <= |s|
    ensures i <= e <= |s|
    ensures e > i ==> Lower(s[i]) == marker && IsDigit(s[e - 1])
  {
    if i < |s| && Lower(s[i]) == marker then
      var j := if i + 1 < |s| && (s[i + 1] == '+' || s[i + 1] == '-') then i + 2 else i + 1;
      var k := DigitsEnd(s, j, false);
      if k > j then k else i
    else i
  }

  /** The text at i spells word (given in lower case), ignoring case. */
  predicate MatchesIgnoringCase(s: seq<char>, i: nat, word: string)
  {
    i + |word| <= |s| && forall k | 0 <= k < |word| :: Lower(s[i + k]) == word[k]
  }

  /**
   * The position strtod leaves its end pointer at when it starts reading at pos:
   * past the longest prefix of the expected form, or pos itself when there is no
   * such prefix (no conversion).
   */
  function NumberEnd(s: seq<char>, pos: nat): (e: nat)
    requires pos <= |s|
    ensures pos <= e <= |s|
    ensures e > pos ==> exists k :: pos <= k < e && (IsHexDigit(s[k]) || Lower(s[k]) in "na")
  {
    var p := if pos < |s| && (s[pos] == '+' || s[pos] == '-') then pos + 1 else pos;
    if p + 1 < |s| && s[p] == '0' && Lower(s[p + 1]) == 'x' && MantissaEnd(s, p + 2, true) > p + 2 then
      assert IsHexDigit(s[p]);
      ExponentEnd(s, MantissaEnd(s, p + 2, true), 'p')
    else if MatchesIgnoringCase(s, p, "inf") then
      assert "inf"[1] == 'n' && Lower(s[p + 1]) == 'n';
      if MatchesIgnoringCase(s, p, "infinity") then p + 8 else p + 3
    else if MatchesIgnoringCase(s, p, "nan") then
      assert "nan"[0] == 'n' && Lower(s[p]) == 'n';
      var q := p + 3;
      if q < |s| && s[q] == '(' && NanCharsEnd(s, q + 1) < |s| && s[NanCharsEnd(s, q + 1)] == ')' then
        NanCharsEnd(s, q + 1) + 1
      else q
    else if MantissaEnd(s, p, false) > p then
      ExponentEnd(s, MantissaEnd(s, p, false), 'e')
    else pos
  }

  /** An optional sign and then at least one decimal digit. */
  predicate IsInteger(t: string)
  {
    var d := if |t| > 0 && (t[0] == '+' || t[0] == '-') then 1 else 0;
    d < |t| && forall k | d <= k < |t| :: IsDigit(t[k])
  }

  /** A character that cannot continue a decimal number: no digit, '.', exponent or hex marker. */
  predicate EndsNumber(c: char)
  {
    !IsDigit(c) && c != '.' && Lower(c) != 'e' && Lower(c) != 'x'
  }

  /** A run of digits from i to e, followed by the end or a non-digit, is what DigitsEnd reads. */
  lemma {:induction false} DigitsEndRun(s: seq<char>, i: nat, e: nat)
    requires i <= e <= |s|
    requires forall k | i <= k < e :: IsDigit(s[k])
    requires e == |s| || !IsDigit(s[e])
    ensures DigitsEnd(s, i, false) == e
    decreases e - i
  {
    if i < e {
      DigitsEndRun(s, i + 1, e);
    }
  }

  /**
   * strtod reads an integer lexeme exactly: when the text from pos to e is an
   * integer and the character after it cannot continue a number, the end
   * pointer lands on e.
   */
  lemma IntegerEnd(s: seq<char>, pos: nat, e: nat)
    requires pos <= e <= |s| && IsInteger(s[pos..e])
    requires e == |s| || EndsNumber(s[e])
    ensures NumberEnd(s, pos) == e
  {
    var t := s[pos..e];
    var p := if pos < |s| && (s[pos] == '+' || s[pos] == '-') then pos + 1 else pos;
    assert t[0] == s[pos];
    assert p < e && forall k | p <= k < e :: IsDigit(s[k]) by {
      forall k | p <= k < e ensures IsDigit(s[k]) {
        assert s[k] == t[k - pos];
      }
    }
    DigitsEndRun(s, p, e);
    assert Lower(s[p + 0]) == s[p];
    assert !MatchesIgnoringCase(s, p, "inf") by {
      assert "inf"[0] == 'i';
    }
    assert !MatchesIgnoringCase(s, p, "nan") by {
      assert "nan"[0] == 'n';
    }
    if p + 1 < |s| && s[p] == '0' {
      assert Lower(s[p + 1]) != 'x' by {
        if p + 1 < e {
          assert IsDigit(s[p + 1]);
        }
      }
    }
    assert MantissaEnd(s, p, false) == e;
  }
}
