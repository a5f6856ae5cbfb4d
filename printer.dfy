/**
 * A reference printer for the scalar values (null, true, false, integer
 * lexemes and strings without quotes), and the round trip it completes with the
 * parser: the text the printer writes for a scalar parses back to that value.
 * json_parser.c has no printer; this one is the independent definition the
 * token rules of the grammar are checked against.
 */
module Printer {

  import opened Wrappers
  import opened JsonValues
  import opened Lexer
  import Strtod
  import opened Grammar

  /** String contents the parser reads back unchanged: no quote and no terminator. */
  predicate PlainChars(cs: string)
  {
    '"' !in cs && '\0' !in cs
  }

  /** The scalars the printer writes so that they read back: integer lexemes and plain strings. */
  predicate Scalar(v: Value)
  {
    match v
    case Null => true
    case Bool(_) => true
    case Number(lex) => Strtod.IsInteger(lex)
    case String(cs) => PlainChars(cs)
    case _ => false
  }

  /** A character that starts a printed scalar: never a blank, ']' or '}'. */
  predicate StartsValue(c: char)
  {
    !IsBlank(c) && c != ']' && c != '}'
  }

  /** The text of a scalar: its literal, its lexeme, or its characters in quotes. */
  function Print(v: Value): (t: string)
    requires Scalar(v)
    ensures |t| > 0 && StartsValue(t[0]) && '\0' !in t
  {
    match v
    case Null => "null"
    case Bool(b) => if b then "true" else "false"
    case Number(lex) =>
      IntegerIsPlain(lex);
      lex
    case String(cs) => "\"" + cs + "\""
  }

  /** An integer lexeme starts with a sign or a digit and holds no terminator. */
  lemma IntegerIsPlain(lex: string)
    ensures Strtod.IsInteger(lex) ==>
      |lex| > 0 && (Strtod.IsDigit(lex[0]) || lex[0] == '+' || lex[0] == '-') && '\0' !in lex
  {
    if Strtod.IsInteger(lex) {
      forall k | 0 <= k < |lex| ensures lex[k] != '\0' {
        assert k == 0 || Strtod.IsDigit(lex[k]);
      }
    }
  }

  /** The text s holds t at pos. */
  predicate On(s: seq<char>, pos: nat, t: string)
  {
    pos + |t| <= |s| && s[pos..pos + |t|] == t
  }

  /** Position e is the end of the text or a character that may follow a value. */
  predicate Delimited(s: seq<char>, e: nat)
  {
    e == |s| || (e < |s| && (s[e] == ',' || s[e] == ':' || s[e] == ']' || s[e] == '}'))
  }

  /** The character at an offset of text held at pos. */
  lemma OnAt(s: seq<char>, pos: nat, t: string, k: nat)
    requires On(s, pos, t) && k < |t|
    ensures s[pos + k] == t[k]
  {
    assert s[pos..pos + |t|][k] == s[pos + k];
  }

  /** At a character that starts a value, skip_whitespace stays put. */
  lemma SkipAtNonBlank(s: seq<char>, pos: nat)
    requires pos < |s| && !IsBlank(s[pos])
    ensures SkipWhitespace(s, pos) == pos
  {
  }

  /**
   * The round trip for one scalar: when s holds its printed text at pos and a
   * delimiter (or the end) follows, json_parse_value reads exactly that scalar
   * and stops right after its text.
   */
  lemma ScalarRoundTrip(v: Value, s: seq<char>, pos: nat)
    requires Scalar(v) && On(s, pos, Print(v)) && Delimited(s, pos + |Print(v)|)
    ensures ParseValue(s, pos, Null) == Ok(v, pos + |Print(v)|)
  {
    match v
    case Null => LiteralRoundTrip(s, pos, "null", Null);
    case Bool(b) => LiteralRoundTrip(s, pos, if b then "true" else "false", v);
    case Number(lex) => NumberRoundTrip(s, pos, lex);
    case String(cs) => StringRoundTrip(s, pos, cs);
  }

  /** A literal reads back as the value it stands for. */
  lemma LiteralRoundTrip(s: seq<char>, pos: nat, lit: string, v: Value)
    requires (lit, v) == ("null", Null) || (lit, v) == ("true", Bool(true)) || (lit, v) == ("false", Bool(false))
    requires On(s, pos, lit)
    ensures ParseValue(s, pos, Null) == Ok(v, pos + |lit|)
  {
    OnAt(s, pos, lit, 0);
    SkipAtNonBlank(s, pos);
    assert ParseLiteral(s, pos, lit, v) == Ok(v, pos + |lit|);
  }

  /** An integer lexeme followed by a delimiter reads back as itself. */
  lemma NumberRoundTrip(s: seq<char>, pos: nat, lex: string)
    requires Strtod.IsInteger(lex) && On(s, pos, lex) && Delimited(s, pos + |lex|)
    ensures ParseValue(s, pos, Null) == Ok(Number(lex), pos + |lex|)
  {
    IntegerIsPlain(lex);
    OnAt(s, pos, lex, 0);
    SkipAtNonBlank(s, pos);
    Strtod.IntegerEnd(s, pos, pos + |lex|);
    assert ParseNumber(s, pos) == Ok(Number(lex), pos + |lex|);
  }

  /** A quoted plain string reads back as itself. */
  lemma StringRoundTrip(s: seq<char>, pos: nat, cs: string)
    requires PlainChars(cs) && On(s, pos, "\"" + cs + "\"")
    ensures ParseValue(s, pos, Null) == Ok(String(cs), pos + |cs| + 2)
  {
    var e := pos + 1 + |cs|;
    var t := "\"" + cs + "\"";
    OnAt(s, pos, t, 0);
    SkipAtNonBlank(s, pos);
    OnAt(s, pos, t, |cs| + 1);
    forall k | pos + 1 <= k < e ensures s[k] != '"' {
      OnAt(s, pos, t, k - pos);
      assert t[k - pos] == cs[k - pos - 1];
    }
    FindCharSkipsOthers(s, pos + 1, '"');
    assert FindChar(s, pos + 1, '"') == e;
    assert s[pos + 1..e] == cs by {
      forall k | 0 <= k < |cs| ensures s[pos + 1 + k] == cs[k] {
        OnAt(s, pos, t, k + 1);
      }
    }
    assert ParseString(s, pos) == Ok(String(cs), e + 1);
  }

  /** Cutting at the terminator keeps a terminator-free prefix whole. */
  lemma {:induction false} UntilTerminatorAppend(a: seq<char>, b: seq<char>)
    requires '\0' !in a
    ensures UntilTerminator(a + b) == a + UntilTerminator(b)
  {
    if a == [] {
      assert a + b == b;
    } else {
      var ab, tail := a + b, a[1..];
      assert a[0] in a;
      assert ab[0] == a[0];
      assert ab[1..] == tail + b;
      assert '\0' !in tail by {
        forall c | c in tail ensures c != '\0' {
          var k :| 0 <= k < |tail| && tail[k] == c;
          assert a[k + 1] == c;
        }
      }
      UntilTerminatorAppend(tail, b);
      assert UntilTerminator(ab) == [a[0]] + UntilTerminator(tail + b);
      assert [a[0]] + (tail + UntilTerminator(b)) == a + UntilTerminator(b) by {
        assert [a[0]] + tail == a;
      }
    }
  }

  /**
   * json_parse reads the printed text of a scalar back, whatever
   * follows it from a delimiter or a terminator on.
   */
  lemma ParsePrinted(v: Value, rest: seq<char>)
    requires Scalar(v)
    requires rest == [] || rest[0] in "\0,:]}"
    ensures Parse(Print(v) + rest, Null) == Some(v)
  {
    var t := Print(v);
    UntilTerminatorAppend(t, rest);
    var text := UntilTerminator(Print(v) + rest);
    assert text == t + UntilTerminator(rest);
    assert text[..|t|] == t;
    ScalarRoundTrip(v, text, 0);
  }
}
