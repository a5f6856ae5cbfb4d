/**
 * The recursive-descent parser of json_parser.c as functions of the text and the
 * cursor: json_parse_value, json_parse_object (its loop as ParseMembers),
 * json_parse_array (its loop as ParseElements) and json_parse. These are the
 * specification the imperative Parser module is proved against.
 */
module Grammar {

  import opened Wrappers
  import opened JsonValues
  import opened Lexer
  import Strtod

  /** The outcome of parsing: the value and the cursor after it, or failure. */
  datatype Parsed = Ok(value: Value, next: nat) | Fail

  /**
   * json_parse_value at pos. parent is the value the caller passed in: the null
   * literal leaves it as it was; every other success replaces it.
   */
  function ParseValue(s: seq<char>, pos: nat, parent: Value): (r: Parsed)
    requires pos <= |s|
    ensures r.Ok? ==> pos < r.next <= |s|
    decreases |s| - pos, 0
  {
    var p := SkipWhitespace(s, pos);
    if p == |s| then Fail
    else if s[p] == '{' then ParseObject(s, SkipWhitespace(s, p + 1))
    else if s[p] == '[' then ParseArray(s, SkipWhitespace(s, p + 1), [])
    else ParseScalar(s, p, parent)
  }

  /** The cases of json_parse_value that build no vector, at a non-blank character. */
  function ParseScalar(s: seq<char>, p: nat, parent: Value): (r: Parsed)
    requires p < |s|
    ensures r.Ok? ==> p < r.next <= |s|
    ensures r.Ok? ==> r.value.String? || r.value.Bool? || r.value.Number? || r.value == parent
  {
    if s[p] == '"' then ParseString(s, p)
    else if s[p] == 't' then ParseLiteral(s, p, "true", Bool(true))
    else if s[p] == 'f' then ParseLiteral(s, p, "false", Bool(false))
    else if s[p] == 'n' then ParseLiteral(s, p, "null", parent)
    else ParseNumber(s, p)
  }

  /**
   * A string token at the opening quote p: the payload is exactly the characters
   * up to the next '"' (no escapes), and the cursor ends one past that quote.
   * Without a closing quote the token fails.
   */
  function ParseString(s: seq<char>, p: nat): (r: Parsed)
    requires p < |s|
    ensures r.Ok? <==> FindChar(s, p + 1, '"') < |s|
    ensures r.Ok? ==> (p + 1 < r.next <= |s| && s[r.next - 1] == '"' &&
      r.value == String(s[p + 1..r.next - 1]))
  {
    var e := FindChar(s, p + 1, '"');
    if e < |s| then Ok(String(s[p + 1..e]), e + 1) else Fail
  }

  /** A true, false or null literal at p, which stands for v when it matches. */
  function ParseLiteral(s: seq<char>, p: nat, lit: string, v: Value): (r: Parsed)
    requires p <= |s|
    ensures r.Ok? <==> lit <= s[p..]
    ensures r.Ok? ==> r == Ok(v, p + |lit|)
  {
    var l := IsLiteral(s, p, lit);
    if l.found then Ok(v, l.next) else Fail
  }

  /**
   * A number at p: whatever strtod reads, kept as its lexeme; it fails exactly
   * when strtod reads nothing.
   */
  function ParseNumber(s: seq<char>, p: nat): (r: Parsed)
    requires p <= |s|
    ensures r.Ok? <==> Strtod.NumberEnd(s, p) > p
    ensures r.Ok? ==> r.next == Strtod.NumberEnd(s, p) && r.value == Number(s[p..r.next])
  {
    var e := Strtod.NumberEnd(s, p);
    if e != p then Ok(Number(s[p..e]), e) else Fail
  }

  /**
   * json_parse_object, entered just after '{' and the blanks that follow it. On
   * success the object has an even number of slots.
   */
  function ParseObject(s: seq<char>, pos: nat): (r: Parsed)
    requires pos <= |s|
    ensures r.Ok? ==> pos < r.next <= |s|
    ensures r.Ok? ==> r.value.Object? && |r.value.pairs| % 2 == 0
    decreases |s| - pos, 3
  {
    ParseMembers(s, pos, [])
  }

  /**
   * The loop of json_parse_object with acc the pairs pushed so far: a '}' ends it;
   * otherwise a pair is parsed and pushed.
   */
  function ParseMembers(s: seq<char>, pos: nat, acc: seq<Value>): (r: Parsed)
    requires pos <= |s|
    ensures r.Ok? ==> pos < r.next <= |s|
    ensures r.Ok? ==> r.value.Object? && |r.value.pairs| % 2 == |acc| % 2
    decreases |s| - pos, 2
  {
    var close := HasChar(s, pos, '}');
    if close.found then Ok(Object(acc), close.next)
    else match ParsePair(s, close.next)
      case PairFail => Fail
      case PairOk(key, val, afterValue) =>
        assert |acc + [key, val]| % 2 == |acc| % 2;
        AfterPair(s, afterValue, acc + [key, val])
  }

  /** The outcome of parsing one key ':' value pair. */
  datatype PairParsed = PairOk(key: Value, val: Value, next: nat) | PairFail

  /**
   * One pass of the object loop up to the push: a key (any value, not only a
   * string), a ':' and a value.
   */
  function ParsePair(s: seq<char>, pos: nat): (r: PairParsed)
    requires pos <= |s|
    ensures r.PairOk? ==> pos < r.next <= |s|
    decreases |s| - pos, 1
  {
    match ParseValue(s, pos, Null)
    case Fail => PairFail
    case Ok(key, afterKey) =>
      var colon := HasChar(s, afterKey, ':');
      if !colon.found then PairFail
      else match ParseValue(s, colon.next, Null)
        case Fail => PairFail
        case Ok(val, afterValue) => PairOk(key, val, afterValue)
  }

  /**
   * The end of one pass of the object loop, with the pair just pushed: then '}'
   * ends the object while ',' goes round again, so a ',' just before '}' is
   * accepted.
   */
  function AfterPair(s: seq<char>, pos: nat, pairs: seq<Value>): (r: Parsed)
    requires pos <= |s|
    ensures r.Ok? ==> pos < r.next <= |s|
    ensures r.Ok? ==> r.value.Object? && |r.value.pairs| % 2 == |pairs| % 2
    decreases |s| - pos, 1
  {
    var close := HasChar(s, SkipWhitespace(s, pos), '}');
    if close.found then Ok(Object(pairs), close.next)
    else
      var comma := HasChar(s, close.next, ',');
      if comma.found then ParseMembers(s, comma.next, pairs) else Fail
  }

  /**
   * json_parse_array, entered just after '[' and the blanks that follow it, with
   * acc the elements the array already holds: a ']' right there ends it; otherwise
   * the element loop runs.
   */
  function ParseArray(s: seq<char>, pos: nat, acc: seq<Value>): (r: Parsed)
    requires pos <= |s|
    ensures r.Ok? ==> pos < r.next <= |s|
    ensures r.Ok? ==> r.value.Array?
    decreases |s| - pos, 3
  {
    if pos < |s| && s[pos] == ']' then Ok(Array(acc), pos + 1)
    else ParseElements(s, pos, acc)
  }

  /**
   * The loop of json_parse_array: an element is parsed and pushed; then ']' ends
   * the array and ',' goes round again, so a ',' just before ']' makes the next
   * element parse fail.
   */
  function ParseElements(s: seq<char>, pos: nat, acc: seq<Value>): (r: Parsed)
    requires pos <= |s|
    ensures r.Ok? ==> pos < r.next <= |s|
    ensures r.Ok? ==> r.value.Array? && |r.value.elems| > |acc|
    decreases |s| - pos, 2
  {
    match ParseValue(s, pos, Null)
    case Fail => Fail
    case Ok(elem, afterElem) =>
      var elems := acc + [elem];
      var close := HasChar(s, SkipWhitespace(s, SkipWhitespace(s, afterElem)), ']');
      if close.found then Ok(Array(elems), close.next)
      else
        var comma := HasChar(s, close.next, ',');
        if comma.found then ParseElements(s, comma.next, elems) else Fail
  }

  /**
   * json_parse: one value read from the start of the buffer's text into result.
   * What follows the value is not looked at. On failure there is no value to use.
   */
  function Parse(buffer: seq<char>, result: Value): (r: Option<Value>)
    ensures r.Some? && WellFormed(result) ==> WellFormed(r.value)
  {
    ValueShape(UntilTerminator(buffer), 0, result);
    match ParseValue(UntilTerminator(buffer), 0, result)
    case Ok(v, _) => Some(v)
    case Fail => None
  }

  /**
   * The literal arms of json_parse_value: after the blanks, a 't', 'f' or 'n'
   * succeeds exactly when the whole literal follows, with no look at the next
   * character; true and false give the Bool 1 and 0, and null hands back the
   * parent as it was.
   */
  lemma Literals(s: seq<char>, pos: nat, parent: Value)
    requires pos <= |s|
    ensures var p := SkipWhitespace(s, pos);
      p < |s| && s[p] == 't' ==>
        ParseValue(s, pos, parent) == if "true" <= s[p..] then Ok(Bool(true), p + 4) else Fail
    ensures var p := SkipWhitespace(s, pos);
      p < |s| && s[p] == 'f' ==>
        ParseValue(s, pos, parent) == if "false" <= s[p..] then Ok(Bool(false), p + 5) else Fail
    ensures var p := SkipWhitespace(s, pos);
      p < |s| && s[p] == 'n' ==>
        ParseValue(s, pos, parent) == if "null" <= s[p..] then Ok(parent, p + 4) else Fail
  {
  }

  /**
   * A string token succeeds exactly when a closing quote follows the opening
   * one, and its payload never holds a quote.
   */
  lemma StringToken(s: seq<char>, p: nat)
    requires p < |s|
    ensures ParseString(s, p).Ok? <==> exists e :: p < e < |s| && s[e] == '"'
    ensures ParseString(s, p).Ok? ==> '"' !in ParseString(s, p).value.chars
  {
    var e := FindChar(s, p + 1, '"');
    FindCharSkipsOthers(s, p + 1, '"');
    if e < |s| {
      assert s[p + 1..e] == ParseString(s, p).value.chars;
    }
  }

  /**
   * The shape of what json_parse_value builds: when the parent is well formed
   * (the null literal returns it), so is the result; every object holds whole
   * key/value pairs.
   */
  lemma {:induction false} ValueShape(s: seq<char>, pos: nat, parent: Value)
    requires pos <= |s|
    ensures ParseValue(s, pos, parent).Ok? && WellFormed(parent) ==>
      WellFormed(ParseValue(s, pos, parent).value)
    decreases |s| - pos, 0
  {
    var p := SkipWhitespace(s, pos);
    if p < |s| && s[p] == '{' {
      ObjectShape(s, SkipWhitespace(s, p + 1));
    } else if p < |s| && s[p] == '[' {
      ArrayShape(s, SkipWhitespace(s, p + 1), []);
    }
  }

  /** An object json_parse_object builds is well formed. */
  lemma {:induction false} ObjectShape(s: seq<char>, pos: nat)
    requires pos <= |s|
    ensures ParseObject(s, pos).Ok? ==> WellFormed(ParseObject(s, pos).value)
    decreases |s| - pos, 3
  {
    MembersShape(s, pos, []);
  }

  /**
   * The object loop only appends: the pairs already pushed stay a prefix, and
   * every slot it adds holds a well-formed value.
   */
  lemma {:induction false} MembersShape(s: seq<char>, pos: nat, acc: seq<Value>)
    requires pos <= |s|
    ensures var r := ParseMembers(s, pos, acc);
      r.Ok? ==> (acc <= r.value.pairs &&
        forall i | |acc| <= i < |r.value.pairs| :: WellFormed(r.value.pairs[i]))
    decreases |s| - pos, 2
  {
    var close := HasChar(s, pos, '}');
    if !close.found {
      PairShape(s, close.next);
      match ParsePair(s, close.next)
      case PairFail =>
      case PairOk(key, val, afterValue) =>
        AfterPairShape(s, afterValue, acc + [key, val]);
    }
  }

  /** Both halves of a parsed pair are well formed. */
  lemma {:induction false} PairShape(s: seq<char>, pos: nat)
    requires pos <= |s|
    ensures ParsePair(s, pos).PairOk? ==>
      WellFormed(ParsePair(s, pos).key) && WellFormed(ParsePair(s, pos).val)
    decreases |s| - pos, 1
  {
    ValueShape(s, pos, Null);
    match ParseValue(s, pos, Null)
    case Fail =>
    case Ok(key, afterKey) =>
      var colon := HasChar(s, afterKey, ':');
      if colon.found {
        ValueShape(s, colon.next, Null);
      }
  }

  /** The rest of the object loop after a push also only appends well-formed slots. */
  lemma {:induction false} AfterPairShape(s: seq<char>, pos: nat, pairs: seq<Value>)
    requires pos <= |s|
    ensures var r := AfterPair(s, pos, pairs);
      r.Ok? ==> (pairs <= r.value.pairs &&
        forall i | |pairs| <= i < |r.value.pairs| :: WellFormed(r.value.pairs[i]))
    decreases |s| - pos, 1
  {
    var close := HasChar(s, SkipWhitespace(s, pos), '}');
    if !close.found {
      var comma := HasChar(s, close.next, ',');
      if comma.found {
        MembersShape(s, comma.next, pairs);
      }
    }
  }

  /** json_parse_array keeps the elements it was given and adds well-formed ones. */
  lemma {:induction false} ArrayShape(s: seq<char>, pos: nat, acc: seq<Value>)
    requires pos <= |s|
    ensures var r := ParseArray(s, pos, acc);
      r.Ok? ==> (acc <= r.value.elems &&
        forall i | |acc| <= i < |r.value.elems| :: WellFormed(r.value.elems[i]))
    decreases |s| - pos, 3
  {
    if !(pos < |s| && s[pos] == ']') {
      ElementsShape(s, pos, acc);
    }
  }

  /** The element loop only appends, and only well-formed elements. */
  lemma {:induction false} ElementsShape(s: seq<char>, pos: nat, acc: seq<Value>)
    requires pos <= |s|
    ensures var r := ParseElements(s, pos, acc);
      r.Ok? ==> (acc <= r.value.elems &&
        forall i | |acc| <= i < |r.value.elems| :: WellFormed(r.value.elems[i]))
    decreases |s| - pos, 2
  {
    ValueShape(s, pos, Null);
    match ParseValue(s, pos, Null)
    case Fail =>
    case Ok(elem, afterElem) =>
      var close := HasChar(s, SkipWhitespace(s, SkipWhitespace(s, afterElem)), ']');
      if !close.found {
        var comma := HasChar(s, close.next, ',');
        if comma.found {
          ElementsShape(s, comma.next, acc + [elem]);
        }
      }
  }
}
