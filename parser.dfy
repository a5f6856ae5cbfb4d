/**
 * The parser of json_parser.c as it runs: the cursor advances step by step,
 * skip_whitespace loops, and json_parse_object / json_parse_array loop while
 * pushing into vectors. Each method is proved to compute the corresponding
 * function of the Lexer and Grammar modules.
 */
module Parser {

  import opened Wrappers
  import opened JsonValues
  import opened Vectors
  import Lexer
  import Strtod
  import Grammar
  import Cleanup

  /** skip_whitespace: advances the cursor over control characters and spaces. */
  method SkipWhitespace(s: seq<char>, cursor: nat) returns (next: nat)
    requires cursor <= |s|
    ensures next == Lexer.SkipWhitespace(s, cursor)
  {
    next := cursor;
    if next == |s| {
      return;
    }
    while next < |s| && Lexer.IsBlank(s[next])
      invariant cursor <= next <= |s|
      invariant Lexer.SkipWhitespace(s, next) == Lexer.SkipWhitespace(s, cursor)
    {
      next := next + 1;
    }
  }

  /** has_char: skips blanks, then consumes c if it is the next character. */
  method HasChar(s: seq<char>, cursor: nat, c: char) returns (found: bool, next: nat)
    requires cursor <= |s|
    ensures Lexer.Step(found, next) == Lexer.HasChar(s, cursor, c)
  {
    next := SkipWhitespace(s, cursor);
    found := next < |s| && s[next] == c;
    if found {
      next := next + 1;
    }
  }

  /**
   * json_parse_value: dispatches on the first character after the blanks. freed
   * is what it releases on the way.
   */
  method ParseValue(s: seq<char>, cursor: nat, parent: Value)
    returns (success: bool, next: nat, value: Value, freed: seq<Block>)
    requires cursor <= |s|
    ensures success <==> Grammar.ParseValue(s, cursor, parent).Ok?
    ensures success ==> Grammar.ParseValue(s, cursor, parent) == Grammar.Ok(value, next)
    ensures freed == Cleanup.ValueFreed(s, cursor)
    decreases |s| - cursor, 0
  {
    success, value, freed := false, parent, [];
    next := SkipWhitespace(s, cursor);
    if next == |s| {
      // the terminator: nothing to parse
    } else if s[next] == '{' {
      next := SkipWhitespace(s, next + 1);
      success, next, value, freed := ParseObject(s, next);
    } else if s[next] == '[' {
      next := SkipWhitespace(s, next + 1);
      success, next, value, freed := ParseArrayValue(s, next);
    } else {
      // strings, literals and numbers: strchr, strncmp and strtod do the scanning
      match Grammar.ParseScalar(s, next, parent)
      case Ok(v, n) =>
        success, next, value := true, n, v;
      case Fail =>
    }
  }

  /**
   * The '[' arm of json_parse_value, after '[' and its blanks: the value becomes
   * an array with a fresh vector that json_parse_array fills; on failure only the
   * vector's buffer is released (vector_free).
   */
  method ParseArrayValue(s: seq<char>, cursor: nat) returns (success: bool, next: nat, value: Value, freed: seq<Block>)
    requires cursor <= |s|
    ensures success <==> Grammar.ParseArray(s, cursor, []).Ok?
    ensures success ==> Grammar.ParseArray(s, cursor, []) == Grammar.Ok(value, next)
    ensures freed == Cleanup.ArrayFreed(s, cursor, [])
    decreases |s| - cursor, 4
  {
    var elems := new Vector<Value>.Init();
    success, next, freed := ParseArray(s, cursor, elems);
    if success {
      value := Array(elems.Elements());
    } else {
      var count := elems.size;
      elems.Free();
      value := Null;
      freed := freed + [VectorBlock(count)];
    }
  }

  /**
   * json_parse_object, entered after '{' and its blanks: pairs are pushed into a
   * fresh vector until '}'; on failure the object built so far is released
   * (json_free_value on the result: every pair pushed, then the vector).
   */
  method ParseObject(s: seq<char>, cursor: nat) returns (success: bool, next: nat, value: Value, freed: seq<Block>)
    requires cursor <= |s|
    ensures success <==> Grammar.ParseObject(s, cursor).Ok?
    ensures success ==> Grammar.ParseObject(s, cursor) == Grammar.Ok(value, next)
    ensures freed == Cleanup.MembersFreed(s, cursor, [])
    decreases |s| - cursor, 3
  {
    var pairs := new Vector<Value>.Init();
    next, freed := cursor, [];
    var pass := More;
    while pass == More
      invariant fresh(pairs) && fresh(pairs.data) && pairs.Valid()
      invariant cursor <= next <= |s|
      invariant pass == More ==> Grammar.ParseMembers(s, next, pairs.Elements()) == Grammar.ParseObject(s, cursor)
      invariant pass == More ==> Cleanup.MembersFreed(s, next, pairs.Elements()) == Cleanup.MembersFreed(s, cursor, [])
      invariant pass == Closed ==> Grammar.ParseObject(s, cursor) == Grammar.Ok(Object(pairs.Elements()), next)
      invariant pass == Closed ==> freed == [] && Cleanup.MembersFreed(s, cursor, []) == []
      invariant pass == Failed ==> Grammar.ParseObject(s, cursor) == Grammar.Fail
      invariant pass == Failed ==> Cleanup.MembersFreed(s, cursor, []) == freed + Released(Object(pairs.Elements()))
      decreases |s| - next, if pass == More then 1 else 0
    {
      pass, next, freed := ParseMember(s, next, pairs);
    }
    success := pass == Closed;
    if success {
      value := Object(pairs.Elements());
    } else {
      var released;
      value, released := Release(Object(pairs.Elements()));
      pairs.Free();
      freed := freed + released;
    }
  }

  /** How one pass of the object loop ended. */
  datatype Pass = More | Closed | Failed

  /**
   * One pass of the object loop: '}' closes the object; otherwise a pair is
   * parsed and pushed into pairs, and then '}' closes the object or ',' asks
   * for another pass. When the pass fails, freed is what it released itself:
   * the failing pair's blocks; the caller then releases the pairs.
   */
  method ParseMember(s: seq<char>, cursor: nat, pairs: Vector<Value>) returns (pass: Pass, next: nat, freed: seq<Block>)
    requires cursor <= |s| && pairs.Valid()
    modifies pairs, pairs.data
    ensures pairs.Valid() && (pairs.data == old(pairs.data) || fresh(pairs.data))
    ensures cursor <= next <= |s|
    ensures pass == More ==> cursor < next
    ensures pass == More ==>
      Grammar.ParseMembers(s, cursor, old(pairs.Elements())) == Grammar.ParseMembers(s, next, pairs.Elements())
    ensures pass == Closed ==>
      Grammar.ParseMembers(s, cursor, old(pairs.Elements())) == Grammar.Ok(Object(pairs.Elements()), next)
    ensures pass == Failed ==> Grammar.ParseMembers(s, cursor, old(pairs.Elements())) == Grammar.Fail
    ensures pass == More ==> (freed == [] &&
      Cleanup.MembersFreed(s, cursor, old(pairs.Elements())) == Cleanup.MembersFreed(s, next, pairs.Elements()))
    ensures pass == Closed ==> freed == [] && Cleanup.MembersFreed(s, cursor, old(pairs.Elements())) == []
    ensures pass == Failed ==>
      Cleanup.MembersFreed(s, cursor, old(pairs.Elements())) == freed + Released(Object(pairs.Elements()))
    decreases |s| - cursor, 2
  {
    ghost var acc := pairs.Elements();
    var closed;
    closed, next := HasChar(s, cursor, '}');
    if closed {
      return Closed, next, [];
    }
    var ok, key, val;
    ok, next, key, val, freed := ParsePair(s, next);
    if !ok {
      return Failed, cursor, freed;
    }
    Cleanup.MembersStep(s, cursor, acc, key, val, next);
    ghost var afterValue := next;
    PushPair(pairs, key, val);
    var comma;
    closed, comma, next := AfterPair(s, next);
    pass := if closed then Closed else if comma then More else Failed;
  }

  /** The two vector_push_back calls of one pass of the object loop: the key, then the value. */
  method PushPair(pairs: Vector<Value>, key: Value, val: Value)
    requires pairs.Valid()
    modifies pairs, pairs.data
    ensures pairs.Valid() && pairs.Elements() == old(pairs.Elements()) + [key, val]
    ensures pairs.data == old(pairs.data) || fresh(pairs.data)
  {
    pairs.PushBack(key);
    pairs.PushBack(val);
    assert pairs.Elements() == old(pairs.Elements()) + [key, val];
  }

  /**
   * The tail of one pass of the object loop, after the push: blanks, then '}'
   * closes the object, otherwise a ',' must follow.
   */
  method AfterPair(s: seq<char>, cursor: nat) returns (closed: bool, comma: bool, next: nat)
    requires cursor <= |s|
    ensures var close := Lexer.HasChar(s, Lexer.SkipWhitespace(s, cursor), '}');
      && closed == close.found
      && (closed ==> next == close.next)
      && (!closed ==> Lexer.Step(comma, next) == Lexer.HasChar(s, close.next, ','))
  {
    next := SkipWhitespace(s, cursor);
    closed, next := HasChar(s, next, '}');
    comma := false;
    if !closed {
      comma, next := HasChar(s, next, ',');
    }
  }

  /**
   * One pass of the object loop up to the push: key, ':' and value. When the
   * ':' or the value is missing the parsed key is released (json_free_value).
   * A key that failed to parse owns nothing any more, so it is not released.
   */
  method ParsePair(s: seq<char>, cursor: nat) returns (success: bool, next: nat, key: Value, val: Value, freed: seq<Block>)
    requires cursor <= |s|
    ensures success <==> Grammar.ParsePair(s, cursor).PairOk?
    ensures success ==> Grammar.ParsePair(s, cursor) == Grammar.PairOk(key, val, next)
    ensures freed == Cleanup.PairFreed(s, cursor)
    decreases |s| - cursor, 1
  {
    val := Null;
    success, next, key, freed := ParseValue(s, cursor, Null);
    if !success {
      key := Null;
      return;
    }
    freed := [];
    success, next := HasChar(s, next, ':');
    if success {
      var dropped;
      success, next, val, dropped := ParseValue(s, next, Null);
      if !success {
        freed := dropped;
      }
    }
    if !success {
      var released;
      key, released := Release(key);
      freed := freed + released;
    }
  }

  /**
   * json_parse_array, entered after '[' and its blanks: elements are pushed into
   * the vector elems (the one json_parse_value gave the array) until ']'. On
   * failure freed is what the failing element released; the caller then frees
   * the vector and nothing else.
   */
  method ParseArray(s: seq<char>, cursor: nat, elems: Vector<Value>) returns (success: bool, next: nat, freed: seq<Block>)
    requires cursor <= |s| && elems.Valid()
    modifies elems, elems.data
    ensures elems.Valid()
    ensures success <==> Grammar.ParseArray(s, cursor, old(elems.Elements())).Ok?
    ensures success ==>
      Grammar.ParseArray(s, cursor, old(elems.Elements())) == Grammar.Ok(Array(elems.Elements()), next)
    ensures success ==> freed == [] && Cleanup.ArrayFreed(s, cursor, old(elems.Elements())) == []
    ensures !success ==>
      Cleanup.ArrayFreed(s, cursor, old(elems.Elements())) == freed + [VectorBlock(elems.size)]
    decreases |s| - cursor, 3
  {
    success, freed := true, [];
    next := cursor;
    if next < |s| && s[next] == ']' {
      next := next + 1;
      return;
    }
    var pass := More;
    while pass == More
      invariant elems.Valid() && (elems.data == old(elems.data) || fresh(elems.data))
      invariant cursor <= next <= |s|
      invariant pass == More ==> (freed == [] &&
        Grammar.ParseElements(s, next, elems.Elements()) == Grammar.ParseArray(s, cursor, old(elems.Elements())) &&
        Cleanup.ElementsFreed(s, next, elems.Elements()) == Cleanup.ArrayFreed(s, cursor, old(elems.Elements())))
      invariant pass == Closed ==> (freed == [] &&
        Grammar.ParseArray(s, cursor, old(elems.Elements())) == Grammar.Ok(Array(elems.Elements()), next) &&
        Cleanup.ArrayFreed(s, cursor, old(elems.Elements())) == [])
      invariant pass == Failed ==> (Grammar.ParseArray(s, cursor, old(elems.Elements())) == Grammar.Fail &&
        Cleanup.ArrayFreed(s, cursor, old(elems.Elements())) == freed + [VectorBlock(elems.size)])
      decreases |s| - next, if pass == More then 1 else 0
    {
      pass, next, freed := ParseElement(s, next, elems);
    }
    success := pass == Closed;
  }

  /**
   * One pass of the array loop: an element is parsed and pushed into elems; then
   * ']' closes the array, ',' asks for another pass, and anything else fails.
   * When the element fails, freed is what its parse released; a failing pass
   * leaves the vector to the caller.
   */
  method ParseElement(s: seq<char>, cursor: nat, elems: Vector<Value>) returns (pass: Pass, next: nat, freed: seq<Block>)
    requires cursor <= |s| && elems.Valid()
    modifies elems, elems.data
    ensures elems.Valid() && (elems.data == old(elems.data) || fresh(elems.data))
    ensures cursor <= next <= |s|
    ensures pass == More ==> cursor < next
    ensures pass == More ==> (freed == [] &&
      Grammar.ParseElements(s, cursor, old(elems.Elements())) == Grammar.ParseElements(s, next, elems.Elements()) &&
      Cleanup.ElementsFreed(s, cursor, old(elems.Elements())) == Cleanup.ElementsFreed(s, next, elems.Elements()))
    ensures pass == Closed ==> (freed == [] &&
      Grammar.ParseElements(s, cursor, old(elems.Elements())) == Grammar.Ok(Array(elems.Elements()), next) &&
      Cleanup.ElementsFreed(s, cursor, old(elems.Elements())) == [])
    ensures pass == Failed ==> (Grammar.ParseElements(s, cursor, old(elems.Elements())) == Grammar.Fail &&
      Cleanup.ElementsFreed(s, cursor, old(elems.Elements())) == freed + [VectorBlock(elems.size)])
    decreases |s| - cursor, 2
  {
    var ok, elem;
    ok, next, elem, freed := ParseValue(s, cursor, Null);
    if !ok {
      return Failed, cursor, freed;
    }
    freed := [];
    next := SkipWhitespace(s, next);
    elems.PushBack(elem);
    next := SkipWhitespace(s, next);
    var closed, comma;
    closed, next := HasChar(s, next, ']');
    if closed {
      return Closed, next, [];
    }
    comma, next := HasChar(s, next, ',');
    pass := if comma then More else Failed;
  }

  /**
   * json_parse: parses one value from the start of the buffer's text into
   * result; freed is what it released on the way.
   */
  method Parse(buffer: seq<char>, result: Value) returns (success: bool, value: Value, freed: seq<Block>)
    ensures success <==> Grammar.Parse(buffer, result).Some?
    ensures success ==> Grammar.Parse(buffer, result) == Some(value)
    ensures freed == Cleanup.ValueFreed(Lexer.UntilTerminator(buffer), 0)
  {
    var text := Lexer.UntilTerminator(buffer);
    var next;
    success, next, value, freed := ParseValue(text, 0, result);
  }
}
