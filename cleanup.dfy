/**
 * What the parser of json_parser.c releases while it parses, as the trace of
 * blocks json_free_value and vector_free give back. A successful parse releases
 * nothing. A failing object releases the key of a failing pair and then
 * everything pushed so far (json_free_value on the result); a failing array
 * releases only its vector's buffer, so the elements already pushed leak.
 */
module Cleanup {

  import opened JsonValues
  import opened Lexer
  import opened Grammar

  /**
   * The blocks json_parse_value releases when it parses at pos. The scalar arms
   * allocate nothing that a failure would give back.
   */
  function ValueFreed(s: seq<char>, pos: nat): (r: seq<Block>)
    requires pos <= |s|
    ensures EndsWithBuffer(r, 0)
    decreases |s| - pos, 0
  {
    var p := SkipWhitespace(s, pos);
    if p == |s| then []
    else if s[p] == '{' then MembersFreed(s, SkipWhitespace(s, p + 1), [])
    else if s[p] == '[' then ArrayFreed(s, SkipWhitespace(s, p + 1), [])
    else []
  }

  /**
   * The blocks the object loop releases from pos with acc the pairs pushed so
   * far: when a pair fails, what its own parse released and its key, then acc;
   * when a pushed pair is followed by neither '}' nor ',', all pairs pushed.
   */
  function MembersFreed(s: seq<char>, pos: nat, acc: seq<Value>): (r: seq<Block>)
    requires pos <= |s|
    ensures EndsWithBuffer(r, |acc|)
    decreases |s| - pos, 2
  {
    var close := HasChar(s, pos, '}');
    if close.found then []
    else match ParsePair(s, close.next)
      case PairFail => PairFreed(s, close.next) + Released(Object(acc))
      case PairOk(key, val, afterValue) => AfterPairFreed(s, afterValue, acc + [key, val])
  }

  /**
   * The blocks one failing pair releases: a failing key releases what its own
   * parse released (json_free_value on it then finds nothing: it is Null, or an
   * array whose buffer is already gone); a parsed key is released when the ':'
   * or the value is missing, after what the failing value released.
   */
  function PairFreed(s: seq<char>, pos: nat): (r: seq<Block>)
    requires pos <= |s|
    ensures ParsePair(s, pos).PairOk? ==> r == []
    ensures ParseValue(s, pos, Null).Ok? && ParsePair(s, pos).PairFail? ==>
      EndsWith(r, Released(ParseValue(s, pos, Null).value))
    decreases |s| - pos, 1
  {
    match ParseValue(s, pos, Null)
    case Fail => ValueFreed(s, pos)
    case Ok(key, afterKey) =>
      var colon := HasChar(s, afterKey, ':');
      if !colon.found then Released(key)
      else match ParseValue(s, colon.next, Null)
        case Fail => ValueFreed(s, colon.next) + Released(key)
        case Ok(_, _) => []
  }

  /** The blocks the object loop releases after the push of a pair. */
  function AfterPairFreed(s: seq<char>, pos: nat, pairs: seq<Value>): (r: seq<Block>)
    requires pos <= |s|
    ensures EndsWithBuffer(r, |pairs|)
    decreases |s| - pos, 1
  {
    var close := HasChar(s, SkipWhitespace(s, pos), '}');
    if close.found then []
    else
      var comma := HasChar(s, close.next, ',');
      if comma.found then MembersFreed(s, comma.next, pairs) else Released(Object(pairs))
  }

  /**
   * The blocks json_parse_array and the vector_free after it release, with acc
   * the elements the vector already holds.
   */
  function ArrayFreed(s: seq<char>, pos: nat, acc: seq<Value>): (r: seq<Block>)
    requires pos <= |s|
    ensures EndsWithBuffer(r, |acc|)
    decreases |s| - pos, 3
  {
    if pos < |s| && s[pos] == ']' then [] else ElementsFreed(s, pos, acc)
  }

  /**
   * The element loop: a failing element releases what its own parse released,
   * and then only the vector's buffer goes; the element itself and those pushed
   * before it are not released.
   */
  function ElementsFreed(s: seq<char>, pos: nat, acc: seq<Value>): (r: seq<Block>)
    requires pos <= |s|
    ensures EndsWithBuffer(r, |acc|)
    decreases |s| - pos, 2
  {
    match ParseValue(s, pos, Null)
    case Fail => ValueFreed(s, pos) + [VectorBlock(|acc|)]
    case Ok(elem, afterElem) =>
      var close := HasChar(s, SkipWhitespace(s, SkipWhitespace(s, afterElem)), ']');
      if close.found then []
      else
        var comma := HasChar(s, close.next, ',');
        if comma.found then ElementsFreed(s, comma.next, acc + [elem]) else [VectorBlock(|acc| + 1)]
  }

  /** json_parse_value with a '{' after the blanks is the object loop after the blanks that follow it. */
  lemma ObjectArm(s: seq<char>, pos: nat, parent: Value)
    requires pos <= |s| && SkipWhitespace(s, pos) < |s| && s[SkipWhitespace(s, pos)] == '{'
    ensures var p := SkipWhitespace(s, pos) + 1;
      ParseValue(s, pos, parent) == ParseMembers(s, SkipWhitespace(s, p), []) &&
      ValueFreed(s, pos) == MembersFreed(s, SkipWhitespace(s, p), [])
  {
  }

  /** json_parse_value with a '[' after the blanks is json_parse_array after the blanks that follow it. */
  lemma ArrayArm(s: seq<char>, pos: nat, parent: Value)
    requires pos <= |s| && SkipWhitespace(s, pos) < |s| && s[SkipWhitespace(s, pos)] == '['
    ensures var p := SkipWhitespace(s, pos) + 1;
      ParseValue(s, pos, parent) == ParseArray(s, SkipWhitespace(s, p), []) &&
      ValueFreed(s, pos) == ArrayFreed(s, SkipWhitespace(s, p), [])
  {
  }

  /** The object loop at a '}': the object ends with the pairs pushed so far. */
  lemma MembersClose(s: seq<char>, pos: nat, acc: seq<Value>)
    requires pos <= |s| && HasChar(s, pos, '}').found
    ensures ParseMembers(s, pos, acc) == Ok(Object(acc), HasChar(s, pos, '}').next)
    ensures MembersFreed(s, pos, acc) == []
  {
  }

  /** A pair parsed at pos: the object loop goes on after it with the pair pushed. */
  lemma MembersStep(s: seq<char>, pos: nat, acc: seq<Value>, key: Value, val: Value, after: nat)
    requires pos <= |s| && !HasChar(s, pos, '}').found
    requires ParsePair(s, HasChar(s, pos, '}').next) == PairOk(key, val, after)
    ensures ParseMembers(s, pos, acc) == AfterPair(s, after, acc + [key, val])
    ensures MembersFreed(s, pos, acc) == AfterPairFreed(s, after, acc + [key, val])
  {
  }

  /** A pair failing at pos: the object fails, releasing the pair's blocks and then acc. */
  lemma MembersPairFail(s: seq<char>, pos: nat, acc: seq<Value>)
    requires pos <= |s| && !HasChar(s, pos, '}').found
    requires ParsePair(s, HasChar(s, pos, '}').next) == PairFail
    ensures ParseMembers(s, pos, acc) == Fail
    ensures MembersFreed(s, pos, acc) ==
      PairFreed(s, HasChar(s, pos, '}').next) + Released(Object(acc))
  {
  }

  /** After a pushed pair, a '}': the object ends. */
  lemma AfterPairClose(s: seq<char>, pos: nat, pairs: seq<Value>)
    requires pos <= |s| && HasChar(s, SkipWhitespace(s, pos), '}').found
    ensures AfterPair(s, pos, pairs) == Ok(Object(pairs), HasChar(s, SkipWhitespace(s, pos), '}').next)
    ensures AfterPairFreed(s, pos, pairs) == []
  {
  }

  /** After a pushed pair, a ',': the object loop goes round again. */
  lemma AfterPairComma(s: seq<char>, pos: nat, pairs: seq<Value>)
    requires pos <= |s| && !HasChar(s, SkipWhitespace(s, pos), '}').found
    requires HasChar(s, HasChar(s, SkipWhitespace(s, pos), '}').next, ',').found
    ensures var next := HasChar(s, HasChar(s, SkipWhitespace(s, pos), '}').next, ',').next;
      AfterPair(s, pos, pairs) == ParseMembers(s, next, pairs) &&
      AfterPairFreed(s, pos, pairs) == MembersFreed(s, next, pairs)
  {
  }

  /** After a pushed pair, neither '}' nor ',': the object fails and releases all it holds. */
  lemma AfterPairNeither(s: seq<char>, pos: nat, pairs: seq<Value>)
    requires pos <= |s| && !HasChar(s, SkipWhitespace(s, pos), '}').found
    requires !HasChar(s, HasChar(s, SkipWhitespace(s, pos), '}').next, ',').found
    ensures AfterPair(s, pos, pairs) == Fail
    ensures AfterPairFreed(s, pos, pairs) == Released(Object(pairs))
  {
  }

  /** An element that fails: the array fails too. */
  lemma ElementFails(s: seq<char>, pos: nat, acc: seq<Value>)
    requires pos <= |s| && ParseValue(s, pos, Null) == Fail
    ensures ParseElements(s, pos, acc) == Fail
  {
  }

  /** An element followed by ']': the array ends with it pushed. */
  lemma ElementsClose(s: seq<char>, pos: nat, acc: seq<Value>, elem: Value, after: nat)
    requires pos <= |s| && ParseValue(s, pos, Null) == Ok(elem, after)
    requires HasChar(s, SkipWhitespace(s, SkipWhitespace(s, after)), ']').found
    ensures ParseElements(s, pos, acc) ==
      Ok(Array(acc + [elem]), HasChar(s, SkipWhitespace(s, SkipWhitespace(s, after)), ']').next)
    ensures ElementsFreed(s, pos, acc) == []
  {
  }

  /** An element followed by ',': the element loop goes round again with it pushed. */
  lemma ElementsComma(s: seq<char>, pos: nat, acc: seq<Value>, elem: Value, after: nat)
    requires pos <= |s| && ParseValue(s, pos, Null) == Ok(elem, after)
    requires !HasChar(s, SkipWhitespace(s, SkipWhitespace(s, after)), ']').found
    requires HasChar(s, HasChar(s, SkipWhitespace(s, SkipWhitespace(s, after)), ']').next, ',').found
    ensures var next := HasChar(s, HasChar(s, SkipWhitespace(s, SkipWhitespace(s, after)), ']').next, ',').next;
      ParseElements(s, pos, acc) == ParseElements(s, next, acc + [elem]) &&
      ElementsFreed(s, pos, acc) == ElementsFreed(s, next, acc + [elem])
  {
  }

  /** An element followed by neither ']' nor ',': the array fails, releasing only its buffer. */
  lemma ElementsNeither(s: seq<char>, pos: nat, acc: seq<Value>, elem: Value, after: nat)
    requires pos <= |s| && ParseValue(s, pos, Null) == Ok(elem, after)
    requires !HasChar(s, SkipWhitespace(s, SkipWhitespace(s, after)), ']').found
    requires !HasChar(s, HasChar(s, SkipWhitespace(s, SkipWhitespace(s, after)), ']').next, ',').found
    ensures ParseElements(s, pos, acc) == Fail
    ensures ElementsFreed(s, pos, acc) == [VectorBlock(|acc| + 1)]
  {
  }

  /** A value that parses releases nothing on the way: no block of it is given back. */
  lemma {:induction false} ValueSuccessFreesNothing(s: seq<char>, pos: nat, parent: Value)
    requires pos <= |s|
    ensures ParseValue(s, pos, parent).Ok? ==> ValueFreed(s, pos) == []
    decreases |s| - pos, 0
  {
    var p := SkipWhitespace(s, pos);
    if p < |s| && s[p] == '{' {
      ObjectArm(s, pos, parent);
      MembersSuccessFreesNothing(s, SkipWhitespace(s, p + 1), []);
    } else if p < |s| && s[p] == '[' {
      ArrayArm(s, pos, parent);
      var q := SkipWhitespace(s, p + 1);
      if !(q < |s| && s[q] == ']') {
        assert ParseArray(s, q, []) == ParseElements(s, q, []);
        assert ArrayFreed(s, q, []) == ElementsFreed(s, q, []);
        ElementsSuccessFreesNothing(s, q, []);
      }
    }
  }

  lemma {:induction false} MembersSuccessFreesNothing(s: seq<char>, pos: nat, acc: seq<Value>)
    requires pos <= |s|
    ensures ParseMembers(s, pos, acc).Ok? ==> MembersFreed(s, pos, acc) == []
    decreases |s| - pos, 2
  {
    var close := HasChar(s, pos, '}');
    if !close.found {
      match ParsePair(s, close.next)
      case PairFail =>
      case PairOk(key, val, afterValue) =>
        var close' := HasChar(s, SkipWhitespace(s, afterValue), '}');
        var comma := HasChar(s, close'.next, ',');
        assert ParseMembers(s, pos, acc) == AfterPair(s, afterValue, acc + [key, val]);
        assert MembersFreed(s, pos, acc) == AfterPairFreed(s, afterValue, acc + [key, val]);
        if !close'.found && comma.found {
          MembersSuccessFreesNothing(s, comma.next, acc + [key, val]);
        }
    }
  }

  lemma {:induction false} ElementsSuccessFreesNothing(s: seq<char>, pos: nat, acc: seq<Value>)
    requires pos <= |s|
    ensures ParseElements(s, pos, acc).Ok? ==> ElementsFreed(s, pos, acc) == []
    decreases |s| - pos, 2
  {
    match ParseValue(s, pos, Null)
    case Fail =>
    case Ok(elem, afterElem) =>
      var close := HasChar(s, SkipWhitespace(s, SkipWhitespace(s, afterElem)), ']');
      var comma := HasChar(s, close.next, ',');
      if !close.found && comma.found {
        ElementsSuccessFreesNothing(s, comma.next, acc + [elem]);
      }
  }

  /** A trace that releases anything ends with the buffer of a vector of at least n elements. */
  predicate EndsWithBuffer(t: seq<Block>, n: nat)
  {
    t != [] ==> t[|t| - 1].VectorBlock? && t[|t| - 1].size >= n
  }

  /** The trace t ends with the blocks u. */
  predicate EndsWith(t: seq<Block>, u: seq<Block>)
  {
    |u| <= |t| && t[|t| - |u|..] == u
  }

  /**
   * A failing object loop ends by releasing the whole object it built: every
   * pair pushed before the failure, acc included, and then its buffer.
   */
  lemma {:induction false} MembersFailureReleasesPushed(s: seq<char>, pos: nat, acc: seq<Value>)
    requires pos <= |s|
    ensures ParseMembers(s, pos, acc).Fail? ==>
      exists pushed :: acc <= pushed && EndsWith(MembersFreed(s, pos, acc), Released(Object(pushed)))
    decreases |s| - pos, 2
  {
    var close := HasChar(s, pos, '}');
    if !close.found {
      match ParsePair(s, close.next)
      case PairFail =>
        assert EndsWith(MembersFreed(s, pos, acc), Released(Object(acc)));
      case PairOk(key, val, afterValue) =>
        var pairs := acc + [key, val];
        var close' := HasChar(s, SkipWhitespace(s, afterValue), '}');
        var comma := HasChar(s, close'.next, ',');
        assert ParseMembers(s, pos, acc) == AfterPair(s, afterValue, pairs);
        assert MembersFreed(s, pos, acc) == AfterPairFreed(s, afterValue, pairs);
        if !close'.found && comma.found {
          MembersFailureReleasesPushed(s, comma.next, pairs);
          if ParseMembers(s, pos, acc).Fail? {
            var pushed :| pairs <= pushed && EndsWith(MembersFreed(s, comma.next, pairs), Released(Object(pushed)));
            assert acc <= pushed;
          }
        } else if !close'.found {
          assert EndsWith(MembersFreed(s, pos, acc), Released(Object(pairs)));
        }
    }
  }

  /**
   * A failing array loop never looks into the elements it pushed: what it
   * releases depends only on how many there are, so none of their blocks is
   * given back.
   */
  lemma {:induction false} ElementsFreedIgnoresPushed(s: seq<char>, pos: nat, acc: seq<Value>, acc': seq<Value>)
    requires pos <= |s| && |acc| == |acc'|
    ensures ElementsFreed(s, pos, acc) == ElementsFreed(s, pos, acc')
    decreases |s| - pos
  {
    match ParseValue(s, pos, Null)
    case Fail =>
    case Ok(elem, afterElem) =>
      var close := HasChar(s, SkipWhitespace(s, SkipWhitespace(s, afterElem)), ']');
      var comma := HasChar(s, close.next, ',');
      if !close.found && comma.found {
        ElementsFreedIgnoresPushed(s, comma.next, acc + [elem], acc' + [elem]);
      }
  }

  /**
   * The element loop's release as evidently intended: on failure the array
   * value is released with json_free_value, so the elements already pushed go
   * with their buffer, instead of the buffer alone.
   */
  function ElementsFreedFixed(s: seq<char>, pos: nat, acc: seq<Value>): seq<Block>
    requires pos <= |s|
    decreases |s| - pos
  {
    match ParseValue(s, pos, Null)
    case Fail => ValueFreed(s, pos) + Released(Array(acc))
    case Ok(elem, afterElem) =>
      var close := HasChar(s, SkipWhitespace(s, SkipWhitespace(s, afterElem)), ']');
      if close.found then []
      else
        var comma := HasChar(s, close.next, ',');
        if comma.found then ElementsFreedFixed(s, comma.next, acc + [elem])
        else Released(Array(acc + [elem]))
  }

  /**
   * With the intended release, a failing element loop ends by releasing an
   * array of every element pushed, acc first.
   */
  lemma {:induction false} ElementsFixedReleasesPushed(s: seq<char>, pos: nat, acc: seq<Value>)
    requires pos <= |s|
    ensures ParseElements(s, pos, acc).Fail? ==>
      exists pushed :: acc <= pushed && EndsWith(ElementsFreedFixed(s, pos, acc), Released(Array(pushed)))
    decreases |s| - pos
  {
    match ParseValue(s, pos, Null)
    case Fail =>
      var front := ValueFreed(s, pos);
      assert ElementsFreedFixed(s, pos, acc) == front + Released(Array(acc));
      EndsWithSuffix(front, Released(Array(acc)));
    case Ok(elem, afterElem) =>
      var close := HasChar(s, SkipWhitespace(s, SkipWhitespace(s, afterElem)), ']');
      var comma := HasChar(s, close.next, ',');
      if !close.found && comma.found {
        ElementsComma(s, pos, acc, elem, afterElem);
        assert ElementsFreedFixed(s, pos, acc) == ElementsFreedFixed(s, comma.next, acc + [elem]);
        ElementsFixedReleasesPushed(s, comma.next, acc + [elem]);
      } else if !close.found {
        assert ElementsFreedFixed(s, pos, acc) == Released(Array(acc + [elem]));
        EndsWithSuffix([], Released(Array(acc + [elem])));
      }
  }

  /** A trace ends with the blocks appended last. */
  lemma EndsWithSuffix(t: seq<Block>, u: seq<Block>)
    ensures EndsWith(t + u, u)
  {
    assert (t + u)[|t + u| - |u|..] == u;
  }

  /**
   * The intended release frees exactly what the failed array owned: the
   * released array holds every element pushed, and its release is its
   * OwnedBlocks, so nothing leaks.
   */
  lemma ElementsFixedReleasesOwned(s: seq<char>, pos: nat, acc: seq<Value>)
    requires pos <= |s| && ParseElements(s, pos, acc).Fail?
    ensures exists pushed ::
      && acc <= pushed
      && EndsWith(ElementsFreedFixed(s, pos, acc), Released(Array(pushed)))
      && multiset(Released(Array(pushed))) == OwnedBlocks(Array(pushed))
  {
    ElementsFixedReleasesPushed(s, pos, acc);
    var pushed :| acc <= pushed && EndsWith(ElementsFreedFixed(s, pos, acc), Released(Array(pushed)));
    ReleasedIsOwned(Array(pushed));
  }
}
