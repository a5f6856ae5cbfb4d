/**
 * Concrete behaviours of the parser, its releases on failure and the accessors
 * on small inputs. Several depart from the JSON standard because they follow
 * the code: a literal needs no boundary, a ',' just before '}' is accepted
 * while one just before ']' is not, object keys may be any value, and numbers
 * are whatever strtod reads.
 */
module GrammarFacts {

  import opened Wrappers
  import opened JsonValues
  import opened Lexer
  import Strtod
  import opened Grammar
  import opened Accessors
  import Printer
  import Cleanup

  /** "nullx": the null literal matches its first four characters and keeps the parent. */
  lemma NullNeedsNoBoundary(parent: Value)
    ensures ParseValue("nullx", 0, parent) == Ok(parent, 4)
    ensures Parse("nullx", Null) == Some(Null)
  {
    assert "nullx"[0..4] == "null";
  }

  /** "{}" is the empty object. */
  lemma EmptyObject()
    ensures ParseValue("{}", 0, Null) == Ok(Object([]), 2)
  {
  }

  /** s is "{"a":1,}": the ',' before '}' is accepted. */
  lemma ObjectTrailingComma(s: string)
    requires |s| == 8 && s[0] == '{' && s[1] == '"' && s[2] == 'a' && s[3] == '"'
    requires s[4] == ':' && s[5] == '1' && s[6] == ',' && s[7] == '}'
    ensures ParseValue(s, 0, Null) == Ok(Object([String("a"), Number("1")]), 8)
  {
    var pairs := [String("a"), Number("1")];
    Cleanup.ObjectArm(s, 0, Null);
    assert SkipWhitespace(s, 1) == 1;
    assert HasChar(s, 1, '}') == Step(false, 1);
    TrailingCommaPair(s);
    Cleanup.MembersStep(s, 1, [], String("a"), Number("1"), 6);
    assert [] + [String("a"), Number("1")] == pairs;
    TrailingCommaEnd(s);
  }

  /** The one pair of "{"a":1,}": key "a", ':' and value 1, up to the ','. */
  lemma TrailingCommaPair(s: string)
    requires |s| == 8 && s[0] == '{' && s[1] == '"' && s[2] == 'a' && s[3] == '"'
    requires s[4] == ':' && s[5] == '1' && s[6] == ',' && s[7] == '}'
    ensures ParsePair(s, 1) == PairOk(String("a"), Number("1"), 6)
  {
    assert s[1..4] == "\"a\"";
    Printer.StringRoundTrip(s, 1, "a");
    assert s[5..6] == "1";
    Printer.NumberRoundTrip(s, 5, "1");
    assert HasChar(s, 4, ':') == Step(true, 5);
  }

  /** After the pair of "{"a":1,}": ',' goes round again and then '}' closes the object. */
  lemma TrailingCommaEnd(s: string)
    requires |s| == 8 && s[0] == '{' && s[1] == '"' && s[2] == 'a' && s[3] == '"'
    requires s[4] == ':' && s[5] == '1' && s[6] == ',' && s[7] == '}'
    ensures AfterPair(s, 6, [String("a"), Number("1")]) == Ok(Object([String("a"), Number("1")]), 8)
  {
    assert SkipWhitespace(s, 6) == 6;
    assert HasChar(s, 6, '}') == Step(false, 6);
    assert HasChar(s, 6, ',') == Step(true, 7);
    Cleanup.AfterPairComma(s, 6, [String("a"), Number("1")]);
    assert HasChar(s, 7, '}') == Step(true, 8);
    Cleanup.MembersClose(s, 7, [String("a"), Number("1")]);
  }

  /** s is "[1,]": the ',' before ']' makes the element parse fail, and the array with it. */
  lemma ArrayTrailingCommaFails(s: string)
    requires |s| == 4 && s[0] == '[' && s[1] == '1' && s[2] == ',' && s[3] == ']'
    ensures ParseValue(s, 0, Null) == Fail
  {
    Cleanup.ArrayArm(s, 0, Null);
    assert SkipWhitespace(s, 1) == 1;
    assert ParseArray(s, 1, []) == ParseElements(s, 1, []);
    assert s[1..2] == "1";
    Printer.NumberRoundTrip(s, 1, "1");
    assert SkipWhitespace(s, 2) == 2;
    assert HasChar(s, 2, ']') == Step(false, 2);
    assert HasChar(s, 2, ',') == Step(true, 3);
    Cleanup.ElementsComma(s, 1, [], Number("1"), 2);
    NoValueAtClose(s, 3);
    Cleanup.ElementFails(s, 3, [Number("1")]);
  }

  /** A ']' or '}' starts no value: json_parse_value fails there. */
  lemma NoValueAtClose(s: seq<char>, pos: nat)
    requires pos < |s| && (s[pos] == ']' || s[pos] == '}')
    ensures ParseValue(s, pos, Null) == Fail
  {
    assert SkipWhitespace(s, pos) == pos;
    assert Strtod.Lower(s[pos + 0]) == s[pos];
    assert !Strtod.MatchesIgnoringCase(s, pos, "inf") by {
      assert "inf"[0] == 'i';
    }
    assert !Strtod.MatchesIgnoringCase(s, pos, "nan") by {
      assert "nan"[0] == 'n';
    }
    assert Strtod.DigitsEnd(s, pos, false) == pos;
    assert Strtod.MantissaEnd(s, pos, false) == pos;
    assert Strtod.NumberEnd(s, pos) == pos;
  }

  /** s is "{"a":}": a key without a value fails the object. */
  lemma MissingValueFails(s: string)
    requires |s| == 6 && s[0] == '{' && s[1] == '"' && s[2] == 'a' && s[3] == '"'
    requires s[4] == ':' && s[5] == '}'
    ensures ParseValue(s, 0, Null) == Fail
  {
    Cleanup.ObjectArm(s, 0, Null);
    assert SkipWhitespace(s, 1) == 1;
    assert HasChar(s, 1, '}') == Step(false, 1);
    MissingValuePair(s);
    Cleanup.MembersPairFail(s, 1, []);
  }

  /** The pair of "{"a":}": the key and ':' are read, then the value fails at '}'. */
  lemma MissingValuePair(s: string)
    requires |s| == 6 && s[0] == '{' && s[1] == '"' && s[2] == 'a' && s[3] == '"'
    requires s[4] == ':' && s[5] == '}'
    ensures ParsePair(s, 1) == PairFail
  {
    assert s[1..4] == "\"a\"";
    Printer.StringRoundTrip(s, 1, "a");
    assert HasChar(s, 4, ':') == Step(true, 5);
    NoValueAtClose(s, 5);
  }

  /**
   * s is "{1:2}": the key slot holds a Number. The lookup as written would read it
   * as a string, so it cannot be applied to this object; the corrected lookup
   * finds nothing.
   */
  lemma NumberKeyObject(s: string)
    requires |s| == 5 && s[0] == '{' && s[1] == '1' && s[2] == ':' && s[3] == '2'
    requires s[4] == '}'
    ensures ParseValue(s, 0, Null) == Ok(Object([Number("1"), Number("2")]), 5)
    ensures !ScannedKeysAreStrings([Number("1"), Number("2")], "1", 0)
    ensures WithKey(Object([Number("1"), Number("2")]), "1") == None
  {
    Cleanup.ObjectArm(s, 0, Null);
    assert SkipWhitespace(s, 1) == 1;
    NumberKeyMembers(s);
    assert !KeyMatches([Number("1"), Number("2")], 0, "1");
  }

  /** The object loop of "{1:2}": one pair, then '}'. */
  lemma NumberKeyMembers(s: string)
    requires |s| == 5 && s[0] == '{' && s[1] == '1' && s[2] == ':' && s[3] == '2'
    requires s[4] == '}'
    ensures ParseMembers(s, 1, []) == Ok(Object([Number("1"), Number("2")]), 5)
  {
    assert HasChar(s, 1, '}') == Step(false, 1);
    NumberKeyPair(s);
    Cleanup.MembersStep(s, 1, [], Number("1"), Number("2"), 4);
    assert [] + [Number("1"), Number("2")] == [Number("1"), Number("2")];
    assert SkipWhitespace(s, 4) == 4;
    assert HasChar(s, 4, '}') == Step(true, 5);
    Cleanup.AfterPairClose(s, 4, [Number("1"), Number("2")]);
  }

  /**
   * {"a":1,2:3} looked up by "a": the scan stops at the first pair and never
   * reads the Number key, so the lookup as written applies and finds 1.
   */
  lemma MixedKeysLookup()
    ensures var pairs := [String("a"), Number("1"), Number("2"), Number("3")];
      ScannedKeysAreStrings(pairs, "a", 0) && ScanKeys(pairs, "a", 0) == Some(0) &&
      WithKeyAsWritten(Object(pairs), "a") == Some(Number("1"))
  {
    var pairs := [String("a"), Number("1"), Number("2"), Number("3")];
    assert KeySlotMatches(pairs, 0, "a");
  }

  /** The one pair of "{1:2}": the number 1 as key, ':' and the number 2. */
  lemma NumberKeyPair(s: string)
    requires |s| == 5 && s[0] == '{' && s[1] == '1' && s[2] == ':' && s[3] == '2'
    requires s[4] == '}'
    ensures ParsePair(s, 1) == PairOk(Number("1"), Number("2"), 4)
  {
    assert s[1..2] == "1";
    Printer.NumberRoundTrip(s, 1, "1");
    assert s[3..4] == "2";
    Printer.NumberRoundTrip(s, 3, "2");
    assert HasChar(s, 2, ':') == Step(true, 3);
  }

  /** Lookup by key on {"a":1,"b":2}: "b" finds 2, "c" finds nothing. */
  lemma LookupByKey()
    ensures var root := Object([String("a"), Number("1"), String("b"), Number("2")]);
      WithKey(root, "b") == Some(Number("2")) && WithKey(root, "c") == None
  {
    var pairs := [String("a"), Number("1"), String("b"), Number("2")];
    assert FindPair(pairs, "b", 0) == Some(1);
  }

  /** Index access on [10,20,30]: index 1 holds 20; index 3, the size, is absent. */
  lemma IndexAccess()
    ensures var root := Array([Number("10"), Number("20"), Number("30")]);
      At(root, 1) == Some(Number("20")) && At(root, 3) == None
  {
  }

  /** strtod on a decimal fraction: "3.14," ends before the ','. */
  lemma DecimalLexeme()
    ensures Strtod.NumberEnd("3.14,", 0) == 4
  {
    var s := "3.14,";
    assert s[0] == '3' && s[1] == '.' && s[2] == '1' && s[3] == '4' && s[4] == ',';
    Strtod.DigitsEndRun(s, 0, 1);
    Strtod.DigitsEndRun(s, 2, 4);
    assert Strtod.MantissaEnd(s, 0, false) == 4;
    assert Strtod.ExponentEnd(s, 4, 'e') == 4;
    assert !Strtod.MatchesIgnoringCase(s, 0, "inf") by {
      assert Strtod.Lower(s[0 + 0]) != "inf"[0];
    }
    assert !Strtod.MatchesIgnoringCase(s, 0, "nan") by {
      assert Strtod.Lower(s[0 + 0]) != "nan"[0];
    }
  }

  /** strtod on a signed exponent: "-2.5e-3]" ends before the ']'. */
  lemma ExponentLexeme()
    ensures Strtod.NumberEnd("-2.5e-3]", 0) == 7
  {
    var s := "-2.5e-3]";
    assert s[0] == '-' && s[1] == '2' && s[2] == '.' && s[3] == '5' && s[4] == 'e';
    assert s[5] == '-' && s[6] == '3' && s[7] == ']';
    Strtod.DigitsEndRun(s, 1, 2);
    Strtod.DigitsEndRun(s, 3, 4);
    Strtod.DigitsEndRun(s, 6, 7);
    assert Strtod.MantissaEnd(s, 1, false) == 4;
    assert Strtod.ExponentEnd(s, 4, 'e') == 7;
    assert !Strtod.MatchesIgnoringCase(s, 1, "inf") by {
      assert Strtod.Lower(s[1 + 0]) != "inf"[0];
    }
    assert !Strtod.MatchesIgnoringCase(s, 1, "nan") by {
      assert Strtod.Lower(s[1 + 0]) != "nan"[0];
    }
  }

  /** An exponent marker without digits is not read: "1e" ends after the "1". */
  lemma IncompleteExponent()
    ensures Strtod.NumberEnd("1e", 0) == 1
  {
    var s := "1e";
    assert Strtod.DigitsEnd(s, 1, false) == 1;
    assert Strtod.DigitsEnd(s, 2, false) == 2;
    assert Strtod.MantissaEnd(s, 0, false) == 1;
  }

  /** strtod reads a hexadecimal constant with a binary exponent: "0x1p3}" ends before the '}'. */
  lemma HexLexeme()
    ensures Strtod.NumberEnd("0x1p3}", 0) == 5
  {
    var s := "0x1p3}";
    assert s[0] == '0' && s[1] == 'x' && s[2] == '1' && s[3] == 'p' && s[4] == '3' && s[5] == '}';
    assert Strtod.DigitsEnd(s, 3, true) == 3;
    assert Strtod.DigitsEnd(s, 2, true) == 3;
    assert Strtod.MantissaEnd(s, 2, true) == 3;
    Strtod.DigitsEndRun(s, 4, 5);
    assert Strtod.ExponentEnd(s, 3, 'p') == 5;
  }

  /** strtod reads an infinity: "+Infinity" is read whole. */
  lemma InfinityLexeme()
    ensures Strtod.NumberEnd("+Infinity", 0) == 9
  {
    var s := "+Infinity";
    assert s[0] == '+' && s[1] == 'I';
    assert Strtod.MatchesIgnoringCase(s, 1, "infinity") by {
      forall k | 0 <= k < 8 ensures Strtod.Lower(s[1 + k]) == "infinity"[k] {
        assert s[1..] == ['I', 'n', 'f', 'i', 'n', 'i', 't', 'y'];
        assert s[1 + k] == s[1..][k];
      }
    }
    assert Strtod.MatchesIgnoringCase(s, 1, "inf") by {
      forall k | 0 <= k < 3 ensures Strtod.Lower(s[1 + k]) == "inf"[k] {
        assert "inf"[k] == "infinity"[k];
      }
    }
  }

  /**
   * strtod reads a NaN with its parenthesised tail: "nan(x1)" is read whole. The
   * parser never gets there: an 'n' goes to the null literal, which fails.
   */
  lemma NanLexeme()
    ensures Strtod.NumberEnd("nan(x1)", 0) == 7
    ensures ParseValue("nan(x1)", 0, Null) == Fail
  {
    var s := "nan(x1)";
    assert s[0] == 'n' && s[1] == 'a' && s[2] == 'n' && s[3] == '(' && s[4] == 'x' && s[5] == '1' && s[6] == ')';
    assert !Strtod.MatchesIgnoringCase(s, 0, "inf") by {
      assert Strtod.Lower(s[0 + 0]) != "inf"[0];
    }
    assert Strtod.MatchesIgnoringCase(s, 0, "nan") by {
      forall k | 0 <= k < 3 ensures Strtod.Lower(s[0 + k]) == "nan"[k] {
      }
    }
    assert Strtod.NanCharsEnd(s, 6) == 6;
    assert Strtod.NanCharsEnd(s, 4) == 6;
  }

  /**
   * s is " [ 1 , 2 ] ": blanks between the tokens change nothing, it gives the
   * same array as "[1,2]" (CompactArray), the cursor ending just past the ']'.
   */
  lemma SpacedArray(s: string)
    requires |s| == 11 && s[0] == ' ' && s[1] == '[' && s[2] == ' ' && s[3] == '1'
    requires s[4] == ' ' && s[5] == ',' && s[6] == ' ' && s[7] == '2' && s[8] == ' '
    requires s[9] == ']' && s[10] == ' '
    ensures ParseValue(s, 0, Null) == Ok(Array([Number("1"), Number("2")]), 10)
  {
    assert SkipWhitespace(s, 1) == 1 && SkipWhitespace(s, 0) == 1;
    Cleanup.ArrayArm(s, 0, Null);
    assert SkipWhitespace(s, 2) == 3;
    assert ParseArray(s, 3, []) == ParseElements(s, 3, []);
    SpacedElements(s);
  }

  /** s is "[1,2]", with no blanks: the array of 1 and 2. */
  lemma CompactArray(s: string)
    requires |s| == 5 && s[0] == '[' && s[1] == '1' && s[2] == ',' && s[3] == '2'
    requires s[4] == ']'
    ensures ParseValue(s, 0, Null) == Ok(Array([Number("1"), Number("2")]), 5)
  {
    Cleanup.ArrayArm(s, 0, Null);
    assert SkipWhitespace(s, 1) == 1;
    assert ParseArray(s, 1, []) == ParseElements(s, 1, []);
    CompactElements(s);
  }

  /** The element loop of " [ 1 , 2 ] " from the first element. */
  lemma SpacedElements(s: string)
    requires |s| == 11 && s[0] == ' ' && s[1] == '[' && s[2] == ' ' && s[3] == '1'
    requires s[4] == ' ' && s[5] == ',' && s[6] == ' ' && s[7] == '2' && s[8] == ' '
    requires s[9] == ']' && s[10] == ' '
    ensures ParseElements(s, 3, []) == Ok(Array([Number("1"), Number("2")]), 10)
  {
    assert s[3..4] == "1";
    SpacedNumber(s, 3, "1");
    assert SkipWhitespace(s, 4) == 5 && SkipWhitespace(s, 5) == 5;
    assert HasChar(s, 5, ']') == Step(false, 5);
    assert HasChar(s, 5, ',') == Step(true, 6);
    Cleanup.ElementsComma(s, 3, [], Number("1"), 4);
    assert [] + [Number("1")] == [Number("1")];
    SpacedLastElement(s);
  }

  /** The second pass of the element loop of " [ 1 , 2 ] ". */
  lemma SpacedLastElement(s: string)
    requires |s| == 11 && s[0] == ' ' && s[1] == '[' && s[2] == ' ' && s[3] == '1'
    requires s[4] == ' ' && s[5] == ',' && s[6] == ' ' && s[7] == '2' && s[8] == ' '
    requires s[9] == ']' && s[10] == ' '
    ensures ParseElements(s, 6, [Number("1")]) == Ok(Array([Number("1"), Number("2")]), 10)
  {
    assert s[7..8] == "2";
    SpacedNumber(s, 7, "2");
    assert SkipWhitespace(s, 6) == 7;
    assert ParseValue(s, 6, Null) == Ok(Number("2"), 8);
    assert SkipWhitespace(s, 8) == 9 && SkipWhitespace(s, 9) == 9;
    assert HasChar(s, 9, ']') == Step(true, 10);
    Cleanup.ElementsClose(s, 6, [Number("1")], Number("2"), 8);
  }

  /** A one-digit number followed by a blank: strtod stops at the blank. */
  lemma SpacedNumber(s: seq<char>, pos: nat, digit: string)
    requires pos + 1 < |s| && s[pos..pos + 1] == digit && Strtod.IsDigit(digit[0]) && s[pos + 1] == ' '
    ensures ParseValue(s, pos, Null) == Ok(Number(digit), pos + 1)
  {
    assert s[pos] == digit[0];
    assert Strtod.IsInteger(digit);
    Strtod.IntegerEnd(s, pos, pos + 1);
  }

  /** The element loop of "[1,2]" from the first element. */
  lemma CompactElements(s: string)
    requires |s| == 5 && s[0] == '[' && s[1] == '1' && s[2] == ',' && s[3] == '2'
    requires s[4] == ']'
    ensures ParseElements(s, 1, []) == Ok(Array([Number("1"), Number("2")]), 5)
  {
    assert s[1..2] == "1" && s[3..4] == "2";
    Printer.NumberRoundTrip(s, 1, "1");
    Printer.NumberRoundTrip(s, 3, "2");
    assert SkipWhitespace(s, 2) == 2 && SkipWhitespace(s, 4) == 4;
    assert HasChar(s, 2, ']') == Step(false, 2);
    assert HasChar(s, 2, ',') == Step(true, 3);
    Cleanup.ElementsComma(s, 1, [], Number("1"), 2);
    assert [] + [Number("1")] == [Number("1")];
    assert HasChar(s, 4, ']') == Step(true, 5);
    Cleanup.ElementsClose(s, 3, [Number("1")], Number("2"), 4);
  }

  /**
   * s is "{"a":"b"]": the pair parses and is pushed, but neither '}' nor ','
   * follows. The object fails and releases everything it owns: both strings,
   * then the buffer of its two slots.
   */
  lemma ObjectFailureReleasesPairs(s: string)
    requires |s| == 9 && s[0] == '{' && s[1] == '"' && s[2] == 'a' && s[3] == '"'
    requires s[4] == ':' && s[5] == '"' && s[6] == 'b' && s[7] == '"' && s[8] == ']'
    ensures ParseValue(s, 0, Null) == Fail
    ensures Cleanup.ValueFreed(s, 0) == [StringBlock("a"), StringBlock("b"), VectorBlock(2)]
  {
    Cleanup.ObjectArm(s, 0, Null);
    assert SkipWhitespace(s, 1) == 1;
    ReleasedPairMembers(s);
  }

  /** What the failing parse of "{"a":"b"]" releases is exactly what the object owned. */
  lemma ObjectFailureReleasesOwned(s: string)
    requires |s| == 9 && s[0] == '{' && s[1] == '"' && s[2] == 'a' && s[3] == '"'
    requires s[4] == ':' && s[5] == '"' && s[6] == 'b' && s[7] == '"' && s[8] == ']'
    ensures multiset(Cleanup.ValueFreed(s, 0)) == OwnedBlocks(Object([String("a"), String("b")]))
  {
    ObjectFailureReleasesPairs(s);
    TwoStringsReleased();
  }

  /** The object of two strings owns three blocks and releases them in order. */
  lemma TwoStringsReleased()
    ensures var v := Object([String("a"), String("b")]);
      Released(v) == [StringBlock("a"), StringBlock("b"), VectorBlock(2)] &&
      multiset(Released(v)) == OwnedBlocks(v)
  {
    var v := Object([String("a"), String("b")]);
    assert ReleasedChildren(v, 1) == [StringBlock("a")];
    ReleasedIsOwned(v);
  }

  /** The object loop of "{"a":"b"]": it fails after the push and releases the object. */
  lemma ReleasedPairMembers(s: string)
    requires |s| == 9 && s[0] == '{' && s[1] == '"' && s[2] == 'a' && s[3] == '"'
    requires s[4] == ':' && s[5] == '"' && s[6] == 'b' && s[7] == '"' && s[8] == ']'
    ensures ParseMembers(s, 1, []) == Fail
    ensures Cleanup.MembersFreed(s, 1, []) == [StringBlock("a"), StringBlock("b"), VectorBlock(2)]
  {
    var pairs := [String("a"), String("b")];
    ReleasedPairPair(s);
    assert HasChar(s, 1, '}') == Step(false, 1);
    Cleanup.MembersStep(s, 1, [], String("a"), String("b"), 8);
    assert [] + [String("a"), String("b")] == pairs;
    assert SkipWhitespace(s, 8) == 8;
    assert HasChar(s, 8, '}') == Step(false, 8);
    assert HasChar(s, 8, ',') == Step(false, 8);
    Cleanup.AfterPairNeither(s, 8, pairs);
    TwoStringsReleased();
  }

  /** The pair of "{"a":"b"]": key "a", ':' and value "b", up to the ']'. */
  lemma ReleasedPairPair(s: string)
    requires |s| == 9 && s[0] == '{' && s[1] == '"' && s[2] == 'a' && s[3] == '"'
    requires s[4] == ':' && s[5] == '"' && s[6] == 'b' && s[7] == '"' && s[8] == ']'
    ensures ParsePair(s, 1) == PairOk(String("a"), String("b"), 8)
  {
    assert s[1..4] == "\"a\"" && s[5..8] == "\"b\"";
    Printer.StringRoundTrip(s, 1, "a");
    Printer.StringRoundTrip(s, 5, "b");
    assert HasChar(s, 4, ':') == Step(true, 5);
  }

  /**
   * s is "["a"}": the element "a" is pushed, but neither ']' nor ',' follows.
   * The array fails and only the buffer of its one element is released: the string it
   * owns leaks.
   */
  lemma ArrayFailureLeaksElements(s: string)
    requires |s| == 5 && s[0] == '[' && s[1] == '"' && s[2] == 'a' && s[3] == '"'
    requires s[4] == '}'
    ensures ParseValue(s, 0, Null) == Fail
    ensures Cleanup.ValueFreed(s, 0) == [VectorBlock(1)]
  {
    Cleanup.ArrayArm(s, 0, Null);
    assert SkipWhitespace(s, 1) == 1;
    assert ParseArray(s, 1, []) == ParseElements(s, 1, []);
    assert Cleanup.ArrayFreed(s, 1, []) == Cleanup.ElementsFreed(s, 1, []);
    LeakedElementElements(s);
  }

  /** Of the blocks the array of "["a"}" owned, the failing parse releases all but the string. */
  lemma ArrayFailureLeaksOwned(s: string)
    requires |s| == 5 && s[0] == '[' && s[1] == '"' && s[2] == 'a' && s[3] == '"'
    requires s[4] == '}'
    ensures multiset(Cleanup.ValueFreed(s, 0)) == OwnedBlocks(Array([String("a")])) - multiset{StringBlock("a")}
  {
    ArrayFailureLeaksElements(s);
    assert OwnedAll([String("a")]) == multiset{StringBlock("a")} by {
      assert [String("a")][..0] == [];
    }
  }

  /** The element loop of "["a"}": it fails after the push, releasing only the vector. */
  lemma LeakedElementElements(s: string)
    requires |s| == 5 && s[0] == '[' && s[1] == '"' && s[2] == 'a' && s[3] == '"'
    requires s[4] == '}'
    ensures ParseElements(s, 1, []) == Fail
    ensures Cleanup.ElementsFreed(s, 1, []) == [VectorBlock(1)]
  {
    assert s[1..4] == "\"a\"";
    Printer.StringRoundTrip(s, 1, "a");
    assert SkipWhitespace(s, 4) == 4;
    assert HasChar(s, 4, ']') == Step(false, 4);
    assert HasChar(s, 4, ',') == Step(false, 4);
    Cleanup.ElementsNeither(s, 1, [], String("a"), 4);
  }

  /**
   * ["a","a"]: the two equal strings sit at paths [0] and [1], so both are
   * released, once each, and then the buffer of the two at the root.
   */
  lemma EqualStringsReleasedOnceEach()
    ensures var v := Array([String("a"), String("a")]);
      Released(v) == [StringBlock("a"), StringBlock("a"), VectorBlock(2)] &&
      FreeOrder(v) == [[0], [1], []]
  {
    var v := Array([String("a"), String("a")]);
    assert FreeOrder(String("a")) == [[]];
    var root: seq<nat> := [];
    assert [0] + root == [0] && [1] + root == [1];
    assert Under(0, [root]) == [[0]] && Under(1, [root]) == [[1]];
    assert FreeOrderChildren(v, 1) == [[0]] by {
      assert FreeOrderChildren(v, 1) == FreeOrderChildren(v, 0) + Under(0, FreeOrder(Children(v)[0]));
    }
    assert FreeOrderChildren(v, 2) == [[0], [1]] by {
      assert FreeOrderChildren(v, 2) == FreeOrderChildren(v, 1) + Under(1, FreeOrder(Children(v)[1]));
    }
  }
}
