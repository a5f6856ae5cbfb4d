/**
 * The read-only accessors of json_parser.c: typed extraction (json_value_to_*)
 * and navigation by index (json_value_at) and by key (json_value_with_key).
 */
module Accessors {

  import opened Wrappers
  import opened JsonValues

  /** json_value_to_string: the characters of a String, absent for any other tag. */
  function ToString(v: Value): (r: Option<string>)
    ensures r.Some? <==> v.String?
    ensures r.Some? ==> String(r.value) == v
  {
    if v.String? then Some(v.chars) else None
  }

  /**
   * json_value_to_double: the number of a Number, else 0. Numbers are kept as the
   * lexeme strtod read, so the zero of a mismatch is the lexeme "0".
   */
  function ToDouble(v: Value): (r: string)
    ensures v.Number? ==> Number(r) == v
    ensures !v.Number? ==> r == "0"
  {
    if v.Number? then v.lexeme else "0"
  }

  /** json_value_to_bool: true only for the Bool true; false (0) for every other value. */
  function ToBool(v: Value): (r: bool)
    ensures r <==> v == Bool(true)
  {
    if v.Bool? then v.b else false
  }

  /** json_value_to_array: the elements of an Array, absent for any other tag. */
  function ToArray(v: Value): (r: Option<seq<Value>>)
    ensures r.Some? <==> v.Array?
    ensures r.Some? ==> Array(r.value) == v
  {
    if v.Array? then Some(v.elems) else None
  }

  /** json_value_to_object: the pair vector of an Object, absent for any other tag. */
  function ToObject(v: Value): (r: Option<seq<Value>>)
    ensures r.Some? <==> v.Object?
    ensures r.Some? ==> Object(r.value) == v
  {
    if v.Object? then Some(v.pairs) else None
  }

  /**
   * json_value_at: the element at index of an Array. The source first tests the
   * permissive size >= index and then asks vector_get_checked, whose index < size
   * rejects index == size; so the element is present exactly for index < size.
   */
  function At(root: Value, index: nat): (r: Option<Value>)
    ensures r.Some? <==> root.Array? && index < |root.elems|
    ensures r.Some? ==> r.value == root.elems[index]
  {
    if !root.Array? then None
    else if |root.elems| >= index then
      (if index < |root.elems| then Some(root.elems[index]) else None)
    else None
  }

  /** The key slot of pair j matches key when it is a String with exactly those characters. */
  predicate KeyMatches(pairs: seq<Value>, j: nat, key: string)
  {
    2 * j + 1 < |pairs| && pairs[2 * j] == String(key)
  }

  /**
   * The scan of json_value_with_key from pair j on: the index of the first pair
   * whose key matches. A key slot that is not a String never matches, and a
   * trailing key without a value slot is not a pair.
   */
  function FindPair(pairs: seq<Value>, key: string, j: nat): (r: Option<nat>)
    ensures r.Some? ==> j <= r.value && KeyMatches(pairs, r.value, key)
    ensures r.Some? ==> forall i | j <= i < r.value :: !KeyMatches(pairs, i, key)
    ensures r.None? ==> forall i | j <= i :: !KeyMatches(pairs, i, key)
    decreases |pairs| - 2 * j
  {
    if 2 * j + 1 >= |pairs| then None
    else if pairs[2 * j] == String(key) then Some(j)
    else FindPair(pairs, key, j + 1)
  }

  /**
   * json_value_with_key: the value slot 2i+1 of the first pair i whose key equals
   * key, absent when no key matches or the root is not an Object.
   */
  function WithKey(root: Value, key: string): (r: Option<Value>)
    ensures !root.Object? ==> r.None?
    ensures r.None? && root.Object? ==> forall i :: !KeyMatches(root.pairs, i, key)
    ensures r.Some? ==> (root.Object? &&
      exists i :: (KeyMatches(root.pairs, i, key) &&
        (forall j | j < i :: !KeyMatches(root.pairs, j, key)) &&
        r.value == root.pairs[2 * i + 1]))
  {
    if !root.Object? then None
    else match FindPair(root.pairs, key, 0)
      case Some(i) => Some(root.pairs[2 * i + 1])
      case None => None
  }

  /** Key slot 2j holds the String key, whether or not a value slot follows it. */
  predicate KeySlotMatches(pairs: seq<Value>, j: nat, key: string)
  {
    2 * j < |pairs| && pairs[2 * j] == String(key)
  }

  /**
   * Every key slot the loop of json_value_with_key reads from pair j on is a
   * String: the key slots 2j, 2j+2, ... up to and including the first that holds
   * key (all of them when none does).
   */
  ghost predicate ScannedKeysAreStrings(pairs: seq<Value>, key: string, j: nat)
  {
    forall i | j <= i && 2 * i < |pairs| && (forall k | j <= k < i :: !KeySlotMatches(pairs, k, key)) ::
      pairs[2 * i].String?
  }

  /** A key slot passed over by the loop leaves the demand on the slots after it. */
  lemma ScannedKeysStep(pairs: seq<Value>, key: string, j: nat)
    requires ScannedKeysAreStrings(pairs, key, j) && 2 * j < |pairs| && !KeySlotMatches(pairs, j, key)
    ensures ScannedKeysAreStrings(pairs, key, j + 1)
  {
    forall i | j + 1 <= i && 2 * i < |pairs| && (forall k | j + 1 <= k < i :: !KeySlotMatches(pairs, k, key))
      ensures pairs[2 * i].String?
    {
      assert forall k | j <= k < i :: !KeySlotMatches(pairs, k, key);
    }
  }

  /**
   * The loop of json_value_with_key as written, from pair j on: for each key
   * slot 2j, 2j+2, ... below the size, strcmp of its string member with key,
   * stopping at the first equal one. It reads the string member of every slot it
   * reaches, so it demands that they be Strings. A match of a trailing key slot
   * with no value slot after it is returned too; FindPair, which has no such
   * pair, then finds nothing.
   */
  function ScanKeys(pairs: seq<Value>, key: string, j: nat): (r: Option<nat>)
    requires ScannedKeysAreStrings(pairs, key, j)
    ensures r.Some? ==> j <= r.value && KeySlotMatches(pairs, r.value, key)
    ensures FindPair(pairs, key, j) == (if r.Some? && 2 * r.value + 1 < |pairs| then r else None)
    decreases |pairs| - 2 * j
  {
    if 2 * j >= |pairs| then None
    else if pairs[2 * j].chars == key then Some(j)
    else ScannedKeysStep(pairs, key, j); ScanKeys(pairs, key, j + 1)
  }

  /**
   * json_value_with_key as written: the value slot after the key slot the loop
   * stops at. It demands what ScanKeys demands, and that the slot it returns
   * exist (the pointer &data[i + 1] is read by the caller).
   */
  function WithKeyAsWritten(root: Value, key: string): (r: Option<Value>)
    requires root.Object? ==> ScannedKeysAreStrings(root.pairs, key, 0)
    requires root.Object? && ScanKeys(root.pairs, key, 0).Some? ==>
      2 * ScanKeys(root.pairs, key, 0).value + 1 < |root.pairs|
    ensures r == WithKey(root, key)
  {
    if !root.Object? then None
    else match ScanKeys(root.pairs, key, 0)
      case Some(i) => Some(root.pairs[2 * i + 1])
      case None => None
  }
}
