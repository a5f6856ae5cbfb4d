# JSON engine of json_parser.c, modelled in Dafny

`json_parser.c` holds a small recursive-descent JSON reader. A generic growable
vector holds array elements and object pairs. An object is a flat vector in
which slot 2i holds the i-th key and slot 2i+1 its value. A tagged union
(`json_value`) carries null, booleans, numbers, strings, arrays and objects.
Accessors test a value's tag, index an array and look up an object by key, and
`json_free_value` releases a tree recursively.

The model has these modules (one file each):

- `Wrappers` (wrappers.dfy): `Option`.
- `Vectors` (vector.dfy): the vector as a class over an `array?`, with `capacity`
  and `size` fields updated in place (init, free, get, get_checked, reserve,
  push_back). `CeilPow2` is the reference for the doubling growth policy.
- `JsonValues` (value.dfy): `json_value` as the datatype `Value`. A `Number` keeps
  the lexeme strtod consumed, not the double. The release is modelled as the
  trace of memory blocks `json_free_value` frees. A vector's buffer is labelled
  by the number of elements it holds, not by the capacity allocated for it.
- `Lexer` (lexer.dfy): `skip_whitespace`, `has_char`, `json_is_literal`, the
  `strchr` scan (`FindChar`), and the cut of a C buffer at its terminator.
- `Strtod` (strtod.dfy): how many characters C's `strtod` consumes in the C locale
  (section 7.22.1.3 of the C11 standard). This covers decimal and hexadecimal
  constants, INF/INFINITY and NAN(...).
- `Grammar` (grammar.dfy): `json_parse_value`, `json_parse_object`,
  `json_parse_array` and `json_parse` as total functions of the text and the
  cursor. They are the specification of the imperative parser.
- `Cleanup` (cleanup.dfy): what the parser releases while it parses, as a trace
  of blocks like the one `JsonValues.Released` gives. A failing object releases
  everything it holds. A failing array releases only its vector, so the
  elements already pushed leak.
- `Parser` (parser.dfy): the same operations as methods that move a cursor,
  loop, and push into `Vector`s. Each is proved to compute its `Grammar`
  function and to release the `Cleanup` trace.
- `Accessors` (accessors.dfy): `json_value_to_*`, `json_value_at` and
  `json_value_with_key`.
- `Printer` (printer.dfy): a reference printer for scalars (not part of the C
  code). It is proved to round-trip through `json_parse_value` and `json_parse`.
- `GrammarFacts` (grammar_facts.dfy): concrete inputs that pin down the parser,
  what it releases on failure and the accessors, several of them where the code
  differs from the JSON standard.

The input is a `seq<char>`, and each `char` stands for one byte of the C buffer.
The tests `iscntrl` and `isspace` are given their C-locale meaning on the
characters 0 to 127. The model takes a `char` of 128 or more to be neither. In C,
`skip_whitespace` passes a plain `char` to these functions, and where `char` is
signed a byte of 128 or more is a negative argument, which is undefined behaviour
(section 7.4, paragraph 1 of the C11 standard). A `char` above 255 has no byte to
stand for. Inside the parser, the end of the sequence plays the
C terminator. `Grammar.Parse` first cuts the caller's buffer at its first `'\0'`,
as a C string would end there. The functions below `Parse` work on that cut text,
which holds no `'\0'`; they are not meant for a text that holds one.

## Model

| member | source | states |
|---|---|---|
| Vectors.CeilPow2 | json_parser.c:308-318 | the capacity that pushes from one slot reach: the least power of two at or above n (1 for n = 0) |
| Vectors.CeilPow2Step | json_parser.c:308-318 | one more push doubles that capacity exactly when the buffer was full, and keeps it otherwise |
| Vectors.Vector.Init | json_parser.c:211-224 | a fresh buffer of one slot, capacity 1, size 0, no elements |
| Vectors.Vector.Free | json_parser.c:233-240 | the buffer is released (null) and size and capacity are left as they were |
| Vectors.Vector.Get | json_parser.c:253-256 | the element at an index below size, with no check of its own |
| Vectors.Vector.GetChecked | json_parser.c:269-272 | absent exactly when index >= size, else the element at index |
| Vectors.Vector.Reserve | json_parser.c:282-298 | a request not above the capacity changes nothing, buffer included; otherwise the capacity becomes the request and the elements are kept |
| Vectors.Vector.PushBack | json_parser.c:308-318 | x is appended after the old elements; a full buffer first doubles (1 when the capacity is 0); capacity == CeilPow2(size) is preserved |
| Vectors.Collect | json_parser.c:308-318 | init and one push per element of xs: size and elements are xs in push order, capacity is CeilPow2 of its length |
| JsonValues.Released | json_parser.c:494-517 | the release order: a string frees its characters; an array or object frees each child in order and then its buffer, which is freed last; other values free nothing |
| JsonValues.ReleasedIsOwned | json_parser.c:494-517 | the release frees exactly the bag of block labels the tree owns (one per string, one per vector), each label as often as the tree owns it; it cannot tell two equal strings apart, which ReleasesEachOwnedBlockOnce does |
| JsonValues.ReleasesEachOwnedBlockOnce | json_parser.c:494-517 | labelled by the path of its node in the tree, the k-th block released is the one the node at the k-th path owns; no path is released twice, and every node that owns a block is released: nothing leaks and nothing is freed twice |
| JsonValues.ReleasedChildrenOwned | json_parser.c:507-513 | the loop over the first n children frees exactly the blocks those children own |
| JsonValues.Release | json_parser.c:494-517 | frees exactly the Released trace and always ends with the value Null, whose release frees nothing, so a second call is a no-op |
| JsonValues.ReleaseChildren | json_parser.c:507-513 | the loop over the children and then vector_free computes the Released trace of an array or object |
| Accessors.ToString | json_parser.c:695-701 | present exactly for a String, with its characters |
| Accessors.ToDouble | json_parser.c:713-719 | the lexeme of a Number, and the zero "0" for every other tag |
| Accessors.ToBool | json_parser.c:731-737 | true exactly for Bool(true); 0 for any other tag |
| Accessors.ToArray | json_parser.c:749-755 | present exactly for an Array, with its elements |
| Accessors.ToObject | json_parser.c:767-773 | present exactly for an Object, with its pair vector |
| Accessors.At | json_parser.c:786-799 | present exactly for an Array and index < size, despite the permissive size >= index test, with the element at index |
| Accessors.FindPair | json_parser.c:820-826 | the first pair from j on whose key slot is the String key; absent only when no later pair matches |
| Accessors.WithKey | json_parser.c:811-829 | none for non-objects; otherwise the value slot 2i+1 of the smallest i whose key equals the query, or none when no key matches |
| Accessors.ScanKeys | json_parser.c:820-826 | the loop as written compares the string member of each key slot in turn, so it demands that the slots it reaches be Strings; it returns the first slot equal to the key, and agrees with FindPair except on a trailing key slot with no value after it, which FindPair does not count as a pair |
| Accessors.WithKeyAsWritten | json_parser.c:811-829 | the value slot after the key slot where ScanKeys stops, which it demands exist; under ScanKeys's demand it then agrees with WithKey |
| Lexer.UntilTerminator | json_parser.c:841-844 | the text json_parse sees: a terminator-free prefix of the buffer that stops at the first '\0' |
| Lexer.SkipWhitespace | json_parser.c:354-361 | the cursor never moves back, and it stops at the end or on a character that is neither control nor space |
| Lexer.SkippedAreBlank | json_parser.c:354-361 | every character skipped is a control character or a space |
| Lexer.SkipWhitespaceAsWritten | json_parser.c:354-361 | over raw memory, a terminator at the start leaves the cursor in place; from anywhere else the scan passes only blanks, a later '\0' included, and stops at the end or on a non-blank |
| Lexer.SkipRunsPastTerminator | json_parser.c:356-360 | on the memory " \0x" the as-written scan passes the terminator, while the corrected one stops at the text's end |
| Lexer.HasChar | json_parser.c:374-383 | found exactly when the first non-blank is c; the cursor then sits one past it, otherwise on that non-blank |
| Lexer.IsLiteral | json_parser.c:530-541 | found exactly when the text at pos starts with lit; the cursor then advances by the literal's length and otherwise stays |
| Lexer.FindChar | json_parser.c:575 | strchr: a position that holds c, or the end when none is found |
| Lexer.FindCharSkipsOthers | json_parser.c:575 | no c lies before the position returned, so it is the first c |
| Strtod.NumberEnd | json_parser.c:670-672 | strtod's end pointer never moves back; when it moves, it has read a decimal or hexadecimal digit or the n/a of INF/NAN |
| Strtod.DigitsEndRun | json_parser.c:670 | a maximal run of decimal digits is read exactly |
| Strtod.IntegerEnd | json_parser.c:670-672 | an optional sign and digits, followed by a character that cannot continue a number, is read exactly |
| Grammar.ParseValue | json_parser.c:554-683 | a success consumes at least one character and stays within the text |
| Grammar.ParseScalar | json_parser.c:571-679 | a scalar arm gives a String, a Bool or a Number, or hands back the parent |
| Grammar.ParseString | json_parser.c:571-608 | succeeds exactly when strchr finds a closing quote; the payload is all the characters between the quotes, and the cursor ends one past the closing quote |
| Grammar.StringToken | json_parser.c:571-608 | a string succeeds exactly when some '"' follows the opening one, and its payload never holds a '"' |
| Grammar.ParseLiteral | json_parser.c:635-665 | succeeds exactly when the literal is a prefix of the text, and then yields v and moves past the literal |
| Grammar.Literals | json_parser.c:635-665 | after 't', 'f' or 'n' the value is Bool(true), Bool(false) or the parent unchanged, exactly when the whole literal follows |
| Grammar.ParseNumber | json_parser.c:666-679 | fails exactly when strtod reads nothing; otherwise the Number is the lexeme strtod read and the cursor ends at strtod's end |
| Grammar.ParseObject | json_parser.c:396-442 | a success is an Object with an even number of slots |
| Grammar.ParseMembers | json_parser.c:403-430 | the loop keeps the parity of the pairs pushed so far |
| Grammar.ParsePair | json_parser.c:405-409 | a parsed pair consumes input |
| Grammar.AfterPair | json_parser.c:422-429 | after a push, '}' ends the object and ',' goes round again, keeping parity |
| Grammar.ParseArray | json_parser.c:455-485 | a success is an Array |
| Grammar.ParseElements | json_parser.c:464-482 | a success holds more elements than were pushed before |
| Grammar.Parse | json_parser.c:841-844 | a present result from a well-formed result slot is well formed |
| Grammar.ValueShape | json_parser.c:554-683 | every value parsed (the null literal's parent included, when well formed) is well formed: each object holds whole pairs, key then value, as the comment on TYPE_OBJECT (json_parser.c:157) says of the object vector |
| Grammar.ObjectShape | json_parser.c:396-442 | a parsed object is well formed |
| Grammar.MembersShape | json_parser.c:403-430 | the object loop keeps the pairs already pushed as a prefix and only appends well-formed slots, key then value |
| Grammar.PairShape | json_parser.c:405-409 | the key and the value of a parsed pair are well formed |
| Grammar.AfterPairShape | json_parser.c:422-429 | the rest of a pass only appends well-formed slots |
| Grammar.ArrayShape | json_parser.c:455-485 | a parsed array keeps its earlier elements and appends only well-formed ones |
| Grammar.ElementsShape | json_parser.c:464-482 | the element loop keeps the prefix and appends only well-formed elements |
| Parser.SkipWhitespace | json_parser.c:354-361 | the while loop ends where Lexer.SkipWhitespace says |
| Parser.HasChar | json_parser.c:374-383 | computes Lexer.HasChar's outcome and cursor |
| Parser.ParseValue | json_parser.c:554-683 | succeeds exactly when Grammar.ParseValue does, with its value and cursor, and releases the Cleanup.ValueFreed trace |
| Parser.ParseArrayValue | json_parser.c:619-633 | the '[' arm over a fresh vector succeeds exactly when Grammar.ParseArray does, with its array and cursor; on failure vector_free releases the buffer after what the loop released (Cleanup.ArrayFreed) |
| Parser.ParseObject | json_parser.c:396-442 | the pair loop over a fresh vector succeeds exactly when Grammar.ParseObject does, with its object and cursor; on failure it releases the object built so far (Cleanup.MembersFreed) |
| Parser.ParseMember | json_parser.c:403-430 | one pass of the loop: closing, failing, or going round with the pair pushed, each as Grammar.ParseMembers says, with what the pass releases as Cleanup.MembersFreed says |
| Parser.PushPair | json_parser.c:413-414 | the key and then the value are appended to the pair vector |
| Parser.AfterPair | json_parser.c:422-429 | the skip, then '}' or else ',', as the Lexer steps say |
| Parser.ParsePair | json_parser.c:405-420 | key, ':' and value succeed exactly when Grammar.ParsePair does, with its key, value and cursor; a parsed key is released when the ':' or the value is missing (Cleanup.PairFreed) |
| Parser.ParseArray | json_parser.c:455-485 | the push loop succeeds exactly when Grammar.ParseArray does, and the vector then holds its elements; on failure it has released only what the failing element released (Cleanup.ArrayFreed, less the buffer) |
| Parser.ParseElement | json_parser.c:466-481 | one pass of the element loop: closing, failing, or going round with the element pushed, each as Grammar.ParseElements and Cleanup.ElementsFreed say |
| Parser.Parse | json_parser.c:841-844 | succeeds exactly when Grammar.Parse does, with its value, and releases the Cleanup.ValueFreed trace of the cut text |
| Cleanup.ValueFreed | json_parser.c:554-683 | what json_parse_value releases at a position: the object loop's or the array's trace after '{' or '[', nothing for a scalar; anything released ends with a vector's buffer |
| Cleanup.MembersFreed | json_parser.c:403-439 | what the object loop releases from a position with the pairs pushed so far: nothing when '}' closes it, the failing pair's releases and then the whole object on a failing pair; anything released ends with the buffer of a vector holding at least the slots pushed |
| Cleanup.PairFreed | json_parser.c:405-419 | what one pair releases: nothing when key, ':' and value all parse; when the key parsed but the ':' or the value is missing, the key's blocks come last (json_free_value(&key)) |
| Cleanup.AfterPairFreed | json_parser.c:422-439 | after a push: nothing on '}', the next pass on ',', otherwise the whole object; anything released ends with the buffer of a vector holding at least the slots pushed |
| Cleanup.ArrayFreed | json_parser.c:619-633 | what json_parse_array and the vector_free after it release: nothing for an immediate ']', otherwise the element loop's trace, which ends with the vector's buffer |
| Cleanup.ElementsFreed | json_parser.c:464-481 | a failing element's own releases and then only the buffer; the elements pushed are not released; anything released ends with the buffer of a vector holding at least the slots pushed |
| Cleanup.ElementsFixedReleasesPushed | json_parser.c:464-485 | with the evidently intended release, a failing element loop's trace ends with the release of an array holding every element pushed, the earlier ones first |
| Cleanup.ElementsFixedReleasesOwned | json_parser.c:619-633 | that intended release frees exactly the blocks the failed array owned, so nothing leaks |
| Cleanup.ValueSuccessFreesNothing | json_parser.c:554-683 | a value that parses releases nothing on the way |
| Cleanup.MembersSuccessFreesNothing | json_parser.c:403-435 | an object loop that succeeds releases nothing |
| Cleanup.ElementsSuccessFreesNothing | json_parser.c:464-485 | an element loop that succeeds releases nothing |
| Cleanup.MembersFailureReleasesPushed | json_parser.c:416-439 | a failing object loop's trace ends with the release of an object holding every pair pushed, the earlier ones first |
| Cleanup.ElementsFreedIgnoresPushed | json_parser.c:464-485 | a failing element loop's trace depends only on how many elements were pushed, never on the elements, so none of their blocks is released |
| Printer.ScalarRoundTrip | json_parser.c:554-683 | the printed text of a scalar, followed by a delimiter or the end, parses back to that scalar and ends right after its text |
| Printer.LiteralRoundTrip | json_parser.c:635-665 | true, false and null read back as the values they stand for |
| Printer.NumberRoundTrip | json_parser.c:666-679 | an integer lexeme followed by a delimiter reads back as itself |
| Printer.StringRoundTrip | json_parser.c:571-608 | a quoted string with no quote or terminator inside reads back as itself |
| Printer.ParsePrinted | json_parser.c:841-844 | json_parse of a printed scalar, followed by a delimiter, a terminator or nothing, gives that scalar |
| GrammarFacts.NullNeedsNoBoundary | json_parser.c:661-665 | "nullx" parses as the parent with the cursor on 'x' |
| GrammarFacts.EmptyObject | json_parser.c:403 | "{}" is the empty object |
| GrammarFacts.ObjectTrailingComma | json_parser.c:424-427 | "{"a":1,}" is accepted as the object with one pair |
| GrammarFacts.ArrayTrailingCommaFails | json_parser.c:476-481 | "[1,]" fails |
| GrammarFacts.NoValueAtClose | json_parser.c:667-679 | after ']' or '}' no value starts: strtod reads nothing |
| GrammarFacts.MissingValueFails | json_parser.c:407-419 | "{"a":}" fails |
| GrammarFacts.NumberKeyObject | json_parser.c:822 | "{1:2}" parses with a Number in the first key slot the lookup scans, so the as-written lookup's demand fails for it, and the corrected lookup never matches |
| GrammarFacts.MixedKeysLookup | json_parser.c:820-828 | on {"a":1,2:3}, "a" matches before the Number key is scanned, so the as-written lookup applies and finds 1 |
| GrammarFacts.SpacedArray | json_parser.c:464-482 | " [ 1 , 2 ] " is the array of 1 and 2, the cursor ending just past the ']' |
| GrammarFacts.CompactArray | json_parser.c:464-482 | "[1,2]" is the same array, the cursor ending at the end |
| GrammarFacts.ObjectFailureReleasesPairs | json_parser.c:422-439 | "{"a":"b"]" fails after the push and releases "a", then "b", then the buffer holding those two slots |
| GrammarFacts.ObjectFailureReleasesOwned | json_parser.c:436-439 | those are exactly the blocks the object owned |
| GrammarFacts.ArrayFailureLeaksElements | json_parser.c:476-481 | "["a"}" fails after the push and releases only the buffer of its one element |
| GrammarFacts.ArrayFailureLeaksOwned | json_parser.c:627-630 | of the blocks the array owned, all but the string "a" are released: the string leaks |
| GrammarFacts.EqualStringsReleasedOnceEach | json_parser.c:494-517 | ["a","a"] releases "a", "a" and the buffer of those two elements, from the paths [0], [1] and the root: each string once |
| GrammarFacts.LookupByKey | json_parser.c:820-828 | on {"a":1,"b":2}, "b" finds 2 and "c" finds nothing |
| GrammarFacts.IndexAccess | json_parser.c:791-798 | on [10,20,30], index 1 is 20 and index 3, the size, is absent |
| GrammarFacts.DecimalLexeme | json_parser.c:670 | strtod reads "3.14" from "3.14," |
| GrammarFacts.ExponentLexeme | json_parser.c:670 | strtod reads "-2.5e-3" from "-2.5e-3]" |
| GrammarFacts.IncompleteExponent | json_parser.c:670 | strtod reads only "1" from "1e" |
| GrammarFacts.HexLexeme | json_parser.c:670 | strtod reads the hexadecimal "0x1p3", which JSON does not allow |
| GrammarFacts.InfinityLexeme | json_parser.c:670 | strtod reads "+Infinity" whole |
| GrammarFacts.NanLexeme | json_parser.c:661-672 | strtod reads "nan(x1)" whole, yet json_parse_value fails on it: the 'n' goes to the null literal |

## Left out

- Memory: there is no heap in the value model. `json_free_value` is modelled as
  the trace of blocks it frees, not as pointer updates.
- State left on failure: the '[' arm sets the parent's tag to array before parsing
  (json_parser.c:621). On failure the caller's value is left with that tag and a
  freed vector. `Grammar.Parse` and `Parser.Parse` return no value on failure
  instead.
- Numbers: the double `strtod` computes is not modelled, only how many characters
  it consumes. Locale-dependent forms are not covered either.
- The dead `len != strlen(new_string)` test in the string arm is not modelled: the
  copied characters hold no terminator, because strchr stops at the first one.
- Allocation failure of malloc or realloc is not modelled. Vector.Reserve always
  succeeds, and the string arm never fails for lack of memory.
- vector_foreach (json_parser.c:328-345) is modelled only as the loop of
  JsonValues.ReleaseChildren, its one use in the core.
- data_size and memcpy: the vector is generic over its element type, so the byte
  size of a slot and the byte copy are not modelled.
- TYPE_KEY is never used by the code, so it has no constructor in Value.
- Accessors.FindPair: on an object vector of odd size whose trailing key matches,
  the C loop returns `&data[size]`, a pointer one past the end, which the caller
  then dereferences. FindPair treats a trailing key as no pair; ScanKeys returns
  it, and WithKeyAsWritten demands that it not happen. The parser only produces
  even sizes (Grammar.ObjectShape).
- Accessors.WithKey: the key is compared as a whole sequence, while strcmp stops
  at a '\0' in it, so a query holding a '\0' is not modelled as its C prefix. A C
  string holds no '\0', and neither does a key the parser produced.
- Vectors.Vector.Get: it requires index < size. The one call in the source,
  `vector_get(v, v->size)` in vector_push_back (json_parser.c:316), asks for the
  slot at index size, the write slot of the push; Vector.PushBack writes that
  slot directly instead.
- Printer: the round trip covers scalars only. The C code has no printer, so the
  printer is a reference written for the round trip; for nested arrays and objects
  it would have to print separators and pairs, and the proof would have to go
  through the mutual recursion of the object and array loops. That round trip is
  not part of this model.
- Grammar.ParseValue and the other Grammar functions: their own ensures state only
  bounds and shape. The Parser methods are proved equal to them, which ties the
  loops to the functions but says nothing new about what the functions compute.
  What is proved about that is in the shape lemmas (Grammar.ValueShape and the
  others), the round trips of Printer, and the concrete inputs of GrammarFacts.
- Cleanup.ElementsFreedFixed: the Parser methods model the code as written, so
  on a failing array they release the ElementsFreed trace and the elements leak.
  The corrected release is defined and proved beside it; no method performs it.
- get_file_size, process_json_fcrt_settings_file and main are not part of this
  model. They do file I/O and translate a configuration file.

## Findings

| source | as written | input that shows it | evidently intended | confidence | as-written member | corrected member |
|---|---|---|---|---|---|---|
| json_parser.c:356-360 | only the starting position is tested for the terminator; since iscntrl('\0') holds, the loop then skips a terminator that follows a blank and reads on into memory after the string | the memory " \0x" at offset 0: the cursor ends on 'x', past the terminator | stop at the end of the string wherever the terminator is reached | not executed | Lexer.SkipWhitespaceAsWritten (shown by Lexer.SkipRunsPastTerminator) | Lexer.SkipWhitespace |
| json_parser.c:822 | strcmp reads the string member of each key slot up to the first match, but the object loop accepts any value as a key, so a Number key's union is read as a pointer | "{1:2}" parses (GrammarFacts.NumberKeyObject); json_value_with_key on it with key "1" reads the double 1.0 as a char pointer | a key slot that is not a String never matches | not executed | Accessors.WithKeyAsWritten, built on Accessors.ScanKeys (which requires the key slots it reaches to be Strings; GrammarFacts.NumberKeyObject shows a parsed object that breaks this) | Accessors.WithKey |
| json_parser.c:627-630 | on a failing array, the '[' arm calls vector_free on the array, which frees only the buffer; the elements already pushed, with their strings and vectors, are never released | "["a"}": the string "a" is pushed, then '}' fails the loop, and only the buffer is released (GrammarFacts.ArrayFailureLeaksOwned) | json_free_value on the array, as json_parse_object does with its result at json_parser.c:438 | not executed | Cleanup.ElementsFreed (shown by Cleanup.ElementsFreedIgnoresPushed and GrammarFacts.ArrayFailureLeaksOwned) | Cleanup.ElementsFreedFixed (proved by Cleanup.ElementsFixedReleasesPushed and Cleanup.ElementsFixedReleasesOwned) |
