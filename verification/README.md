# Duktape 1.4.0: verified models of eight algorithms

This project models, in Dafny 4.11, eight self-contained algorithms of the Duktape Ecmascript engine and proves what
they promise. Where the C code changes things step by step (a cursor in a buffer, a stack, an array object), the model
is a method or a class with loops, proved against a specification: a recursive function, an automaton, or a property
stated outright. The laws are then lemmas about those specifications, and the texts and tables of the standards are
stated on the bytes themselves. `dafny verify dfyconfig.toml` checks everything.

- **JSON** (`JsonTree`, `JsonParse`, `JsonNumber`, `JsonGrammar`, `JsonLimit`, `JsonDecoder`, `JsonPrint`, `JsonLayout`,
  `JsonInjective`, `JsonHeap`, `JsonEncoder`, `JsonCycles`, `JsonRepresents`): the NUL-terminated recursive parser is sound
  and complete for the grammar of E5.1 section 15.12.1; printing and parsing are inverse; different values never print
  alike; the printers find exactly the JSON value that a heap of objects represents, and the fast one is compared with the
  slow one; cycles are reported exactly.
- **Value stack** (`ValueStack`, `ValueStackLaws`): two stacks with reference counts in one heap. A finalizer is a script of stack
  operations with finalizers of its own, nested without bound, and may run at every release and every reallocation.
- **Function bytecode** (`Bytecode`, `BytecodeFormat`, `BytecodeIo`): the self-delimiting dump, its loader, and the growing
  buffer.
- **Dates** (`DateCalendar`, `DateParts`, `DateIso`, `DateLayout`): calendar arithmetic, time values and parts, local time,
  ISO 8601.
- **Base64** (`Base64`): two encoders and two decoders that agree (section 4 of RFC 4648).
- **TypedArray set()** (`TypedArray`): views that share one memory.
- **Array sort() and splice()** (`ArraySort`): quicksort over arrays with holes, under any compare function.
- **URI transforms and module ids** (`Uri`, `ModuleId`).

`Bytes`, `Seqs` and `Xutf8` are shared: fixed-width integers, facts about sequences, and extended UTF-8.

Integers are unbounded in Dafny; 32-bit wrap-around is written out where the code depends on it (index normalisation,
the base64 sizes, the byte offsets of set(), the codepoint accumulator). C division is defined as such where operands can
be negative. Constants come from the headers; the date limits, whose header is not part of this model, are those of E5.1
section 15.9.1.1 with one day of leeway and the years -271821 to 275760. Build options are the default ones: reference
counting, no debugger, little-endian, standard JSON with U+2028 and U+2029 escaped.

Three promises do not hold of the code as it stands. For each the exact condition is proved:

- A string that holds an ASCII character in an overlong form is printed raw and does not parse back
  (`JsonPrint.QuoteParses`: if and only if the string is in shortest form; Ecmascript strings are).
- The fast printer omits an object member that holds a detached buffer object, for which the slow printer writes null; and
  it prints the internal value of a Number or String object, where the slow printer prints what its valueOf or toString
  answers (`JsonHeap.FastSlow` and `JsonEncoder.Stringify`: in a heap of proper strings and numbers they agree if and only
  if the fast printer gives up or meets neither; `JsonEncoder.DetachedMember` and `JsonEncoder.OverriddenMember` are
  failing inputs).
- A local time whose offset has seconds does not survive formatting and parsing
  (`DateIso.LocalExact`: if and only if the offset is a whole number of minutes).

The bytecode loader rebuilds a function if and only if its names are proper (`Bytecode.LoadDump`).

## Model

| member | source | states |
|---|---|---|
| `Base64.EncodeFast` | unifyframework/duktape1.4.0/duk_api_codec.c:25-79 | the table-driven encoder fills the buffer with exactly the reference encoding (groups of three, padded tail) |
| `Base64.EncodeSmall` | unifyframework/duktape1.4.0/duk_api_codec.c:81-135 | the shift-and-snip encoder fills the buffer with the same reference encoding, so both encoders agree on every input |
| `Base64.DecodeFast` | unifyframework/duktape1.4.0/duk_api_codec.c:139-272 | the fast decoder accepts exactly what the reference decoder accepts, writes its bytes, and stays within (srclen+3)/4*3 bytes |
| `Base64.SlowUnit` | unifyframework/duktape1.4.0/duk_api_codec.c:139-272 | one fallback unit of the fast decoder: whitespace skipped, padding checked, same continuation as the reference |
| `Base64.ShiftOrIsBitwise` | unifyframework/duktape1.4.0/duk_api_codec.c:139-272 | on 32-bit words the shift-and-or of a negative code sets the sign bit, so the integer form of the accumulator is the bitwise one |
| `Base64.SignTest` | unifyframework/duktape1.4.0/duk_api_codec.c:139-272 | the accumulated word is negative if and only if at least one of the four characters is not a plain sextet |
| `Base64.DecodeSmall` | unifyframework/duktape1.4.0/duk_api_codec.c:274-367 | the simple decoder agrees with the reference decoder in verdict and bytes, within the same bound |
| `Base64.DecodeConcat` | unifyframework/duktape1.4.0/duk_api_codec.c:274-367 | decoding concatenated texts, padding included, concatenates their data |
| `Base64.WhitespaceIgnored` | unifyframework/duktape1.4.0/duk_api_codec.c:274-367 | whitespace inserted anywhere in any input changes neither verdict nor data |
| `Base64.RoundTrip` | unifyframework/duktape1.4.0/duk_api_codec.c:274-367 | decoding the encoding of any bytes gives the bytes back |
| `Base64.AlphabetInverse` | unifyframework/duktape1.4.0/duk_util_misc.c:169-200 | the encode and decode tables are inverse on the alphabet |
| `Base64.Letters` | unifyframework/duktape1.4.0/duk_util_misc.c:169-200 | the letters of Table 1 of RFC 4648, by position |
| `Base64.Symbols` | unifyframework/duktape1.4.0/duk_util_misc.c:169-200 | the other twelve characters of that table by position, the pad character, and the four blanks and no others |
| `Base64.WholeGroup` | unifyframework/duktape1.4.0/duk_api_codec.c:25-79 | three bytes become four characters whose 24 bits, from the left, are those of the bytes, and the rest is encoded after them |
| `Base64.Leftover` | unifyframework/duktape1.4.0/duk_api_codec.c:25-79 | two bytes left over become three characters with two zero bits and one pad, one byte two characters with four zero bits and two pads |
| `Base64.DecodesIff` | unifyframework/duktape1.4.0/duk_api_codec.c:274-367 | a text decodes if and only if, without blanks, it is made of units of four characters, three and a pad, or two and two pads |
| `Base64.EncodeLengthFits` | unifyframework/duktape1.4.0/duk_api_codec.c:388-399 | the input length limit holds if and only if the 32-bit output length does not wrap |
| `Base64.DecodeLengthFits` | unifyframework/duktape1.4.0/duk_api_codec.c:433-440 | the same for the decode side |
| `Xutf8.DecodeEncode` | unifyframework/duktape1.4.0/duk_unicode_support.c:64-96 | every 32-bit codepoint decodes from its extended UTF-8 form, whatever follows |
| `Xutf8.Utf8Bytes` | unifyframework/duktape1.4.0/duk_unicode_support.c:64-96 | the bytes of section 3 of RFC 3629, up to four |
| `Xutf8.Utf8Long` | unifyframework/duktape1.4.0/duk_unicode_support.c:64-96 | length and lead byte of the longer forms |
| `JsonDecoder.Decoder.EatWhite` | unifyframework/duktape1.4.0/duk_bi_json.c:216-243 | skips white space to the reference position, never past the terminating NUL |
| `JsonDecoder.Decoder.Get` | unifyframework/duktape1.4.0/duk_bi_json.c:246-260 | reads one byte within the buffer |
| `JsonDecoder.Decoder.GetNonwhite` | unifyframework/duktape1.4.0/duk_bi_json.c:246-260 | the first byte that is not white space |
| `JsonDecoder.Decoder.RequireLiteral` | unifyframework/duktape1.4.0/duk_bi_json.c:295-331 | accepts exactly the rest of a literal and moves behind it |
| `JsonDecoder.Decoder.HexEscape` | unifyframework/duktape1.4.0/duk_bi_json.c:262-293 | four hex digits in any case, or a syntax error |
| `JsonDecoder.Decoder.StringEscape` | unifyframework/duktape1.4.0/duk_bi_json.c:333-380 | every escape has the value of the grammar, others are rejected |
| `JsonDecoder.Decoder.DecodeString` | unifyframework/duktape1.4.0/duk_bi_json.c:382-486 | the chunked loop yields the string of the reference parser and stops behind its quote |
| `JsonDecoder.Decoder.DecodeNumber` | unifyframework/duktape1.4.0/duk_bi_json.c:647-710 | takes the longest run of number characters and checks it as a number |
| `JsonNumber.NumberIsGrammar` | unifyframework/duktape1.4.0/duk_bi_json.c:647-710 | a token reads as a number if and only if it is a JSONNumber: minus, integer without leading zero, fraction, exponent; with its decimal value if it has neither fraction nor exponent |
| `JsonNumber.TokenComplete` | unifyframework/duktape1.4.0/duk_bi_json.c:647-710 | every JSONNumber is read with its value, and only number characters occur in it |
| `JsonNumber.TokenSound` | unifyframework/duktape1.4.0/duk_bi_json.c:647-710 | every token that is read is a JSONNumber with that value |
| `JsonNumber.DecimalSnoc` | unifyframework/duktape1.4.0/duk_bi_json.c:647-710 | one more digit makes ten times the value plus the digit |
| `JsonLayout.Blanks` | unifyframework/duktape1.4.0/duk_bi_json.c:216-243 | white space is tab, line feed, carriage return and space |
| `JsonLayout.DecimalDigits` | unifyframework/duktape1.4.0/duk_bi_json.c:647-710 | the ten digits and no others |
| `JsonLayout.HexDigits` | unifyframework/duktape1.4.0/duk_util_misc.c:35-69 | hex digits of either case by position, and no others |
| `JsonLayout.FourHexDigits` | unifyframework/duktape1.4.0/duk_bi_json.c:262-293 | four hex digits are a 16-bit number, the first one highest |
| `JsonLayout.Escapes` | unifyframework/duktape1.4.0/duk_bi_json.c:333-380 | the eight two-character escapes and their values, and no others |
| `JsonLayout.Redefined` | unifyframework/duktape1.4.0/duk_bi_json.c:734-815 | a later value of a key takes the place of an earlier one, a new key goes last |
| `JsonLimit.ParseErrors` | unifyframework/duktape1.4.0/duk_bi_json.c:712-732 | a text of the grammar is read or, nested too deep, a RangeError; any other text is an error; a RangeError needs at least as many bytes as the limit |
| `JsonLimit.ValueAlike` | unifyframework/duktape1.4.0/duk_bi_json.c:712-732 | raising the limit changes nothing but a RangeError |
| `JsonLayout.Literals` | unifyframework/duktape1.4.0/duk_bi_json.c:2104-2210 | the texts null, true, false, [] and {} |
| `JsonLayout.NumberTexts` | unifyframework/duktape1.4.0/duk_bi_json.c:2104-2210 | decimal digits, the last one last, and a minus sign before negative integers |
| `JsonLayout.QuotedAscii` | unifyframework/duktape1.4.0/duk_bi_json.c:1215-1347 | one ASCII character in a string: its two-character escape, \u00XX in lower case for other controls, or itself |
| `JsonLayout.QuotedWide` | unifyframework/duktape1.4.0/duk_bi_json.c:1215-1347 | any other character: itself, but for U+2028 and U+2029 |
| `JsonLayout.LineBreaks` | unifyframework/duktape1.4.0/duk_bi_json.c:1649-1698 | a line feed and one gap more for each level, or nothing without a gap |
| `JsonLayout.ArrayLayout` | unifyframework/duktape1.4.0/duk_bi_json.c:1887-1943 | the JA() operation: item texts joined by commas, one to an indented line if there is a gap |
| `JsonLayout.ObjectLayout` | unifyframework/duktape1.4.0/duk_bi_json.c:1787-1881 | the JO() operation: quoted key, colon, a space if there is a gap, and value |
| `JsonRepresents.SlowSees` | unifyframework/duktape1.4.0/duk_bi_json.c:1955-2210 | the slow printer sees a JSON value exactly in the heap values that stand for it, told case by case from the JSON value, if nested within the limit; and leaves out exactly undefined, functions, pointers and buffers |
| `JsonRepresents.SlowAnswers` | unifyframework/duktape1.4.0/duk_bi_json.c:1955-2210 | so it answers undefined, the text of the value that is represented, or an error |
| `JsonRepresents.Unique` | unifyframework/duktape1.4.0/duk_bi_json.c:1955-2210 | a heap value stands for at most one JSON value, so nothing represented contains itself |
| `JsonRepresents.FastSees` | unifyframework/duktape1.4.0/duk_bi_json.c:2242-2663 | the same for the fast printer wherever it does not stop |
| `JsonRepresents.StringifyThenParse` | unifyframework/duktape1.4.0/duk_bi_json.c:2789-3122 | JSON.parse of what JSON.stringify answers is the JSON value that the heap value stands for, non-finite numbers standing for null |
| `JsonDecoder.Decoder.DecodeValue` | unifyframework/duktape1.4.0/duk_bi_json.c:885-951 | agrees with the reference parser on every input: value, position, error; stays in bounds, terminates, restores the recursion depth |
| `JsonDecoder.Decoder.DecodeBody` | unifyframework/duktape1.4.0/duk_bi_json.c:885-951 | the dispatch on the first byte, with the same guarantees |
| `JsonDecoder.Decoder.DecodeArray` | unifyframework/duktape1.4.0/duk_bi_json.c:817-883 | arrays, with the recursion limit and the comma rules |
| `JsonDecoder.Decoder.DecodeObject` | unifyframework/duktape1.4.0/duk_bi_json.c:734-815 | objects, duplicate keys keeping the last value |
| `JsonDecoder.Decoder.DecodeMember` | unifyframework/duktape1.4.0/duk_bi_json.c:734-815 | one key, colon and value |
| `JsonDecoder.Decoder.BeginMember` | unifyframework/duktape1.4.0/duk_bi_json.c:734-815 | comma, quote or closing brace before a member |
| `JsonDecoder.Parse` | unifyframework/duktape1.4.0/duk_bi_json.c:2686-2786 | JSON.parse of a text is the reference parse; trailing characters are an error |
| `JsonGrammar.ParseIsGrammar` | unifyframework/duktape1.4.0/duk_bi_json.c:2686-2786 | the parser accepts a text with a value if and only if the JSON grammar reads the text as that value within the depth limit |
| `JsonGrammar.ValueComplete` | unifyframework/duktape1.4.0/duk_bi_json.c:885-951 | every well-formed syntax tree is accepted with its meaning, at its exact end |
| `JsonGrammar.ValueSound` | unifyframework/duktape1.4.0/duk_bi_json.c:885-951 | whatever is accepted is the text of a well-formed syntax tree with that meaning |
| `JsonGrammar.StringComplete` | unifyframework/duktape1.4.0/duk_bi_json.c:382-486 | every string of the grammar is read with its bytes |
| `JsonGrammar.StringSound` | unifyframework/duktape1.4.0/duk_bi_json.c:382-486 | every accepted string is one of the grammar |
| `JsonPrint.QuoteParses` | unifyframework/duktape1.4.0/duk_bi_json.c:1215-1347 | parsing a quoted string gives it back if and only if it is in shortest UTF-8 form |
| `JsonPrint.OverlongLost` | unifyframework/duktape1.4.0/duk_bi_json.c:1215-1347 | the failing family: an ASCII character in a longer form is written raw and is lost |
| `JsonPrint.IntegerReads` | unifyframework/duktape1.4.0/duk_bi_json.c:1352-1415 | the decimal digits of every integer read back as it |
| `JsonPrint.PrintSyntax` | unifyframework/duktape1.4.0/duk_bi_json.c:1787-1943 | printed values are well-formed JSON with the value as meaning, for every white space gap |
| `JsonInjective.PrintInjective` | unifyframework/duktape1.4.0/duk_bi_json.c:1787-2210 | different values with strings in shortest form, numbers that read back and unique keys never print alike, under any gap, white space or not |
| `JsonInjective.PrintUnique` | unifyframework/duktape1.4.0/duk_bi_json.c:1787-2210 | the same with text behind them that does not go on with a number: two such texts are equal only if the values and the texts behind them are |
| `JsonPrint.ParsePrint` | unifyframework/duktape1.4.0/duk_bi_json.c:2104-2210 | parsing undoes printing for every tree with unique keys within the depth limit, for every white space gap |
| `JsonEncoder.Encoder.NewlineIndent` | unifyframework/duktape1.4.0/duk_bi_json.c:1649-1698 | the doubling copy writes a line break and exactly depth copies of the gap |
| `JsonEncoder.Encoder.QuoteString` | unifyframework/duktape1.4.0/duk_bi_json.c:1215-1347 | the chunked quoting loop appends the reference quotation |
| `JsonEncoder.Encoder.Enter` | unifyframework/duktape1.4.0/duk_bi_json.c:1702-1751 | cyclic input exactly when the object is already open, otherwise the depth limit, otherwise the open objects grow by one; visiting array and loop object together are the open objects |
| `JsonEncoder.Encoder.Exit` | unifyframework/duktape1.4.0/duk_bi_json.c:1754-1781 | restores exactly the open objects before the matching entry |
| `JsonEncoder.UnboxedProject` | unifyframework/duktape1.4.0/duk_bi_json.c:1955-2092 | steps 1 to 4 of Str() leave a value out, or throw from the coercion of a boxed Number or String, exactly when the projection of the heap does, and otherwise keep its projection |
| `JsonEncoder.Encoder.EncodeValue` | unifyframework/duktape1.4.0/duk_bi_json.c:2104-2210 | appends the text of the projected value or throws its error, and restores the open objects |
| `JsonEncoder.Encoder.EncodeArray` | unifyframework/duktape1.4.0/duk_bi_json.c:1887-1943 | arrays: holes and omitted values become null |
| `JsonEncoder.Encoder.EncodeObject` | unifyframework/duktape1.4.0/duk_bi_json.c:1787-1881 | objects: members whose value is omitted leave no trace |
| `JsonEncoder.Encoder.FastValue` | unifyframework/duktape1.4.0/duk_bi_json.c:2242-2663 | the fast printer appends the text of its projection, leaves the output unchanged for an omitted value, or aborts |
| `JsonEncoder.Encoder.FastArray` | unifyframework/duktape1.4.0/duk_bi_json.c:2242-2663 | commas after each element, the last one taken back, give the text of the array |
| `JsonEncoder.Encoder.FastObject` | unifyframework/duktape1.4.0/duk_bi_json.c:2242-2663 | the same for objects |
| `JsonEncoder.Encoder.FastMember` | unifyframework/duktape1.4.0/duk_bi_json.c:2242-2663 | the key written ahead is rewound when its value is omitted |
| `JsonHeap.FastSlow` | unifyframework/duktape1.4.0/duk_bi_json.c:2242-2663 | the fast printer fails if and only if it reaches a lightfunc, an abandoned or open object, or the limit; otherwise it sees the value that the slow printer sees if and only if it meets no overridden boxed object and no detached buffer in a listed member |
| `JsonEncoder.Stringify` | unifyframework/duktape1.4.0/duk_bi_json.c:2789-3122 | JSON.stringify with the fast path answers what the slow path alone would answer if the fast path stops, or meets no overridden boxed object and no detached buffer in an object member; in a proper heap only then, for every gap |
| `JsonEncoder.DetachedMember` | unifyframework/duktape1.4.0/duk_bi_json.c:2789-3122 | a heap with a detached buffer on which the two paths differ |
| `JsonEncoder.OverriddenMember` | unifyframework/duktape1.4.0/duk_bi_json.c:2789-3122 | every heap with one member that holds a Number object whose valueOf answers another number: the two paths see different values |
| `JsonEncoder.TextsDiffer` | unifyframework/duktape1.4.0/duk_bi_json.c:2789-3122 | in a proper heap the two paths answer the same text only if they see the same value |
| `JsonEncoder.ProjectPrintable` | unifyframework/duktape1.4.0/duk_bi_json.c:2789-3122 | in a proper heap every projected tree has shortest-form strings, unique keys, and depth within the limit |
| `JsonEncoder.StringifyParses` | unifyframework/duktape1.4.0/duk_bi_json.c:2789-3122 | JSON.parse of what JSON.stringify answers on either path is the projected value, for every proper heap and white space gap |
| `JsonCycles.CyclicIff` | unifyframework/duktape1.4.0/duk_bi_json.c:1702-1781 | unless the depth limit is hit or a coercion throws first, cyclic input is reported if and only if some chain of references from the value repeats an object |
| `JsonCycles.ErrorHasCause` | unifyframework/duktape1.4.0/duk_bi_json.c:1702-1781 | every error has its cause: a chain of references that comes back, one longer than the limit, or one that ends in an object whose coercion throws |
| `JsonCycles.AnsweredIsAcyclic` | unifyframework/duktape1.4.0/duk_bi_json.c:1702-1781 | if a text is answered, no chain of references repeats an object |
| `ValueStack.Normalize` | unifyframework/duktape1.4.0/duk_api_stack.c:183-219 | 32-bit unsigned index arithmetic is: from the bottom if non-negative, from the top if negative, otherwise invalid |
| `ValueStack.Heap.SetTopOf` | unifyframework/duktape1.4.0/duk_api_stack.c:343-432 | grows with undefined or pops one by one; accepted exactly for -size <= index <= limit; invariant, caller frames and the other stack kept even when finalizers re-enter |
| `ValueStack.Heap.Decref` | unifyframework/duktape1.4.0/duk_api_stack.c:343-432 | the invariant holds again before any finalizer runs, and both stacks keep cursors and live values |
| `ValueStack.Heap.RunFinalizer` | unifyframework/duktape1.4.0/duk_api_stack.c:343-432 | any script of stack operations in its own frame, nested to any depth, leaves both stacks as they were except for their ends |
| `ValueStack.Heap.DupAt` | unifyframework/duktape1.4.0/duk_api_stack.c:829-865 | pushes the addressed value and counts it |
| `ValueStack.Heap.DupLast` | unifyframework/duktape1.4.0/duk_api_stack.c:829-865 | the same for the top value |
| `ValueStack.Heap.SwapAt` | unifyframework/duktape1.4.0/duk_api_stack.c:805-827 | exchanges two slots, counts unchanged |
| `ValueStack.Heap.InsertAt` | unifyframework/duktape1.4.0/duk_api_stack.c:867-905 | moves the top value down to the index, counts unchanged |
| `ValueStack.RemoveUndoesInsert` | unifyframework/duktape1.4.0/duk_api_stack.c:867-905 | removing at the index of an insert gives the rest of the frame back |
| `ValueStack.Heap.ReplaceAt` | unifyframework/duktape1.4.0/duk_api_stack.c:907-928 | the top value replaces the addressed one, whose count drops only after the stack is consistent |
| `ValueStack.Heap.CopyTo` | unifyframework/duktape1.4.0/duk_api_stack.c:930-945 | a copy in place, counted before the old value is released |
| `ValueStack.Heap.RemoveAt` | unifyframework/duktape1.4.0/duk_api_stack.c:947-985 | closes the gap, then releases the value |
| `ValueStack.Heap.XCopyMoveRaw` | unifyframework/duktape1.4.0/duk_api_stack.c:991-1058 | copies or moves the top n values between two stacks with exact counts, or answers the right error |
| `ValueStack.Heap.PushValue` | unifyframework/duktape1.4.0/duk_api_stack.c:2973-2984 | pushes and counts, or reports a full stack |
| `ValueStack.Heap.PopMany` | unifyframework/duktape1.4.0/duk_api_stack.c:4225-4272 | pops n values, looking the stack up again after each |
| `ValueStack.Heap.PopLast` | unifyframework/duktape1.4.0/duk_api_stack.c:4283-4301 | pops one value |
| `ValueStack.Heap.ResizeValstack` | unifyframework/duktape1.4.0/duk_api_stack.c:487-615 | keeps cursors and live values and undefined above top even when the reallocation re-enters and moves the end of the same stack |
| `ValueStack.Heap.ResizeRaw` | unifyframework/duktape1.4.0/duk_api_stack.c:618-706 | a positive answer without shrinking gives the size asked for; a negative one only for the limit or a refused allocation |
| `ValueStack.Heap.CheckRoom` | unifyframework/duktape1.4.0/duk_api_stack.c:717-737 | a positive answer leaves room for the extra values and the internal reserve |
| `ValueStack.Heap.CheckedPushes` | unifyframework/duktape1.4.0/duk_api_stack.c:717-737 | after a positive answer none of the pushes fails |
| `ValueStack.Heap.Perform` | unifyframework/duktape1.4.0/duk_api_stack.c:343-1058 | each operation answers and leaves in both frames what its specification on frames says |
| `ValueStack.Heap.Run` | unifyframework/duktape1.4.0/duk_api_stack.c:343-1058 | every run of operations over two stacks, with every nesting of finalizers, keeps cursors in order, undefined above top, counts exact and caller frames untouched, and leaves in the frames what its own steps, one after the other, make of them |
| `ValueStack.Heap.CountsAreSlots` | unifyframework/duktape1.4.0/duk_api_stack.c:343-1058 | under the invariant each count is the number of live slots that hold the object |
| `ValueStackLaws.AtIndexed` | unifyframework/duktape1.4.0/duk_api_stack.c:829-865 | on a frame a, v, b the index of v from either end duplicates v and removes it |
| `ValueStackLaws.DupTopIsDup` | unifyframework/duktape1.4.0/duk_api_stack.c:829-865 | duplicating the top is duplicating index -1 |
| `ValueStackLaws.BelowLast` | unifyframework/duktape1.4.0/duk_api_stack.c:867-928 | on a frame a, v, b, w the index of v from either end is replaced by w, or w is inserted before it |
| `ValueStackLaws.InsertIsSwaps` | unifyframework/duktape1.4.0/duk_api_stack.c:867-928 | inserting is swapping with the last value and inserting one place further up |
| `ValueStackLaws.ReplaceIsCopyPop` | unifyframework/duktape1.4.0/duk_api_stack.c:907-928 | replacing is copying index -1 and popping |
| `ValueStackLaws.AtLast` | unifyframework/duktape1.4.0/duk_api_stack.c:907-928 | replacing, inserting and duplicating at the top |
| `ValueStackLaws.SwapTwo` | unifyframework/duktape1.4.0/duk_api_stack.c:805-827 | on a frame a, v, b, w, c swapping v and w, by indices from either end, in either order, gives a, w, b, v, c |
| `ValueStackLaws.SwapTwice` | unifyframework/duktape1.4.0/duk_api_stack.c:805-827 | swapping twice is the identity |
| `ValueStackLaws.CopyTwo` | unifyframework/duktape1.4.0/duk_api_stack.c:930-945 | copying between v and w in either direction changes that one place |
| `ValueStackLaws.RemoveIsSwaps` | unifyframework/duktape1.4.0/duk_api_stack.c:947-985 | removing is swapping up to the top and popping |
| `ValueStackLaws.TopPart` | unifyframework/duktape1.4.0/duk_api_stack.c:343-432 | popping the count of the top part, setting the top to its start or back by its count leaves the rest; raising the top adds undefined |
| `ValueStackLaws.PopNIsSetTop` | unifyframework/duktape1.4.0/duk_api_stack.c:4225-4272 | popping n values leaves what setting the top to -n leaves, and fails when it does |
| `ValueStackLaws.PopNIsPops` | unifyframework/duktape1.4.0/duk_api_stack.c:4225-4272 | popping n values is popping one and n - 1 |
| `ValueStackLaws.PushThenPop` | unifyframework/duktape1.4.0/duk_api_stack.c:4225-4272 | popping undoes pushing |
| `ValueStackLaws.Transferred` | unifyframework/duktape1.4.0/duk_api_stack.c:991-1058 | the top part of the other frame is appended, and stays there if copied |
| `ValueStackLaws.MoveIsCopyPop` | unifyframework/duktape1.4.0/duk_api_stack.c:991-1058 | a move is a copy and a pop of the other stack |
| `ValueStackLaws.Failure` | unifyframework/duktape1.4.0/duk_api_stack.c:343-1058 | which status each operation answers, exactly; a failed one changes neither frame |
| `BytecodeIo.BufWriter.Ensure` | unifyframework/duktape1.4.0/duk_util_bufwriter.c:48-90 | keeps the contents and provides the room asked for |
| `BytecodeIo.BufWriter.WriteStr` | unifyframework/duktape1.4.0/duk_api_bytecode.c:48-63 | length and bytes, within room that was ensured before |
| `BytecodeIo.BufWriter.DumpStrProp` | unifyframework/duktape1.4.0/duk_api_bytecode.c:84-100 | a missing name is an empty string |
| `BytecodeIo.BufWriter.DumpBufferProp` | unifyframework/duktape1.4.0/duk_api_bytecode.c:102-118 | a missing buffer is an empty one |
| `BytecodeIo.BufWriter.DumpU32Prop` | unifyframework/duktape1.4.0/duk_api_bytecode.c:120-133 | a missing number is the default |
| `BytecodeIo.BufWriter.DumpVarmap` | unifyframework/duktape1.4.0/duk_api_bytecode.c:135-179 | names and registers, ended by an empty name |
| `BytecodeIo.BufWriter.DumpFormals` | unifyframework/duktape1.4.0/duk_api_bytecode.c:181-218 | used formals only, ended by an empty name |
| `BytecodeIo.BufWriter.DumpFunc` | unifyframework/duktape1.4.0/duk_api_bytecode.c:220-355 | appends exactly the dump of the function; every raw write fits the room ensured before it |
| `BytecodeIo.DumpFunction` | unifyframework/duktape1.4.0/duk_api_bytecode.c:637-669 | marker, version and dump |
| `BytecodeIo.ReadFunc` | unifyframework/duktape1.4.0/duk_api_bytecode.c:371-635 | the loader loops compute the reference load on every input that does not lead them out of bounds, with the format errors |
| `BytecodeIo.LoadFunction` | unifyframework/duktape1.4.0/duk_api_bytecode.c:671-709 | the signature check, then the load |
| `BytecodeIo.DumpThenLoad` | unifyframework/duktape1.4.0/duk_api_bytecode.c:671-709 | dumping and loading through the two routines gives the normalised function |
| `Bytecode.LoadDump` | unifyframework/duktape1.4.0/duk_api_bytecode.c:671-709 | loading a dump followed by anything gives the normalised function and consumes exactly the dump, if and only if no name is empty, repeated or taken by the __proto__ setter |
| `Bytecode.LoadDumpAgain` | unifyframework/duktape1.4.0/duk_api_bytecode.c:671-709 | the loaded function dumps to identical bytes and is its own normal form |
| `Bytecode.SelfDelimiting` | unifyframework/duktape1.4.0/duk_api_bytecode.c:671-709 | equal streams come from functions with equal normal forms, and equal suffixes |
| `BytecodeFormat.LoadRestores` | unifyframework/duktape1.4.0/duk_api_bytecode.c:671-709 | field by field, every function loads with its code, constants, counts and header, each present property as it was, each missing one at its default, unused formals dropped, and inner functions likewise |
| `BytecodeFormat.LoadIsInverse` | unifyframework/duktape1.4.0/duk_api_bytecode.c:671-709 | a function with all properties and no unused formals slot, inside too, loads as itself |
| `BytecodeFormat.DumpInjective` | unifyframework/duktape1.4.0/duk_api_bytecode.c:671-709 | two such functions with the same stream are the same |
| `BytecodeFormat.Rejects` | unifyframework/duktape1.4.0/duk_api_bytecode.c:671-709 | another signature, or a constant with another tag, is a format error |
| `BytecodeFormat.FileLayout` | unifyframework/duktape1.4.0/duk_api_bytecode.c:220-355 | the bytes by position: 0xff 0x00, big-endian counts and header, instructions, tagged constants, inner functions, and the properties in their order up to the end marks |
| `Bytecode.LoadedNamed` | unifyframework/duktape1.4.0/duk_api_bytecode.c:598-635 | whatever is loaded has non-empty, distinct variable names none of which is __proto__ |
| `Bytecode.VarsAt` | unifyframework/duktape1.4.0/duk_api_bytecode.c:598-635 | the variable map of a dump loads as it was |
| `Bytecode.NamesAt` | unifyframework/duktape1.4.0/duk_api_bytecode.c:598-635 | the formals of a dump load as the used ones |
| `Bytecode.FuncAt` | unifyframework/duktape1.4.0/duk_api_bytecode.c:220-355 | a function dumped at any place of any text loads from there, inner functions included |
| `Bytecode.Redump` | unifyframework/duktape1.4.0/duk_api_bytecode.c:220-355 | normalising changes no byte of the dump |
| `ArraySort.ArrayObject.Compare` | unifyframework/duktape1.4.0/duk_bi_array.c:424-540 | values by the compare function, then undefined, then holes; a slot equals itself without a call |
| `ArraySort.ArrayObject.Swap` | unifyframework/duktape1.4.0/duk_bi_array.c:542-567 | exchanges two slots, holes included |
| `ArraySort.ArrayObject.Partition` | unifyframework/duktape1.4.0/duk_bi_array.c:602-698 | for any compare function a permutation with both cursors inside [lo,hi]; for a consistent one the pivot separates the range |
| `ArraySort.ArrayObject.QSort` | unifyframework/duktape1.4.0/duk_bi_array.c:602-698 | terminates for any pivot and compare function, permutes only its range, and orders it if the compare function is a total preorder |
| `ArraySort.ArrayObject.Sort` | unifyframework/duktape1.4.0/duk_bi_array.c:700-721 | the whole array is a permutation, and ordered for a consistent compare function; refused from 2^31 elements on |
| `ArraySort.OrderedLayout` | unifyframework/duktape1.4.0/duk_bi_array.c:700-721 | in an ordered array undefined values follow all values and holes are last |
| `ArraySort.ArrayObject.SpliceArguments` | unifyframework/duktape1.4.0/duk_bi_array.c:760-781 | a negative start counts from the end, start and count are clipped to the array, a missing count is all the rest |
| `ArraySort.ArrayObject.Splice` | unifyframework/duktape1.4.0/duk_bi_array.c:736-894 | the array becomes head, items, tail and the deleted part is returned with its holes; range error beyond 32-bit length leaves it alone |
| `TypedArray.Set` | unifyframework/duktape1.4.0/duk_bi_buffer.c:1696-1909 | equals copying the source first and converting element by element, for every overlap and pair of integer types; nothing else in memory changes; errors and skips as specified |
| `TypedArray.SetElements` | unifyframework/duktape1.4.0/duk_bi_buffer.c:1696-1909 | element i of the source, as it was, becomes element offset + i of the target |
| `TypedArray.SetErrors` | unifyframework/duktape1.4.0/duk_bi_buffer.c:1696-1909 | a TypeError exactly for a negative offset, a RangeError exactly if the elements do not fit; no byte outside the target elements changes |
| `TypedArray.ElementValues` | unifyframework/duktape1.4.0/duk_bi_buffer.c:394-482 | the values of one, two and four bytes of every integer type, least significant byte first |
| `TypedArray.Prepare` | unifyframework/duktape1.4.0/duk_bi_buffer.c:1725-1794 | the 32-bit checks answer what unbounded arithmetic would |
| `TypedArray.ConvertedCopy` | unifyframework/duktape1.4.0/duk_bi_buffer.c:1822-1829 | between compatible types converting a block is copying it, so the memmove shortcut is sound |
| `TypedArray.CompatibleIff` | unifyframework/duktape1.4.0/duk_bi_buffer.c:65-103 | the table lists exactly the pairs of integer types for which reading and writing back preserves every byte |
| `TypedArray.ReadWrite` | unifyframework/duktape1.4.0/duk_bi_buffer.c:394-482 | a written value reads back as the equal value modulo 2^bits, or the nearest one when clamped |
| `TypedArray.ConvertedElements` | unifyframework/duktape1.4.0/duk_bi_buffer.c:394-482 | each element of a converted block is what the element of the source becomes |
| `TypedArray.CopyElements` | unifyframework/duktape1.4.0/duk_bi_buffer.c:1888-1909 | the element loop writes the converted block from a source that it does not overlap |
| `DateCalendar.DivFloor` | unifyframework/duktape1.4.0/duk_bi_date.c:484-495 | the corrected C division is the floor |
| `DateCalendar.YearLength` | unifyframework/duktape1.4.0/duk_bi_date.c:498-506 | consecutive year starts differ by the length that the leap year rule gives |
| `DateCalendar.DayFromYearFloor` | unifyframework/duktape1.4.0/duk_bi_date.c:498-506 | the formula of E5.1 section 15.9.1.3 in floors |
| `DateCalendar.LeapModulo` | unifyframework/duktape1.4.0/duk_bi_date.c:498-506 | the leap year rule |
| `DateCalendar.MonthStarts` | unifyframework/duktape1.4.0/duk_bi_date.c:424-426 | the month starts of E5.1 section 15.9.1.4 |
| `DateCalendar.WeekDays` | unifyframework/duktape1.4.0/duk_bi_date.c:608-745 | weekdays follow each other, from a Thursday at the epoch |
| `DateParts.AdjustedParts` | unifyframework/duktape1.4.0/duk_bi_date.c:608-745 | the equivalent year lies from 1971 to 2037 and every date keeps its weekday; months and days count from one on request; the rest is untouched |
| `DateParts.MakeDayLaws` | unifyframework/duktape1.4.0/duk_bi_date.c:546-602 | twelve months are a year, days add up, and day 0 is 1 January 1970 |
| `DateCalendar.YearFromDay` | unifyframework/duktape1.4.0/duk_bi_date.c:509-541 | terminates for every day, never overshoots, and returns the year whose days contain it |
| `DateCalendar.YearUnique` | unifyframework/duktape1.4.0/duk_bi_date.c:509-541 | there is only one such year |
| `DateCalendar.EquivalentYearFits` | unifyframework/duktape1.4.0/duk_bi_date.c:710-729 | the mapped year has the same length and starts on the same weekday |
| `DateParts.MakeDay` | unifyframework/duktape1.4.0/duk_bi_date.c:546-602 | E5.1 MakeDay for unnormalised months, NaN outside the year range |
| `DateParts.SplitTime` | unifyframework/duktape1.4.0/duk_bi_date.c:608-745 | valid parts that stand for the time value, with the weekday |
| `DateParts.TimevalToParts` | unifyframework/duktape1.4.0/duk_bi_date.c:608-745 | the same with the equivalent year and one-based options |
| `DateParts.PartsUnique` | unifyframework/duktape1.4.0/duk_bi_date.c:608-745 | valid parts of a time value are unique |
| `DateParts.TimeFromDparts` | unifyframework/duktape1.4.0/duk_bi_date.c:753-881 | the time value of unnormalised parts, clipped; in local time by the offset iteration |
| `DateParts.Ranges` | unifyframework/duktape1.4.0/duk_bi_date.c:753-881 | time values reach 100 million days to either side of the epoch, and years from -271821 to 275760 |
| `DateParts.RebuildSplit` | unifyframework/duktape1.4.0/duk_bi_date.c:753-881 | rebuilding undoes splitting on every time value |
| `DateParts.SplitRebuild` | unifyframework/duktape1.4.0/duk_bi_date.c:753-881 | splitting undoes rebuilding |
| `DateParts.LocalOffset` | unifyframework/duktape1.4.0/duk_bi_date.c:846-873 | for every offset function of at most two values: ends by the third round at a fixed point or two-cycle; finds a matching instant if there is one, otherwise takes the larger offset |
| `DateIso.TableIsGrammar` | unifyframework/duktape1.4.0/duk_bi_date.c:161-186 | the first matching rule of the table is the transition of the date grammar |
| `DateIso.FindAction` | unifyframework/duktape1.4.0/duk_bi_date.c:161-186 | separator and rule search compute that transition |
| `DateIso.ParseIso` | unifyframework/duktape1.4.0/duk_bi_date.c:188-364 | the character loop accepts and evaluates exactly as the reference automaton |
| `DateIso.ParseFormatUtc` | unifyframework/duktape1.4.0/duk_bi_date.c:956-1010 | parsing the UTC format of any time value, with T or space, for all year forms, gives the time value back |
| `DateIso.ParseFormatLocal` | unifyframework/duktape1.4.0/duk_bi_date.c:956-1010 | parsing a local format gives the time value shifted by the seconds of the offset that the text drops |
| `DateIso.LocalExact` | unifyframework/duktape1.4.0/duk_bi_date.c:956-1010 | so the local round trip is exact if and only if the offset is a whole number of minutes |
| `DateLayout.FormatLayout` | unifyframework/duktape1.4.0/duk_bi_date.c:956-1010 | the layout of E5.1 section 15.9.1.15 by position: four digits for years 0 to 9999, else a sign and six; every other field and separator at its place; Z or sign, hours and minutes of the offset; 24 or 27 bytes in UTC, five more with an offset |
| `DateLayout.FollowSets` | unifyframework/duktape1.4.0/duk_bi_date.c:161-186 | which characters may follow each part, and which part comes next |
| `DateLayout.FractionDigits` | unifyframework/duktape1.4.0/duk_bi_date.c:188-364 | of a fraction of a second the first three digits count, missing ones are zeros |
| `DateLayout.DateOnly` | unifyframework/duktape1.4.0/duk_bi_date.c:188-364 | year, month and day alone are midnight in UTC, missing ones being the first |
| `Uri.EncodeUriSet` | unifyframework/duktape1.4.0/duk_bi_global.c:25-35 | the bit table is uriReserved, uriUnescaped and # |
| `Uri.EncodeComponentSet` | unifyframework/duktape1.4.0/duk_bi_global.c:37-47 | the bit table is uriUnescaped |
| `Uri.DecodeUriSet` | unifyframework/duktape1.4.0/duk_bi_global.c:49-59 | the bit table is uriReserved and # |
| `Uri.DecodeComponentSet` | unifyframework/duktape1.4.0/duk_bi_global.c:61-71 | the bit table is empty |
| `Uri.Run` | unifyframework/duktape1.4.0/duk_bi_global.c:118-144 | the transform loop computes the reference transformation codepoint by codepoint, with its errors |
| `Uri.Transform.EncodeCallback` | unifyframework/duktape1.4.0/duk_bi_global.c:146-206 | one codepoint: kept, escaped with its surrogate partner, or a URIError |
| `Uri.EncodesIffPaired` | unifyframework/duktape1.4.0/duk_bi_global.c:146-206 | a string encodes if and only if its surrogates are paired |
| `Uri.EncodedScalar` | unifyframework/duktape1.4.0/duk_bi_global.c:146-206 | a character of the table is kept, any other is escaped byte by byte |
| `Uri.EscapeTexts` | unifyframework/duktape1.4.0/duk_bi_global.c:146-206 | every escape is a percent sign and two upper-case hex digits |
| `Uri.Transform.DecodeCallback` | unifyframework/duktape1.4.0/duk_bi_global.c:208-344 | one codepoint: kept, a reserved escape kept, a strict UTF-8 sequence assembled and split into units, or a URIError |
| `Uri.DecodesBack` | unifyframework/duktape1.4.0/duk_bi_global.c:208-344 | an escaped codepoint decodes to its 16-bit units |
| `Uri.StrictUtf8` | unifyframework/duktape1.4.0/duk_bi_global.c:208-344 | of escaped sequences above ASCII exactly those are accepted that are the RFC 3629 bytes of a codepoint other than a surrogate |
| `Uri.DecodedAscii` | unifyframework/duktape1.4.0/duk_bi_global.c:208-344 | an escaped ASCII character is decoded, or kept as written if reserved |
| `Uri.Surrogates` | unifyframework/duktape1.4.0/duk_bi_global.c:208-344 | codepoints past U+FFFF are the surrogate pairs of UTF-16 |
| `Uri.DecodeEncoded` | unifyframework/duktape1.4.0/duk_bi_global.c:208-344 | decoding undoes encoding for every string with paired surrogates and every pair of inverse tables |
| `Uri.UriTables` | unifyframework/duktape1.4.0/duk_bi_global.c:686-700 | both table pairs are inverse: what stays escaped is not escaped by encoding, and percent is escaped |
| `ModuleId.ResolveBytes` | unifyframework/duktape1.4.0/duk_bi_global.c:841-989 | the byte loop computes the term-stack resolution, fails exactly on its bad terms and lengths, and never outputs more bytes than it reads |
| `ModuleId.Idempotent` | unifyframework/duktape1.4.0/duk_bi_global.c:841-989 | resolution is idempotent on its results, which never begin with a period |
| `ModuleId.IdempotentId` | unifyframework/duktape1.4.0/duk_bi_global.c:841-989 | an id that require() has resolved resolves to itself from every module, within the length limit |
| `ModuleId.Relative` | unifyframework/duktape1.4.0/duk_bi_global.c:841-989 | a relative id is resolved from the terms of the current module without the last one |
| `ModuleId.FromRoot` | unifyframework/duktape1.4.0/duk_bi_global.c:841-989 | an absolute id does not depend on the current module; a relative one without it resolves as from a module at the root |
| `ModuleId.TermLaws` | unifyframework/duktape1.4.0/duk_bi_global.c:841-989 | . and empty terms vanish, .. takes the term before it away, and fails at the root |
| `ModuleId.BadTerms` | unifyframework/duktape1.4.0/duk_bi_global.c:841-989 | other terms that begin with a period, and a last term that is empty or begins with one, are errors |
| `ModuleId.Backtrack` | unifyframework/duktape1.4.0/duk_bi_global.c:935-955 | going up drops exactly the last term of the output |
| `ModuleId.CopyTerm` | unifyframework/duktape1.4.0/duk_bi_global.c:962-975 | copies one term and its slash |

## Left out

- JsonPrint.IntegerReads: integers are exact and unbounded, while the engine reads them as doubles, so this and `JsonPrint.ParsePrint` speak for integers that a double holds; `-0`, a double of its own in the engine, reads as 0, and integers beyond 2^53 are not rounded.
- JsonDecoder.Decoder.DecodeNumber: numbers that are not integers are known by their text, since number conversion is not modelled.
- JsonDecoder.Parse: the reviver is not modelled.
- JSON.stringify extras: replacer, property list, toJSON, getters, proxies, inherited array elements, side effects of coercions, and the JX and JC modes.
- JSON.stringify of a mapped arguments object whose array part was given up: the fast printer reads its slots, the slow printer the variables bound to them; such objects are not in the heap of the model.
- JSON.stringify wrapper object: the put of the value under the empty key, which an accessor or a read-only property of that name on Object.prototype would take.
- JSON output room: the buffer writer is a growing sequence, and no bound per quoted chunk is claimed.
- JsonPrint.ParsePrint: for white space gaps and trees with unique keys, as a gap of other characters does not parse.
- ValueStack.Heap.Run: counts references from the two stacks only, not references from one object to another.
- Value stack API: getters and pushers of special values are not modelled, they would only add easy members.
- duk_check_stack_top and duk_require_stack_top: their size ignores the frame bottom, so no room is promised.
- BytecodeIo.ReadFunc: requires input that does not lead the unchecked reads out of bounds, as the source demands of its callers; the value stack used during loading is a local sequence.
- BytecodeIo.BufWriter.Ensure: does not model a size that wraps, or a failing allocation.
- Bytecode: the big-endian arm, debugger line numbers, the lexical environment and the prototype object of a loaded function, and the fastint form of number constants.
- ArraySort.ArrayObject.Sort: compare functions that throw or change the array, and receivers that are not arrays.
- ArraySort.ArrayObject.Splice: arguments are already integers.
- TypedArray.Set: float element types, plain array sources, and source views whose length is not a multiple of the element size.
- DateParts.TimeFromDparts: parts are integers, so NaN, infinities and the rounding of huge doubles are not modelled.
- DateParts.LocalOffset: the platform's offset is an abstract function; nothing is promised for functions of three or more values.
- DateIso.ParseFormatUtc: date-only and time-only formats are not modelled, they do not carry a full time value.
- Uri.DecodeEncoded: speaks of texts made by encoding; the decoder does not compare the later percent signs of a sequence, so malformed ones are accepted as the code accepts them.
- Uri: escape() and unescape() of section B.2.
- ModuleId.ResolveBytes: ids are C strings without NUL; searching and evaluating modules is not modelled.
- Platform date providers, file, print, logging, debugger, threads, calls, regular expressions, the compiler and property lookup: foreign calls, or code outside these eight algorithms.
