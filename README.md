# jsonpp in Dafny

This project models the core of jsonpp, a small header-only C++ JSON library, and proves properties of that model. It covers these parts:

- **The value tree** (`json::var` and `key_value` equality, module `JsonValue`; `basic_var`, module `JsonVar`). It is a tagged union of Undefined, Null, Bool, Number, String, Array and Object. Arrays and objects share one ordered list of (key, value) children. The datatype keeps all four fields of the C++ record: tag, string, number and children. Auto-vivification resets only the tag and the children, and equality still sees the string and the number.
  - The pure functions give the meaning of key access, index access, `push`, both `splice` forms, `clear`, `merge`, equality and truthiness.
  - The class `JsonVar.Var` has the same four fields, and its methods update them in place. Each method is proved equal to its function.
- **The serializer** (module `Serializer`). It produces the compact form and the human-readable form with its markup flags. Each container's children are written by a loop.
- **The UTF-8 helpers** (module `Unicode`).
  - `utf8Encode` is bit packing by code-point class.
  - `utf8Decode` is the serializer's string escaper. It writes short escapes and `\u` plus lower-case hex, and its lead-byte width classes are one class wider than standard UTF-8.
- **The base64 codec** (module `Base64`). It implements the alphabet and padding of section 4 of RFC 4648 with 3-to-4 block loops over arrays, the padding rules and the unpadded-tail rule. It proves `decode(encode(b)) == b`.
- **The reusable character buffer** `Buffer<T>` (module `Misc`). The buffer is a class with a storage array and a cursor.
- **The single-pass parser** (modules `Literal` and `Parser`). It covers three versions (`Current`, `Earlier`, `Earliest`):
  - one character step over two quote flags, the two-tick escape counter, the literal and a stack of destinations;
  - literal trimming, the six-state number recogniser, keywords, quote stripping and escape decoding (section 7 of RFC 8259);
  - the routing of each new value by the tag of the top destination.
  - The destination stack is a sequence of child-index paths from the root. Imperative `Parse` and `ParseEarliest` methods run the loop and are proved to return the specified result.
- **The earliest snapshot** `JSON++.h` (module `EarlyValue` and the `Earliest` parser version). Its copy constructor drops the children, an Array is falsy, and the serializer escapes quotes only.
- **The test driver's expected behaviour** (module `ParserScenarios`). Lemmas state the results that `src/main.cpp` expects for concrete inputs.
- **The test driver's round trip** (module `RoundTrip`). Parsing the compact serialization of a parsed value gives that value back. It is proved for every empty Object, every Object of one String member and every Array of two Strings whose texts are bytes, and for the driver's inputs of those shapes.

Number payloads are abstract: `Numeric` is either `NaN` or a finite `real`. The conversions between numbers and text are a parameter (`NumberText` / `Conversions`) whose functions the model never looks inside.

The code departs from strict JSON as follows:
- the keyword switch of the current parser falls through from `n` to `t`, so the token `nrue` parses as `true`;
- whitespace outside quotes is saved in the literal and trimmed only when the literal is added, so `{ "v":s1 s2}` gives the string `s1 s2`;
- a leading quote and a trailing quote are stripped independently of each other;
- `1.`, `-` and `1e` count as numbers, because every non-zero end state of the recogniser accepts;
- `splice(index, remove)` does nothing when `remove == size - index`, and the three-argument `splice` never appends.

## Model

| member | source | states |
|---|---|---|
| JsonValue.MemberEqualsMatchSameKeys | include/jsonpp/value.h:47-70 | equal key-value pairs have equal keys, so key lookup cannot tell them apart |
| JsonValue.EqualsIsSameness | include/jsonpp/value.h:438-454 | deep equality (same tag, same NaN-ness, numbers compared only when not NaN, same string, equal children in order) holds exactly for identical values |
| JsonValue.ChildrenEqualFromIsSameness | include/jsonpp/value.h:47-50 | the element-wise comparison of the children vectors holds exactly when the children are identical |
| JsonValue.NaNNumberEqualsItself | include/jsonpp/value.h:442-447 | a NaN number equals a NaN number and differs from 0 |
| JsonValue.TruthyByTag | include/jsonpp/value.h:245-263 | Null and Undefined are false, Array and Object true, a String true iff non-empty, a Number or Bool true iff non-zero and not NaN |
| JsonValue.ToText | include/jsonpp/value.h:265-298 | a String converts to its text and a Bool to `true` or `false` by its truth |
| JsonValue.KeyIndex | include/jsonpp/value.h:60-70 | the position of the first child with the key, or the size when there is none |
| JsonValue.KeyAccess | include/jsonpp/value.h:349-364 | key access makes the value an Object (clearing the children of a non-Object), keeps string and number, and returns the first slot with the key, appending `(key, Undefined)` at the end when the key is missing |
| JsonValue.KeyAccessKeepsKeysUnique | include/jsonpp/value.h:349-364 | key access never creates a duplicate key |
| JsonValue.KeyAccessIdempotent | include/jsonpp/value.h:349-364 | a second access with the same key changes nothing more |
| JsonValue.KeyAccessThenConstKey | include/jsonpp/value.h:349-377 | the const lookup after a key access finds the slot the access returned |
| JsonValue.ConstKey | include/jsonpp/value.h:368-377 | const key access yields the value of a child with the key before which no child has the key, or an Undefined value when the key is missing |
| JsonValue.EmptySlots | include/jsonpp/value.h:396 | the slots added by a resize are keyless Undefined values |
| JsonValue.IndexAccess | include/jsonpp/value.h:389-398 | index access makes the value an Array (clearing a non-Array), grows it to exactly index+1 with Undefined slots when index >= size, and otherwise keeps the children |
| JsonValue.IndexAccessIdempotent | include/jsonpp/value.h:389-398 | a second access with the same index changes nothing more |
| JsonValue.ConstIndex | include/jsonpp/value.h:421-429 | const index access yields the element, or an Undefined value when out of range |
| JsonValue.IndexAccessThenConstIndex | include/jsonpp/value.h:389-429 | after index access the const lookup finds the kept element or a fresh Undefined slot |
| JsonValue.Pushed | include/jsonpp/value.h:527-535 | push makes the value an Array (clearing a non-Array) and appends exactly one element at the end |
| JsonValue.PushedThenConstIndex | include/jsonpp/value.h:421-429 | the last element after push is the pushed value |
| JsonValue.Spliced | include/jsonpp/value.h:485-496 | splice erases `[index, index+remove)` only when remove > 0, index < size and remove < size - index; otherwise nothing changes |
| JsonValue.SpliceNeverEmptiesTail | include/jsonpp/value.h:485-496 | removing from index exactly to the end is refused and leaves the value unchanged |
| JsonValue.Copies | include/jsonpp/value.h:504-507 | the returned array holds remove keyless copies of the item |
| JsonValue.SplicedInsert | include/jsonpp/value.h:498-525 | after the removal, the item is inserted at index only when index is below the new size (never appended); the result is the copies of the item when remove > 0 and the new value otherwise |
| JsonValue.Cleared | include/jsonpp/value.h:537-543 | clear leaves a false value equal to a fresh Undefined |
| JsonValue.SetChild | include/jsonpp/value.h:559-566 | merging into a slot replaces that child's value and keeps every other child |
| JsonValue.MergeIntoScalar | include/jsonpp/value.h:547-555 | a receiver that is not a container becomes the right-hand side |
| JsonValue.MergeKeyStep | include/jsonpp/value.h:556-560 | one turn of the Object loop accesses the right-hand key, merges the right-hand value into that slot and leaves the keys of the existing members in place |
| JsonValue.MergeKeysKeepsOwnKeys | include/jsonpp/value.h:556-561 | the Object loop keeps every own key in place and adds every right-hand key |
| JsonValue.ValuesUnder | include/jsonpp/value.h:556-560 | the right-hand values the loop meets under a key, in order: none exactly when the key is absent |
| JsonValue.ValuesUnderUnique | include/jsonpp/value.h:556-560 | with unique keys, the loop meets exactly one value under each right-hand key |
| JsonValue.AccessThenSet | include/jsonpp/value.h:349-377 | the slot key access returns holds what const lookup gave before, and writing it changes the lookup of that key only |
| JsonValue.MergeKeysAt | include/jsonpp/value.h:556-560 | after the loop from member i on, the value under every key is the old value (Undefined when absent) merged in turn with each right-hand value under that key |
| JsonValue.MergeKeysFrame | include/jsonpp/value.h:556-560 | the loop leaves every own member whose key the right-hand side does not mention unchanged, and every member it adds carries a right-hand key the receiver lacked |
| JsonValue.MergeIntoObject | include/jsonpp/value.h:545-561 | an Object receiver stays an Object with its own keys in place and gains every right-hand key; under every key it holds the old value (Undefined when absent) merged in loop order with the right-hand values under that key, which is `Merge(old, rhs[k])` when the right-hand keys are unique; own members the right-hand side does not mention are unchanged, and the added members carry right-hand keys that were absent |
| JsonValue.MergeIndicesLength | include/jsonpp/value.h:562-568 | from element i on, the Array loop sets element j to the old element j (Undefined past the end) merged with right-hand element j, leaves the elements before i and past the right-hand length unchanged, and grows the receiver to the longer of the two lengths |
| JsonValue.MergeIntoArray | include/jsonpp/value.h:545-570 | an Array receiver stays an Array of the longer length; element j below the right-hand length is the old element j (Undefined past the end) merged with right-hand element j, and the elements past the right-hand length are unchanged |
| JsonVar.Var.FromTag | include/jsonpp/value.h:119-129 | a value built from a type has that type, no string, NaN and no children |
| JsonVar.Var.FromString | include/jsonpp/value.h:131-141 | a value built from text is a String holding it |
| JsonVar.Var.FromBool | include/jsonpp/value.h:155-159 | a value built from a bool is a Bool whose number is 1 or 0 |
| JsonVar.Var.FromNumber | include/jsonpp/value.h:161-225 | a value built from a number is a Number holding it |
| JsonVar.Var.Assign | include/jsonpp/value.h:233-243 | assignment copies all four fields, children included |
| JsonVar.Var.SetSlot | include/jsonpp/value.h:559-566 | writing through a slot reference changes that child's value and nothing else |
| JsonVar.Var.Key | include/jsonpp/var.h:249-264 | key access updates the object to the key-access state and returns the slot holding the key |
| JsonVar.Var.Index | include/jsonpp/var.h:289-298 | index access updates the object to the index-access state, after which the index is in range |
| JsonVar.Var.Push | include/jsonpp/var.h:429-437 | push updates the object to the pushed state |
| JsonVar.Var.Splice | include/jsonpp/var.h:387-398 | two-argument splice updates the object to the spliced state |
| JsonVar.Var.SpliceInsert | include/jsonpp/var.h:400-427 | three-argument splice updates the object and returns the value its specification gives |
| JsonVar.Var.Clear | include/jsonpp/var.h:439-445 | clear resets tag, string, children and number |
| JsonVar.Var.Merge | include/jsonpp/var.h:447-472 | merge updates the object to the merged state, recursing into slots |
| Serializer.Tabs | include/jsonpp/value.h:574 | the indentation is exactly `level` tab characters |
| Serializer.Decimal | include/jsonpp/value.h:613-616 | the position written before ` => ` is a non-empty run of decimal digits without a leading zero that reads back, digit by digit from the left, as the position itself |
| Serializer.SerializeScalar | include/jsonpp/value.h:576-591 | a scalar serializes as `null`, its number or bool text, or its utf8Decode-escaped string in quotes, after the tabs when HumanReadable and IndentFirstItem are both set |
| Serializer.Serialize | include/jsonpp/value.h:572-647 | serialize returns the specified text: optional leading tabs, then the scalar text or the bracketed items with the closing line when human-readable |
| Serializer.SerializeItems | include/jsonpp/value.h:605-639 | the loop over the children writes the items of the specification in order |
| Serializer.SerializeItem | include/jsonpp/value.h:607-638 | one turn writes the comma (not before the first child), the line break and tabs, the position or the escaped key, then the child serialized one level deeper without IndentFirstItem |
| Serializer.ContainerBody | include/jsonpp/value.h:599-644 | a container's text is its items between its brackets with the closing line before the closing bracket |
| Serializer.CompactIgnoresLevel | include/jsonpp/value.h:572-647 | compact output is the same at every level |
| Serializer.IndentFirstItemOnlyLeads | include/jsonpp/value.h:580-638 | IndentFirstItem only adds tabs in front of the first line, and only when human-readable, since children never receive it |
| Serializer.StringText | include/jsonpp/value.h:586-590 | a String serializes compactly, at any level, to the quoted utf8Decode of its text |
| Serializer.CompactText | include/jsonpp/value.h:597-646 | a container serializes compactly to its items between its brackets, with no indentation and no line breaks |
| Serializer.FirstMemberText | include/jsonpp/value.h:630-638 | in compact form the first Object member is written as its quoted key, `:` and its value serialized one level deeper, with no comma |
| Serializer.ElementText | include/jsonpp/value.h:605-619 | in compact form Array element i is written as a comma (except before the first) and the element serialized one level deeper |
| Serializer.ArrayOfTwoText | include/jsonpp/value.h:605-620 | in compact form the loop over two elements writes the first, a comma and the second |
| Serializer.MemberText | include/jsonpp/value.h:572-646 | an Object of one String member serializes compactly to `{"key":"value"}`, both escaped |
| Serializer.PairText | include/jsonpp/value.h:572-646 | an Array of two Strings serializes compactly to `["first","second"]`, both escaped |
| Serializer.EmptyObjectText | include/jsonpp/value.h:572-646 | an empty Object serializes compactly to `{}` |
| Unicode.Unit | include/jsonpp/unicode.h:28 | `static_cast<char>` keeps the value modulo 256 |
| Unicode.Continuation | include/jsonpp/unicode.h:34-41 | a continuation unit is 0x80 with six payload bits |
| Unicode.Utf8Encode | include/jsonpp/unicode.h:20-71 | output lengths 1, 2, 3, 4 for the four standard ranges, 5 from 0x200000 up to 0x8000000 (the six-unit class also gives five), empty above; below 0x80 the one unit is the code point |
| Unicode.TwoUnitsDecode | include/jsonpp/unicode.h:30-35 | the two-unit encoding is the section 3 RFC 3629 encoding of the code point |
| Unicode.ThreeUnitsDecode | include/jsonpp/unicode.h:36-42 | the three-unit encoding is the section 3 RFC 3629 encoding of the code point |
| Unicode.FourUnitsDecode | include/jsonpp/unicode.h:43-50 | the four-unit encoding reads back to the code point under the standard lead and continuation rules |
| Unicode.FiveUnitsDecode | include/jsonpp/unicode.h:51-59 | the five-unit encoding reads back to the code point under the same rules |
| Unicode.Utf8EncodeDecodes | include/jsonpp/unicode.h:20-59 | below 0x4000000 every encoding reads back to its code point |
| Unicode.Utf8EncodeSixUnitClassIsShort | include/jsonpp/unicode.h:60-68 | the six-unit branch writes only five units, led by 0xFC, which do not read back |
| Unicode.EscapeAscii | include/jsonpp/unicode.h:90-126 | `"`, `\`, `/`, BS, FF, LF, CR and TAB become a backslash and their letter; every other ASCII unit is copied |
| Unicode.HexLower | include/jsonpp/unicode.h:169 | the payload is written in lowercase hex digits, at least one |
| Unicode.UnicodeEscape | include/jsonpp/unicode.h:169 | a `\u` escape is ASCII text beginning with `\u` |
| Unicode.HexLowerReadsBack | include/jsonpp/unicode.h:169 | the hex digits written read back to the payload |
| Unicode.EscapedAsciiStep | include/jsonpp/unicode.h:87-126 | an ASCII unit contributes its escape and the loop moves one unit on |
| Unicode.EscapedSequenceStep | include/jsonpp/unicode.h:127-169 | a lead unit of width w (2 from 0x80, 3 from 0xC0, 4 from 0xE0, 5 from 0xF0, 6 from 0xF8) consumes w units and writes `\u` with the payload in hex |
| Unicode.Utf8Decode | include/jsonpp/unicode.h:73-173 | the escaper loop returns the escaped text, stopping at a sequence cut short; it requires that no lead at or above 0xFC is reached, where the loop would not advance |
| Unicode.EscapedUnsignedIsAscii | include/jsonpp/unicode.h:85-170 | with unsigned units the escaped text is pure ASCII |
| Unicode.EscapedSignedKeepsOtherUnits | include/jsonpp/unicode.h:87-119 | with signed units, text without special ASCII characters is copied unchanged, bytes of 0x80 and above included |
| Unicode.EscapedUnsignedDropsTwoUnitSequence | include/jsonpp/unicode.h:26-133 | utf8Encode(0xE9) is two units, and the escaper, taking 0xC3 as a three-unit lead, stops and writes nothing |
| Base64.B64d | include/jsonpp/base64.h:198-224 | every unit outside the alphabet (`=` included) decodes to 0 |
| Base64.B64eDecodes | include/jsonpp/base64.h:192-224 | b64e maps 0..63 into the alphabet, never to `=`, and b64d reads each back |
| Base64.EncodeGroupInAlphabet | include/jsonpp/base64.h:112-135 | the four characters of a group are alphabet characters |
| Base64.BlockEncodedStep | include/jsonpp/base64.h:112-138 | one loop turn consumes three bytes and emits their group |
| Base64.WriteGroup | include/jsonpp/base64.h:114-134 | the four writes append exactly the group of the three bytes after the output written so far |
| Base64.BlockEncode | include/jsonpp/base64.h:105-143 | block_encode returns one group per whole triple and consumes all but the count mod 3 tail bytes |
| Base64.PaddedGroup | include/jsonpp/base64.h:45-64 | the last group of a 1- or 2-byte tail is the zero-filled group with `=` over the 2 or 1 unused characters |
| Base64.Encode | include/jsonpp/base64.h:39-67 | encode returns the block encoding followed by the padded final group |
| Base64.ZeroFilled | include/jsonpp/base64.h:47-53 | the three-byte buffer holds the tail followed by zeros |
| Base64.Overwrite | include/jsonpp/base64.h:58-63 | the padding loop turns exactly the last n characters into `=` and keeps the rest |
| Base64.EncodedLength | include/jsonpp/base64.h:39-67 | encoded text has length 4 times the number of started triples |
| Base64.BlockEncodedLength | include/jsonpp/base64.h:105-143 | block_encode writes four characters per whole triple |
| Base64.BlockEncodedNoPadding | include/jsonpp/base64.h:105-143 | block_encode never writes `=` and only writes alphabet characters |
| Base64.BlockEncodedPrefix | include/jsonpp/base64.h:112-138 | block_encode ignores the tail of fewer than three bytes |
| Base64.BlockDecoded | include/jsonpp/base64.h:145-190 | block_decode stops within the text; if it consumes nothing the text is shorter than four and nothing is decoded |
| Base64.GroupWidth | include/jsonpp/base64.h:155-180 | a group yields three bytes exactly when none of its last three characters is `=` |
| Base64.GroupEnds | include/jsonpp/base64.h:155-180 | a `=` in the second, third or fourth position yields the group's leading 0, 1 or 2 bytes and ends decoding after the group |
| Base64.GroupContinues | include/jsonpp/base64.h:151-185 | a group without `=` yields its three bytes and decoding goes on after it |
| Base64.DecodeGroupAt | include/jsonpp/base64.h:153-182 | one loop turn writes the group's bytes up to its first `=` after what was written before |
| Base64.BlockDecode | include/jsonpp/base64.h:145-190 | block_decode returns the decoded bytes and the position where it stopped |
| Base64.TruncatedUnits | include/jsonpp/base64.h:82-88 | each tail unit is copied through an unsigned char, keeping its low eight bits |
| Base64.TailGroup | include/jsonpp/base64.h:82-90 | the tail buffer is always four units long |
| Base64.DecodedRawWhole | include/jsonpp/base64.h:71-103 | with no tail left, decode_raw returns the block-decoded bytes |
| Base64.DecodedRawTail | include/jsonpp/base64.h:78-100 | a tail of r units contributes the first r bytes of its zero-filled group |
| Base64.DecodeRaw | include/jsonpp/base64.h:71-103 | decode_raw is block_decode followed by the tail rule |
| Base64.DecodeTail | include/jsonpp/base64.h:78-100 | the second half of decode_raw equals its specification on the characters block_decode left |
| Base64.PushTail | include/jsonpp/base64.h:94-99 | the final loop appends count bytes of the tail group, failing where it would read past them |
| Base64.TailBuffer | include/jsonpp/base64.h:82-90 | the buffer loop builds the zero-filled four-unit tail group |
| Base64.DecodedSized | include/jsonpp/base64.h:18-26 | the typed decode succeeds exactly when the raw decoding has sizeof(T) bytes, and fails with a size mismatch otherwise |
| Base64.GroupRoundTrip | include/jsonpp/base64.h:112-182 | decoding the group of three bytes gives the three bytes back |
| Base64.SextetsJoin | include/jsonpp/base64.h:114-182 | the four six-bit values of three bytes join back into them |
| Base64.BlockRoundTrip | include/jsonpp/base64.h:105-190 | block decoding a block encoding followed by any text gives the bytes back and then decodes that text |
| Base64.GroupThenRest | include/jsonpp/base64.h:145-190 | a written group followed by any text decodes to its bytes and then the text |
| Base64.FinalGroupDecodes | include/jsonpp/base64.h:45-190 | the padded final group decodes to exactly the tail bytes it was made from |
| Base64.PaddedOneDecodes | include/jsonpp/base64.h:45-190 | a group ending in `==` decodes to its one byte |
| Base64.PaddedTwoDecodes | include/jsonpp/base64.h:45-190 | a group ending in `=` decodes to its two bytes |
| Base64.GroupEndsAt | include/jsonpp/base64.h:155-180 | a group whose first `=` is at position n + 1 yields n bytes and ends decoding |
| Base64.DecodeEncodeRoundTrip | include/jsonpp/base64.h:28-103 | decode(encode(bytes)) gives back every byte sequence |
| Base64.EncodedBlockDecodes | include/jsonpp/base64.h:39-190 | block_decode alone reads all of encode's output back, consuming all of it |
| Base64.UnpaddedLength | include/jsonpp/base64.h:71-103 | unpadded alphabet text decodes to three bytes per group of four plus r bytes for a tail of r |
| Base64.TailGroupDecodes | include/jsonpp/base64.h:82-92 | the zero-filled buffer of an alphabet tail decodes to a full group of three bytes |
| Base64.UnpaddedBlockLength | include/jsonpp/base64.h:145-190 | on unpadded text block_decode stops at the last multiple of four and yields three bytes per group |
| Misc.PushedStorage | include/jsonpp/misc.h:91-102 | with the cursor at the end the unit is appended; otherwise it overwrites the unit at the cursor and the rest of the storage is kept |
| Misc.PushedAllContents | include/jsonpp/misc.h:91-146 | pushing units one by one leaves storage up to the new cursor equal to the old logical content followed by the units, and keeps storage beyond it |
| Misc.PushesAfterClear | include/jsonpp/misc.h:86-127 | after clear, k pushes make the logical content exactly the k units |
| Misc.Buffer.Contents | include/jsonpp/misc.h:86-89 | the logical content is the storage up to the cursor |
| Misc.Buffer.constructor | include/jsonpp/misc.h:69-71 | a new buffer has empty storage and the cursor at the start |
| Misc.Buffer.PushBack | include/jsonpp/misc.h:91-102 | push_back updates the storage as above, advances the cursor by one and appends the unit to the content |
| Misc.Buffer.Clear | include/jsonpp/misc.h:124-127 | clear keeps the storage and moves the cursor to the start, so the content is empty |
| Misc.Buffer.Empty | include/jsonpp/misc.h:148-151 | empty holds exactly when the content is empty |
| Misc.Buffer.Append | include/jsonpp/misc.h:129-137 | appending a string is push_back of each unit in order |
| Misc.Buffer.AppendRange | include/jsonpp/misc.h:139-146 | appending an iterator range is push_back of each unit in order |
| Misc.Buffer.EqualsText | include/jsonpp/misc.h:73-84 | comparison with a string is true exactly when one of the two is a prefix of the other |
| Literal.TrimWindow | include/jsonpp/parser.h:143-167 | the trimming loop leaves a window inside the range, drops only whitespace on both sides, and a non-empty window starts and ends with non-whitespace |
| Literal.TrimWindowStops | include/jsonpp/parser.h:143-167 | the loop stops exactly at the first and last non-whitespace units |
| Literal.TrimPadded | include/jsonpp/parser.h:143-167 | whitespace padding around a core that starts and ends with non-whitespace is removed, and nothing else is |
| Literal.Trim | include/jsonpp/parser.h:143-169 | the trimmed literal is empty exactly when the literal is all whitespace, is never longer, and otherwise starts and ends with non-whitespace |
| Literal.TrimKeeps | include/jsonpp/parser.h:143-167 | a literal without whitespace at its ends is unchanged |
| Literal.TrimBounds | include/jsonpp/parser.h:141-167 | the iterator loop computes the trimmed window |
| Literal.NumberStateAfter | include/jsonpp/parser.h:171-250 | the recogniser state is always one of 0 to 5 |
| Literal.RejectionIsFinal | include/jsonpp/parser.h:181-183 | once the recogniser rejects, no later unit makes the token numeric |
| Literal.RecogniseNumber | include/jsonpp/parser.h:171-250 | the classification loop, with its jump to the end on rejection, ends in the state of the recogniser |
| Literal.NumberStateMeaning | include/jsonpp/parser.h:184-246 | states 1 to 5 stand exactly for: nothing read, an integer part, a fraction, a bare exponent mark, a signed exponent |
| Literal.NumberTokenIsNumberShape | include/jsonpp/parser.h:171-252 | a token is numeric exactly when it is a mantissa optionally followed by an exponent mark and a signed exponent, so `-`, `1.` and `1e` count as numbers |
| Literal.NumberTokenUnits | include/jsonpp/parser.h:184-246 | a numeric token holds only signs, digits, points and exponent marks |
| Literal.IntegerPartAppend | include/jsonpp/parser.h:184-210 | an integer part grows exactly by a digit |
| Literal.FractionPartAppend | include/jsonpp/parser.h:195-224 | a fraction starts with a point after an integer part and grows exactly by a digit |
| Literal.FullExponentAppend | include/jsonpp/parser.h:226-246 | a signed exponent starts with a sign or digit after the mark and grows exactly by a digit |
| Literal.FullExponentShrinks | include/jsonpp/parser.h:226-246 | a signed exponent one unit shorter is either the bare mark or still a signed exponent |
| Literal.FullExponentGrows | include/jsonpp/parser.h:237-246 | a digit extends a signed exponent |
| Literal.KeywordsDifferOnlyOnNrue | include/jsonpp/parser.h:261-294 | the length switch and the whole-token tests of the other versions agree on every token except `nrue`, which only the switch reads as true |
| Literal.StripQuotes | include/jsonpp/parser.h:296-303 | one leading and one trailing quote of either kind are dropped independently; a token that is a single quote is a length error |
| Literal.EscapeLetterMeans | include/jsonpp/parser.h:319-365 | each letter the serializer's escaper writes after a backslash decodes to the unit it stands for |
| Literal.DecodeStep | include/jsonpp/parser.h:305-421 | one decoding turn keeps the mode between 0 and 5 and never past the position |
| Literal.DecodeUpTo | include/jsonpp/parser.h:305-421 | the decoder state after n units has its mode within bounds |
| Literal.DecodeEscapes | include/jsonpp/parser.h:302-421 | the decoding loop returns the decoded text |
| Literal.DecodeUpToPrefix | include/jsonpp/parser.h:305-421 | the decoder state after n units depends only on those units |
| Literal.UnescapeUnicode | include/jsonpp/parser.h:366-411 | `\u` and four hex digits decode to utf8Encode of their value |
| Literal.EscapedBytes | include/jsonpp/unicode.h:87-126 | with signed units every byte takes the ASCII branch of the escaper, one unit at a time |
| Literal.DecodeEscapedPiece | include/jsonpp/parser.h:305-365 | decoding the piece the escaper wrote for a unit appends that unit |
| Literal.UnescapeInvertsEscaped | include/jsonpp/parser.h:305-421 | the decoder reads the escaper's output back to the original bytes and ends outside any escape |
| Literal.UnescapeEscaped | include/jsonpp/parser.h:305-421 | decoding the escaper's output gives the text back |
| Literal.UnescapePlain | include/jsonpp/parser.h:305-421 | text without backslashes decodes to itself |
| Parser.AtReplaceAt | include/jsonpp/parser.h:432-441 | writing through a valid destination path and reading it back gives what was written |
| Parser.ReplaceAtKeepsPrefixes | include/jsonpp/parser.h:441 | writing through a destination keeps every destination above it reachable |
| Parser.ValidPathExtends | include/jsonpp/parser.h:449-453 | a child of a reachable destination is reachable, one position further down |
| Parser.PathPrefixValid | include/jsonpp/parser.h:68-80 | every destination above a reachable one is reachable |
| Parser.PopKeepsStackValid | include/jsonpp/parser.h:68-80 | popping the top destination leaves a chain of reachable destinations, each inside the next |
| Parser.AddItem | include/jsonpp/parser.h:428-456 | add(item) on no destination changes nothing (a bare rethrow in the earliest version) and otherwise always succeeds |
| Parser.ReplaceTop | include/jsonpp/parser.h:432-441 | replacing the top destination keeps it reachable, holding the new value, and keeps the chain valid |
| Parser.AddItemToScalar | include/jsonpp/parser.h:436-447 | a scalar or Undefined top is replaced by the item and popped unless the item is a container |
| Parser.AddItemToObject | include/jsonpp/parser.h:448-450 | an Object top gets the slot keyed by the item's text (created if missing) as the new top destination |
| Parser.AddItemToArray | include/jsonpp/parser.h:451-454 | an Array top gets the item appended, and the new element becomes the top when it is a container |
| Parser.AddItemKeepsStackValid | include/jsonpp/parser.h:428-456 | add(item) keeps every destination a reachable value in the tree, each inside the next |
| Parser.StackGrows | include/jsonpp/parser.h:449-453 | pushing a reachable child of the top keeps the chain valid |
| Parser.Classify | include/jsonpp/parser.h:169-423 | a numeric token becomes the number read from it; a single quote alone is the one error; every other token becomes a scalar |
| Parser.Keyword | include/jsonpp/parser.h:259-294 | a keyword is always a scalar without children |
| Parser.AddLiteral | include/jsonpp/parser.h:137-169 | add(string) on no destination does nothing (a bare rethrow in the earliest version), and an all-whitespace literal adds nothing |
| Parser.AddLiteralKeepsStackValid | include/jsonpp/parser.h:137-426 | add(string) keeps the destinations a valid chain |
| Parser.AddString | include/jsonpp/parser.h:137-426 | the loops of add(string) compute the specified update |
| Parser.ClassifyToken | include/jsonpp/parser.h:169-423 | the recogniser loop, keyword tests, quote skipping and decoding loop give the specified value |
| Parser.RunNext | include/jsonpp/parser.h:51-127 | each character is one turn of the scanning loop |
| Parser.ErrorIsFinal | include/jsonpp/parser.h:67-79 | a throw ends the parse, whatever characters follow |
| Parser.RunThenFeed | include/jsonpp/parser.h:51-127 | the rest of the text continues the scan from wherever it stopped |
| Parser.ParseTextFeeds | include/jsonpp/parser.h:51-132 | parse is the characters fed through the loop from the initial state, then the final flush |
| Parser.StepKeepsStackValid | include/jsonpp/parser.h:51-127 | every turn of the loop keeps the destinations a valid chain |
| Parser.RunKeepsStackValid | include/jsonpp/parser.h:51-127 | throughout the parse every destination is a value that exists in the result tree |
| Parser.OrdinaryUnitIsSaved | include/jsonpp/parser.h:92-124 | a unit that is neither quote nor backslash, and not structural outside strings, is saved and changes nothing else |
| Parser.FeedOrdinary | include/jsonpp/parser.h:92-124 | a run of such units only grows the literal by exactly those units |
| Parser.FeedInsideString | include/jsonpp/parser.h:57-124 | inside an open string every unit but its quote and the backslash, structural or not, is saved |
| Parser.FeedAppend | include/jsonpp/parser.h:51-127 | feeding two pieces one after the other is feeding them together |
| Parser.EscapedQuoteStaysOpen | include/jsonpp/parser.h:96-115 | a backslash then a double quote inside a double-quoted string keeps it open and saves both units |
| Parser.OtherQuoteIsText | include/jsonpp/parser.h:96-105 | the other kind of quote inside a string is saved and changes no flag |
| Parser.QuoteToggles | include/jsonpp/parser.h:96-119 | a quote with no escape pending and the other kind closed toggles its flag and is saved |
| Parser.CloseWithoutDestination | include/jsonpp/parser.h:63-81 | a closing bracket with no destination left is the "empty array" error (a bare rethrow in the earliest version) |
| Parser.FinishedDocumentIgnoresText | include/jsonpp/parser.h:51-139 | once the root is closed, anything but a closing bracket outside strings leaves the tree alone |
| Parser.BlankLiteralAddsNothing | include/jsonpp/parser.h:84-169 | an all-whitespace literal adds nothing, even at `:` |
| Parser.StructuralStep | include/jsonpp/parser.h:57-91 | the structural branches of the switch compute the specified update |
| Parser.Parse | include/jsonpp/parser.h:51-132 | the scanning loop followed by the final flush returns the specified parse result |
| Parser.ParseEarliest | include/JSON++.h:678-781 | the earliest scanning loop, with its 1024-unit literal buffer, returns the specified parse result, including the overrun error |
| EarlyValue.Copy | include/JSON++.h:194-198 | a copy has the tag, string and number of the original and no children |
| EarlyValue.CopyEqualsOriginal | include/JSON++.h:194-198 | a copy compares equal to its original exactly when the original has no children |
| EarlyValue.TruthyDiffersOnArrays | include/JSON++.h:212-231 | the earliest truth test is the later one except that every Array is false |
| EarlyValue.ConstKey | include/JSON++.h:324-329 | const key lookup returns a childless copy of a child with the key before which no child has the key, or a fresh Undefined when there is none |
| EarlyValue.ConstIndex | include/JSON++.h:346-350 | const index lookup returns a childless copy of the element, or a fresh Undefined out of range |
| EarlyValue.PushedCopy | include/JSON++.h:375-383 | push makes the value an Array (dropping other children), keeps string and number and appends a childless copy of the item |
| EarlyValue.PushedChildless | include/JSON++.h:375-383 | for an item without children the earliest push is the later push |
| EarlyValue.Early.CopyOf | include/JSON++.h:194-198 | the copy constructor builds the childless copy |
| EarlyValue.Early.Push | include/JSON++.h:375-383 | push updates the fields in place to the pushed-copy value |
| EarlyValue.QuoteEscaped | include/JSON++.h:403-417 | quote escaping never shortens the string |
| EarlyValue.QuoteEscapedReadsBack | include/JSON++.h:403-417 | dropping each backslash that precedes a double quote gives the original string back |
| EarlyValue.QuoteEscapedKeepsQuoteFree | include/JSON++.h:403-417 | a string without double quotes is written unchanged |
| EarlyValue.QuoteEscapedStep | include/JSON++.h:406-415 | one more unit adds a backslash and the quote for a double quote and the unit itself otherwise |
| EarlyValue.EscapeQuotes | include/JSON++.h:401-417 | the insertion loop over the copy of the string returns the quote-escaped string |
| EarlyValue.Serialize | include/JSON++.h:393-453 | serialize writes `null`, the number or bool text, the quote-escaped string in quotes, or the bracketed children with commas and unescaped `"key":` prefixes |
| ParserScenarios.TokenIsSaved | include/jsonpp/parser.h:92-124 | a well-formed token fed outside quotes is saved whole and leaves both quote flags and the escape window closed |
| ParserScenarios.QuoteOpened | include/jsonpp/parser.h:92-124 | whitespace, an opening quote and a body without that quote or a backslash leave the string open with everything saved |
| ParserScenarios.QuoteOpensHere | include/jsonpp/parser.h:96-124 | an opening quote and such a body set exactly that quote's flag and save both |
| ParserScenarios.QuotedTrims | include/jsonpp/parser.h:143-167 | a quoted token with whitespace around it trims to the quotes and body |
| ParserScenarios.QuotedClassifies | include/jsonpp/parser.h:169-423 | a quoted token classifies as the String of its body |
| ParserScenarios.TokenClassifies | include/jsonpp/parser.h:137-423 | a well-formed token is not blank and classifies as the token's value |
| ParserScenarios.StepFlush | include/jsonpp/parser.h:63-91 | a separator or closing bracket flushes the pending literal and a closing bracket then pops, failing with "empty array" when nothing is left |
| ParserScenarios.FlushToken | include/jsonpp/parser.h:63-91 | after a saved token, a separator or closing bracket adds the token's value |
| ParserScenarios.OpenRoot | include/jsonpp/parser.h:57-74 | the first `{` or `[` turns the Undefined root into an empty container that stays the destination |
| ParserScenarios.CloseEmpty | include/jsonpp/parser.h:63-81 | a closing bracket with nothing pending pops the top destination |
| ParserScenarios.FeedUnit | include/jsonpp/parser.h:51-127 | feeding one unit is one turn of the loop |
| ParserScenarios.AddKey | include/jsonpp/parser.h:448-450 | a key on a fresh Object root creates the member holding Undefined and makes it the top |
| ParserScenarios.AddMemberValue | include/jsonpp/parser.h:436-447 | a scalar replaces the member's Undefined value and pops back to the Object |
| ParserScenarios.AddElement | include/jsonpp/parser.h:451-454 | a scalar on an Array root is appended and the Array stays the top |
| ParserScenarios.KeyRead | include/jsonpp/parser.h:57-86 | `{key:` leaves the key's member, holding Undefined, as the top destination |
| ParserScenarios.MemberValueRead | include/jsonpp/parser.h:63-69 | a value token and `}` then complete the member and close the Object |
| ParserScenarios.OneMember | include/jsonpp/parser.h:51-132 | `{key:value}` parses to an Object with one member keyed by the key's text |
| ParserScenarios.OpenQuoteClassifies | include/jsonpp/parser.h:143-303 | the literal of a string left open is already trimmed and classifies as the String of its body |
| ParserScenarios.FinishOpenQuote | include/jsonpp/parser.h:130 | the final flush adds a literal still inside its quotes as a String |
| ParserScenarios.KeyOpened | include/jsonpp/parser.h:57-124 | `{` and an unclosed quoted key leave that string open |
| ParserScenarios.TruncatedKey | include/jsonpp/parser.h:130 | `{` and a key cut off inside its quotes parse to an Object whose member is Undefined |
| ParserScenarios.ValueOpened | include/jsonpp/parser.h:82-124 | after `{key:` an unclosed quoted value leaves that string open |
| ParserScenarios.TruncatedValue | include/jsonpp/parser.h:130 | `{key:` and a value cut off inside its quotes give the member the String read so far |
| ParserScenarios.FeedAfterEnd | include/jsonpp/parser.h:51-139 | once the root is closed, text without closing brackets leaves the tree as it is |
| ParserScenarios.TrailingTextIgnored | include/jsonpp/parser.h:51-132 | a closed document followed by text without closing brackets parses to that document |
| ParserScenarios.FirstElement | include/jsonpp/parser.h:70-91 | `[first,` leaves an Array holding the first value as the only destination |
| ParserScenarios.SecondElement | include/jsonpp/parser.h:75-81 | `second]` then appends the second value and closes the Array |
| ParserScenarios.TwoElements | include/jsonpp/parser.h:51-132 | `[first,second]` parses to an Array of the two values |
| ParserScenarios.BareText | include/jsonpp/parser.h:92-167 | unquoted text is saved whole and trims to the word inside the whitespace |
| ParserScenarios.BareWord | include/jsonpp/parser.h:252-423 | unquoted text that is neither a number nor a keyword is the String of the trimmed text |
| ParserScenarios.LetterWord | include/jsonpp/parser.h:184-193 | a word whose first unit is neither `-` nor a digit is never a number |
| ParserScenarios.EmptyObject | src/main.cpp:41-43 | `{}` parses to an empty Object |
| ParserScenarios.IntValue | src/main.cpp:53-55 | `{ "v":1}` parses to the member v holding the number read from `1` |
| ParserScenarios.NullValue | src/main.cpp:113-116 | `{ "a":null}` parses to the member a holding Null |
| ParserScenarios.TrueValue | src/main.cpp:118-121 | `{ "a":true}` parses to the member a holding true |
| ParserScenarios.UntrimmedKeyword | src/main.cpp:123-126 | `{ "a" : false }` parses to the member a holding false |
| ParserScenarios.TruncatedValueInput | src/main.cpp:133-136 | `{'X':'s` parses to the member X holding the String `s` |
| ParserScenarios.TruncatedKeyInput | src/main.cpp:138-141 | `{'X` parses to the member X holding Undefined |
| ParserScenarios.DoubleQuoteInSingleQuotes | src/main.cpp:145-148 | `{ "v":'ab"c'}` keeps the double quote in the String |
| ParserScenarios.UnquotedValue | src/main.cpp:150-153 | `{ "v":str}` parses to the String `str` |
| ParserScenarios.UnquotedElements | src/main.cpp:165-169 | `[ a,bc]` parses to the Array of the Strings `a` and `bc` |
| ParserScenarios.UnquotedValueWithSpace | src/main.cpp:171-174 | `{ "v":s1 s2}` keeps the inner space of the String |
| ParserScenarios.TrailingCommentInput | src/main.cpp:181-184 | `{ "a":"foo.bar"}#toto` ignores the text after the closed Object |
| ParserScenarios.SingleQuotedMember | src/main.cpp:186-189 | `{ 'value':'string'}` reads single-quoted key and value |
| ParserScenarios.NumberLikeValue | src/main.cpp:191-194 | `{v:15-55}` reads the unquoted key, and the value that only starts like a number is a String |
| ParserScenarios.FeedEscapedBody | include/jsonpp/parser.h:96-124 | inside double quotes, text made of backslash pairs and units other than `"` is saved unit by unit and the string stays open |
| ParserScenarios.EscapingIsSaved | include/jsonpp/parser.h:51-127 | a double-quoted escaped token is saved whole and leaves both quote flags and the escape counter as they were |
| ParserScenarios.EscapingClassifies | include/jsonpp/parser.h:296-421 | a double-quoted token is already trimmed and classifies as the String of its decoded body |
| ParserScenarios.QuotedNumberValue | src/main.cpp:45-47 | `{ "v":"1"}` parses to the member v holding the String `1` |
| RoundTrip.EscapedIsEscapedBody | include/jsonpp/unicode.h:73-173 | for bytes, the escaper writes only backslash pairs and units other than `"`, so the scanner keeps its output inside the quotes |
| RoundTrip.EscapedToken | include/jsonpp/value.h:586-590 | the quoted escape of a byte string is a well-formed token that parses back to that String |
| RoundTrip.EmptyObjectRoundTrip | src/main.cpp:20-28 | the compact serialization of an empty Object parses back to it |
| RoundTrip.StringMemberRoundTrip | src/main.cpp:20-28 | the compact serialization of any Object of one String member (key and text bytes) parses back to it |
| RoundTrip.StringPairRoundTrip | src/main.cpp:20-28 | the compact serialization of any Array of two Strings (bytes) parses back to it |
| RoundTrip.EmptyObjectInputRoundTrips | src/main.cpp:41-43 | `{}` parses as expected and survives the round trip |
| RoundTrip.QuotedNumberInputRoundTrips | src/main.cpp:45-47 | `{ "v":"1"}` parses as expected and survives the round trip |
| RoundTrip.UnquotedInputRoundTrips | src/main.cpp:150-153 | `{ "v":str}` parses as expected and survives the round trip |
| RoundTrip.UnquotedElementsInputRoundTrips | src/main.cpp:165-169 | `[ a,bc]` parses as expected and survives the round trip |
| RoundTrip.SingleQuotedInputRoundTrips | src/main.cpp:186-189 | `{ 'value':'string'}` parses as expected and survives the round trip |

## Left out

- Number conversions: number-to-text and text-to-number (`long double`, stringstream, `strtold`) are the parameter `NumberText`. The hexadecimal read of a `\u` window that is not four hex digits is left to that parameter as well. Floating-point arithmetic and the numeric `+=` are not modelled.
- `json::string` and its pointer equality, `CopyOnWrite` and `DefaultCopyBehaviour` (shared ownership): `basic_var` is modelled with plain value semantics. In `json::var` itself, value.h compares `json::string` objects in `operator==` (include/jsonpp/value.h:450) and in the key search `findKey` (include/jsonpp/value.h:64-67); `JsonValue` compares strings and keys by their content there.
- JSON++.h's vector relocation and the copies made when values are returned: the childless copy constructor is modelled where it is called explicitly (`EarlyValue.Copy`, `EarlyValue.Early.Push`), but not every implicit copy.
- The parser's raw-pointer destination stack is modelled as index paths into the tree. Pointers left dangling when a vector reallocates are therefore not modelled.
- istream constructors, `Debug` output to stderr, `operator<<` and all other I/O.
- Integer index conversion: every integer overload of `operator[]` casts its argument to `unsigned int`, the index type of include/jsonpp/value.h:389. A negative `int` index therefore becomes a huge one, and `index + 1` wraps at the top of `unsigned int`. The model's index is a `nat`.
- `operator[](var)`, the `reinterpret_cast` byte views of base64, `front`/`back`/`size`, the compile-time `register_*` dispatch, the random generator, and the aliasing that arises when a value is merged into itself.
- The identity of the static Undefined sentinel returned by const access: the model returns an Undefined value.
- include/json++/value.h is not part of this model. The earlier parser version is modelled over the same value tree.
- A token that is a single quote character: both quote skips apply to it, so `end` ends up before `start`. The current and earlier parsers then call `reserve(end - start)` with a negative length (include/jsonpp/parser.h:303, include/json++/parser.h:286), and JSON++.h builds `std::string(start, end)` from the reversed range (include/JSON++.h:641). The model returns `LengthError` for it in every version.
- Parser.Parse: requires a version other than `Earliest`. `Parser.ParseEarliest` models that version with its fixed 1024-unit buffer, and an overrun is the error `LiteralOverrun`.
- Unicode.Utf8Decode: requires that the escaper terminates (`EscapeTerminates`). A lead unit of 0xFC or more never advances the source loop.
- Base64.DecodeRaw: when the zero-filled unpadded tail decodes to fewer bytes than the tail length, the source reads past the decoded vector. The model returns `Err(TailOverread)` there.
- The test driver's round trip for values that hold numbers is not a lemma, because serialized numbers depend on the abstract number-to-text conversion. The number-free shapes are proved in module `RoundTrip`.
- These driver inputs are not stated as lemmas: the `\r\n` input, `ab'c`, `3.141E-10`, `3.141e-10`, `12345123456789`, the 27-digit integer, `[ 1,2,3,4]`, the array of four Strings, the nested empty containers, the two Unicode inputs, `hp://foo`, `1.7976931348623157E308`, `It's'Work`, `1234`, the tab-separated value, `15%`, `15.06%`, `aap\\` and the three splice arrays. The steps they exercise are covered by the general step lemmas.
- Helper specification functions whose contracts state only lengths or bounds serve the proofs and have no row above. The reference definitions have no contract of their own and no row either: `Parser.Step`, `Parser.Run`, `Parser.Finish`, `Parser.ParseText`, `Parser.Structural`, `Literal.Unescape`, `Literal.KeywordSwitch`, `Unicode.Escaped`, `Serializer.Serialized`, `Serializer.DigitsValue`, `JsonValue.Equals`, `JsonValue.Truthy` and `JsonValue.Merge`. The method and lemma rows above are stated against them.
