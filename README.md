# Rison codec (go-rison) in Dafny

This project models the core of the `rison` Go package. Rison is a compact,
URI-friendly variation of JSON. The model has three parts.

- **Lexical definitions** (`lexical.dfy`). These are the reserved identifier bytes
  `notIDChar`, the start set `notIDStart`, the parser whitespace, and the three
  modes `Rison`, `ORison` and `ARison`.
- **Decoder.**
  - `decoder_spec.dfy` gives the meaning of each parsing routine as a function of
    the input and the cursor. Each function returns the value read and the cursor
    after it, or the error reported.
  - `decoding.dfy` holds the `Parser` class. It runs the same routines on a mutable
    `index` field, and each method is proved to agree with its function.
  - `diagnostics.dfy` models `substr` and `error`: the reported offset, the clamped
    five-byte context windows, and the choice of phrase.
  - `numbers.dfy` models the JSON number syntax (section 6 of RFC 8259) that
    `json.Unmarshal` enforces. It does this with a scanner proved equal to the RFC
    grammar.
- **Encoder.**
  - `encoder_spec.dfy` gives, as functions of the value, the text each routine
    appends and the failure it reports.
  - `encoding.dfy` holds the `Encoder` class. Its methods append to a `buffer` field
    and are proved to append exactly that text.
  - `keyorder.dfy` models the key order of `encodeMap`.

`values.dfy` holds the value tree, which stands in for the decoded JSON and
`reflect.Value`. The value kinds are null, booleans, numbers (kept as their text),
strings, arrays, maps, and kinds that have no Rison form. A map key is either a
string or a non-string key.

`roundtrip.dfy` proves the codec's central promise. For every supported value, the
decoder reads the encoder's output back as the same value. This holds in Rison mode,
in O-Rison mode through the implicit `(`…`)`, and in A-Rison mode through the
implicit `!(`…`)`.

`findings.dfy` models one defect of the quoted-string loop exactly as it is written.
`cases.dfy` pins down concrete inputs and their outcomes.

Bytes are `char`s below 256 (`Lexical.byte`), and text is a sequence of them.

## Model

| member | source | states |
|---|---|---|
| Lexical.NotIdCharSet | rison.go:14 | a byte is reserved exactly when it is one of ` '!:(),*@$`, the bytes of `notIDChar` (and of the decoder's `NOT_IDCHAR`) |
| Lexical.NotIdStartSet | rison.go:15 | a byte may not begin an identifier exactly when it is reserved, a digit or `-` |
| Lexical.WhitespaceSet | rison.go:16 | the parser's whitespace is exactly space, tab, LF, CR and FF |
| Lexical.ModeValuesAreExactlyThree | rison.go:20-29 | the modes are numbered 0, 1, 2 (`Rison`, `ORison`, `ARison`), a bijection with no gap or repeat |
| Diagnostics.Substr | decoder.go:41-55 | the window is empty for an empty input; otherwise its length is the count of positions `o .. o+n-1` inside the input, and its k-th byte is the input byte at `max(o,0)+k` |
| Diagnostics.Error | decoder.go:57-61 | the error has the given kind, at the offset itself when it is non-negative, else relative to the cursor, and that position names a byte of the input (or 0 for an empty input) |
| Diagnostics.LocusByPosition | decoder.go:62-72 | the phrase is "first character" exactly at offset 0, "last character" exactly at the last byte, "near" exactly in between; "end of string" is never chosen for a reported offset |
| Diagnostics.LocusWindows | decoder.go:62-72 | for any offset of a byte of the input (offset 0 included): the phrase is never "end of string", the quoted byte is `[s[o]]`, every phrase but "first character" quotes `s[max(o-5,0)..o]` before it, and every phrase but "last character" quotes `s[o+1..min(o+6,len)]` after it |
| Numbers.ScannerMatchesGrammar | decoder.go:299-303 | the number check accepts exactly the texts derived by `[ minus ] int [ frac ] [ exp ]` of section 6 of RFC 8259 |
| DecoderSpec.Next | decoder.go:307-317 | a byte returned is the one just before the new cursor, and it is not whitespace when skipping |
| DecoderSpec.NextSkipsOnlyWhitespace | decoder.go:307-317 | without skipping `next` returns the very next byte; it passes over only skipped whitespace; it runs out exactly when the rest is skipped whitespace |
| DecoderSpec.IdentifierEnd | decoder.go:106-116 | the identifier run ends at a reserved byte or at the end of the input |
| DecoderSpec.IdentifierRun | decoder.go:13 | no byte inside the identifier run is reserved |
| DecoderSpec.ReadValue | decoder.go:89-119 | a value read advances the cursor within the input; an error is reported at a position of the input |
| DecoderSpec.ValueAt | decoder.go:95-118 | the dispatch on the first byte consumes bytes within the input, and its errors lie in the input |
| DecoderSpec.ParseSpecial | decoder.go:121-139 | after `!` the cursor advances within the input; errors lie in the input |
| DecoderSpec.ParseArray | decoder.go:141-167 | a success is an array ending within the input; errors lie in the input |
| DecoderSpec.ArraySeparator | decoder.go:151-157 | for every input: after an element, a byte other than `,` or `)` is a missing `,` at that byte; a `,` before the first element is an extra `,` at that byte |
| DecoderSpec.ArrayTrailingComma | decoder.go:151-163 | after an element, `,` followed by `)` is rejected as an invalid character `)` at the `)`: a trailing comma always fails |
| DecoderSpec.ParseObject | decoder.go:169-206 | a success is an object ending within the input; errors lie in the input |
| DecoderSpec.ObjectSeparator | decoder.go:179-185 | the same separator rules for the members of an object |
| DecoderSpec.ObjectTrailingComma | decoder.go:179-191 | after a member, `,` followed by `)` is rejected as an invalid character `)` at the `)`: a trailing comma always fails |
| DecoderSpec.ObjectMember | decoder.go:188-203 | a member read ends within the input; errors (non-string key, missing `:`) lie in the input |
| DecoderSpec.ParseQuotedString | decoder.go:208-241 | a success is a string ending after the closing quote; errors lie in the input |
| DecoderSpec.QuotedLoop | decoder.go:213-238 | the loop's result is a string ending within the input, or an error in the input, including the missing byte after a final `!` |
| DecoderSpec.ScanNumber | decoder.go:252-292 | the number scanner stops within the input |
| DecoderSpec.ScanNumberBytes | decoder.go:258-292 | the scanner consumes only digits, `-`, `.` and `e` |
| DecoderSpec.ParseNumber | decoder.go:252-305 | a number read is exactly the text consumed, starting at its first byte |
| DecoderSpec.NumberReadIsRison | decoder.go:293-304 | the text read is a JSON number with no `+` and no `E`, and ends where the scanner stopped |
| DecoderSpec.Parse | decoder.go:76-87 | every error reported by `parse` lies in the input (or is 0 for an empty one) |
| Decoding.MatchIdentifier | decoder.go:111-116 | the identifier pattern fails exactly at the end of the input or on a byte that may not begin an identifier, and otherwise matches up to the end of the identifier run |
| Decoding.Parser.constructor | decoder.go:19-23 | a fresh parser does not skip whitespace and is at position 0 |
| Decoding.Parser.Next | decoder.go:308-317 | `next` returns the byte and moves the cursor as `DecoderSpec.Next` says, and leaves the cursor at the end when it runs out |
| Decoding.Parser.ReadValue | decoder.go:89-119 | the result and the new cursor are those of `DecoderSpec.ReadValue` |
| Decoding.Parser.ValueAt | decoder.go:95-118 | the dispatch and the identifier branch agree with `DecoderSpec.ValueAt` |
| Decoding.Parser.ParseSpecial | decoder.go:121-139 | the result and cursor are those of `DecoderSpec.ParseSpecial` |
| Decoding.Parser.ParseArray | decoder.go:141-167 | the loop's result and cursor are those of `DecoderSpec.ParseArray` from an empty list |
| Decoding.Parser.ArrayStep | decoder.go:144-164 | one loop body either finishes with the array result or advances the cursor while leaving the rest of the parse unchanged |
| Decoding.Parser.ParseObject | decoder.go:169-206 | the loop's result and cursor are those of `DecoderSpec.ParseObject` from an empty map |
| Decoding.Parser.ObjectStep | decoder.go:172-203 | one loop body either finishes with the object result or advances the cursor while leaving the rest of the parse unchanged |
| Decoding.Parser.ReadMember | decoder.go:188-203 | reads `key:value` exactly as `DecoderSpec.ObjectMember` and leaves the cursor after it |
| Decoding.Parser.ParseQuotedString | decoder.go:208-241 | the unescaping loop's result and cursor are those of `DecoderSpec.ParseQuotedString` |
| Decoding.Parser.ParseNumber | decoder.go:252-305 | the state-machine loop's result and cursor are those of `DecoderSpec.ParseNumber` |
| Decoding.Parser.Parse | decoder.go:76-87 | the result is `DecoderSpec.Parse`, and a success has consumed the whole input |
| Decoding.Decode | decoder.go:25-27 | decoding is `parse` without whitespace skipping |
| Decoding.DecodeObject | decoder.go:29-33 | O-Rison decodes exactly as the input wrapped in `(`…`)` |
| Decoding.DecodeArray | decoder.go:35-39 | A-Rison decodes exactly as the input wrapped in `!(`…`)` |
| KeyOrder.ByteLessTotal | encoder.go:190 | Go's string `<` is irreflexive, asymmetric and total on distinct strings |
| KeyOrder.ByteLessTransitive | encoder.go:190 | Go's string `<` is transitive |
| KeyOrder.KeyLessOrder | encoder.go:175-191 | the key order extends the comparator given to `sort.Slice` (equal to it whenever a string key is involved) and is a strict total order |
| KeyOrder.LeastExists | encoder.go:175-191 | every non-empty key set has exactly one least key |
| KeyOrder.Least | encoder.go:175-191 | the chosen key is the least of the set |
| KeyOrder.SortedIsAscendingPermutation | encoder.go:174-191 | the sorted keys are exactly the map's keys, each once, in strictly ascending order |
| KeyOrder.AscendingIsUnique | encoder.go:174-191 | any ascending listing of the keys is the sorted one, so the output does not depend on how the map was built |
| KeyOrder.SortKeys | encoder.go:174-191 | the keys are produced in sorted order |
| EncoderSpec.EscapeByte | encoder.go:133-137 | a byte inside quotes is written alone or with one `!` in front |
| EncoderSpec.Escape | encoder.go:132-138 | the escaped text is at least as long as the string and at most twice as long: at most one `!` is added per byte |
| EncoderSpec.EscapeKeepsBytes | encoder.go:132-138 | escaping keeps every byte: taking out, from the left, each `!` that stands before a `'` or a `!` gives the string back |
| EncoderSpec.EscapeSnoc | encoder.go:132-138 | escaping one more byte appends that byte's escape, the order the loop writes in |
| EncoderSpec.EscapeHasNoQuote | encoder.go:134-136 | every `'` in escaped text comes right after a `!`, so none can close the quotes |
| EncoderSpec.StringText | encoder.go:126-140 | an identifier is written as is; any other string as `'`, its escaped bytes, `'` |
| EncoderSpec.RemovePlus | encoder.go:167 | removing `+` never lengthens the number text |
| EncoderSpec.RemovePlusSpec | encoder.go:167 | no `+` is left, text without `+` is unchanged, and a second removal changes nothing |
| EncoderSpec.DecimalValue | encoder.go:215 | the `%d` of an index is a run of digits, without a leading zero, that stands for the index |
| EncoderSpec.ShownPath | encoder.go:263-265 | the path shown in a failure is never empty (the root is `.`) |
| EncoderSpec.Wrap | encoder.go:259-270 | wrapping a failure keeps the text written and keeps whether it failed |
| EncoderSpec.CheckKindMatchesMode | encoder.go:40-52 | the check passes exactly when O-Rison gets a map and A-Rison gets a slice or array (Rison takes anything) |
| EncoderSpec.ConvertRisonToMode | encoder.go:54-69 | Rison output is unchanged; a successful O-Rison or A-Rison result is the output with its outer `(`…`)` or `!(`…`)` removed, and is not empty |
| Encoding.IdOk | encoder.go:102-116 | the loop answers exactly: non-empty, first byte may begin an identifier, no later byte reserved |
| Encoding.KeyString | encoder.go:119-125 | a key yields its string exactly when it is a string key |
| Encoding.Encoder.constructor | encoder.go:71-72 | a new encoder has the requested mode and an empty buffer |
| Encoding.Encoder.WriteString | encoder.go:118-141 | a string is appended as `StringText`; a non-string writes nothing and reports false |
| Encoding.Encoder.WriteQuoted | encoder.go:130-140 | appends `'`, the escaped bytes, `'` |
| Encoding.Encoder.EncodeBool | encoder.go:143-157 | appends `!t` or `!f` |
| Encoding.Encoder.EncodeNumber | encoder.go:159-170 | appends the number text without its `+` signs |
| Encoding.Encoder.EncodeMap | encoder.go:172-207 | appends `EncoderSpec.EncodeMap`: `(`, `key:value` for the keys in ascending order joined by `,`, `)`; stops at the first failure and reports it |
| Encoding.Encoder.WritePair | encoder.go:192-204 | one loop body appends the separator, key, `:` and value, and either stops with the failure or leaves the rest to the next keys |
| Encoding.Encoder.EncodeArray | encoder.go:209-222 | appends `EncoderSpec.EncodeArray`: `!(`, the elements in order joined by `,`, `)`; stops at the first failure |
| Encoding.Encoder.EncodeValue | encoder.go:224-271 | appends the value's text by its kind and reports the failure, named with its kind and path |
| Encoding.Encoder.Encode | encoder.go:71-100 | the result is the mode check, then `!n` for null, then the value's text with the mode's delimiters removed; the buffer is released on success |
| Encoding.Marshal | encoder.go:16-33 | encoding with a fresh encoder gives `EncoderSpec.Encode` |
| RoundTrip.EncodableIff | encoder.go:224-271 | encoding fails exactly when the value holds a kind without a Rison form or a map key that is not a string |
| RoundTrip.PairsEncodableIff | encoder.go:192-204 | the member loop succeeds exactly when all remaining keys are strings with encodable values |
| RoundTrip.ElementsEncodableIff | encoder.go:211-219 | the element loop succeeds exactly when all remaining elements are encodable |
| RoundTrip.IdentifierReadsBack | decoder.go:106-116 | an identifier written bare and followed by a delimiter is read back as the same string, consuming exactly it |
| RoundTrip.QuotedLoopIsEscaped | decoder.go:213-238 | for any input: as long as the bytes scanned are the escape of what the loop collected plus the pending plain bytes, a string the loop returns is exactly the unescaping of the bytes up to a closing `'` |
| RoundTrip.QuotedStringIsEscaped | decoder.go:208-241 | every string `parseQuotedString` accepts, on any input, is the one whose escape lies between the quotes, so `!` followed by anything but `!` or `'` is never accepted |
| RoundTrip.QuotedStringReadsBack | decoder.go:208-241 | the escaped text followed by `'` is read back as the original string, ending after the quote |
| RoundTrip.StringReadsBack | encoder.go:118-141 | whatever `writeString` writes for `x` is read back as `x`, consuming exactly it |
| RoundTrip.NumberParses | decoder.go:252-305 | a Rison number followed by a delimiter is scanned to its end and accepted as the same text |
| RoundTrip.ValueReadsBack | decoder.go:89-119 | the text of any supported value, followed by a delimiter, is read back as that value and consumed exactly |
| RoundTrip.ArrayReadsBack | decoder.go:141-167 | the text `encodeArray` writes reads back as the same array |
| RoundTrip.ElementsReadBack | decoder.go:143-165 | the loop of `parseArray` over the remaining element texts ends with the whole array after its `)` |
| RoundTrip.ElementTurn | decoder.go:143-165 | one turn reads exactly the next element's text and moves to the next element |
| RoundTrip.ObjectReadsBack | decoder.go:169-206 | the text `encodeMap` writes reads back as the same map |
| RoundTrip.PairsReadBack | decoder.go:171-204 | the loop of `parseObject` over the remaining member texts ends with the whole map after its `)` |
| RoundTrip.PairTurn | decoder.go:171-204 | one turn reads exactly the next `key:value` and adds that member |
| RoundTrip.MemberReadsBack | decoder.go:188-203 | a written `key:value` reads back as the key's string and the member's value |
| RoundTrip.ArrayText | encoder.go:209-222 | the array's text is `!(`, the elements' texts, `)` |
| RoundTrip.ObjectText | encoder.go:172-207 | the map's text is `(`, the members' texts in key order, `)` |
| RoundTrip.DecodeText | decoder.go:76-87 | `parse` of the text of a supported value gives the value back |
| RoundTrip.RisonRoundTrip | encoder.go:71-100 | a supported value encodes in Rison mode, and decoding the result gives the value back |
| RoundTrip.ObjectTextSize | encoder.go:172-207 | a map's text is `(`…`)`, and is exactly `()` when the map is empty |
| RoundTrip.ArrayTextSize | encoder.go:209-222 | an array's text is `!(`…`)`, and is exactly `!()` when the array is empty |
| RoundTrip.ORisonRoundTrip | encoder.go:54-61 | O-Rison succeeds exactly for non-empty maps, and the result decodes back once wrapped in `(`…`)` |
| RoundTrip.ORisonObject | encoder.go:54-61 | for a map, O-Rison succeeds exactly when it is non-empty, and the result wrapped in `(`…`)` is the Rison text |
| RoundTrip.ARisonRoundTrip | encoder.go:62-66 | A-Rison succeeds exactly for non-empty arrays, and the result decodes back once wrapped in `!(`…`)` |
| RoundTrip.ARisonArray | encoder.go:62-66 | for an array, A-Rison succeeds exactly when it is non-empty, and the result wrapped in `!(`…`)` is the Rison text |
| Findings.AsWrittenAgrees | decoder.go:222-233 | the loop as written returns what the corrected loop returns, and reads past the end exactly where the corrected loop reports the missing byte after `!` |
| Findings.LoneBangAtEnd | decoder.go:226 | on `'a!` the loop as written indexes byte 3 of a 3-byte input; the corrected decoder reports the missing byte at the opening quote |
| Cases.EscapeQuote | encoder.go:132-138 | `can't` escapes to `can!'t` |
| Cases.QuoteIsQuoted | encoder.go:126-140 | `can't` is not an identifier and is written `'can!'t'` |
| Cases.QuotedEscape | encoder.go:126-140 | the string `can't` encodes to `'can!'t'` |
| Cases.QuotedDecodes | decoder.go:208-241 | `'can!'t'` decodes to the string `can't` |
| Cases.LeadingMinus | encoder.go:126-140 | `-ing` must be quoted: it encodes to `'-ing'` |
| Cases.OneMember | encoder.go:54-61 | the map `{a: b}` encodes in O-Rison to `a:b` |
| Cases.IdentifierClasses | encoder.go:102-116 | `a-z` is an identifier; `0a`, `-h` and the empty string are not |
| Cases.NumberThenWord | decoder.go:83-85 | `4abc` is rejected with an extra `a` after the value, at position 0 |
| Cases.PlusInExponent | decoder.go:299-303 | `1.5e+2` is rejected |
| Cases.DoubleMinus | decoder.go:299-303 | `--1` is rejected |
| Cases.ExtraParenthesis | decoder.go:83-85 | `())` is rejected with an extra `)` after the value, at position 0 |
| Cases.LeadingComma | decoder.go:183-184 | `(,)` is rejected with an extra `,` at position 1 |
| Cases.UnterminatedQuote | decoder.go:214-216 | `'abc` is rejected as an unmatched `'` at position 0 |
| Cases.BangAlone | decoder.go:123-125 | `!` alone is rejected at position 0 |
| Cases.BangUnknown | decoder.go:138 | `!z` is an unknown literal at position 1 |
| Cases.EmptyInput | decoder.go:90-93 | the empty input is an empty expression at position 0 |
| Cases.Literals | decoder.go:128-137 | `!t`, `!f`, `!n` and `!()` decode to true, false, null and the empty array |
| Cases.BadEscape | decoder.go:228-232 | `'a!b'` is an invalid escape `!b`, reported at the opening quote |
| Cases.TrailingComma | decoder.go:151-163 | `!(1,)` is rejected |
| Cases.MissingCommaInArray | decoder.go:151-154 | `!(a b)` is a missing `,` at the space |
| Cases.KeyMustBeString | decoder.go:192-195 | `(1:2)` is rejected because the key is a number |
| Cases.ColonAfterKey | decoder.go:196-198 | `(a,b)` is a missing `:` after the key |
| Cases.UnmatchedArray | decoder.go:145-147 | `!(a` is an unmatched `!(` at position 0 |

## Left out

- `json.Marshal`, `json.Unmarshal` and `reflect` plumbing (encoder.go:16-33, 71-100). The encoder takes a value tree as its input.
  - A pointer or interface holding nil is `Null`, which is written `!n`. A non-nil one is its element.
  - `FromJSON`'s error on JSON text that does not parse is not modelled.
  - The `null` test (encoder.go:85) is modelled as "the value is `Null`".
    - That is exact for `Marshal`, whose `json.Marshal` writes `null` with no surrounding bytes.
    - `FromJSON` is given the caller's text. A `null` with surrounding whitespace (` null`, `null` followed by a newline) unmarshals to nil but is not byte-equal to `null`.
    - Go then reaches the `!vv.IsValid()` branch (encoder.go:88-89) and returns "invalid JSON". `EncoderSpec.Encode` gives `!n` there.
    - That branch is reachable only in this way, through `FromJSON`, and it is not modelled.
- Encoding.Marshal: the tree stands for what `json.Marshal` followed by `json.Unmarshal` produces, and it differs from Go for `Unsupported` values and non-string map keys.
  - `json.Marshal` (encoder.go:17-19) never lets those two through. It rejects channels, functions and complex numbers with its own error, turns integer map keys into strings, and writes a uintptr as a number.
  - For those inputs the model reports the `NonEncodable` or `invalid key` failure that `encodeValue` and `encodeMap` would give. Go reports `json.Marshal`'s error, or encodes the converted value.
  - In Go these failures are reached only by calling `encodeValue` directly on such a value.
- DecoderSpec.Parse: when a value is followed by extra bytes, `parse` returns the value together with the "extra character" error (decoder.go:84). The model returns only the error.
- Floating point. Numbers are kept as text.
  - The decoder accepts a number exactly when its text is a JSON number, the syntax `json.Unmarshal` checks.
  - The encoder writes the text it is given, with `+` removed.
- DecoderSpec.ParseNumber: accepts every JSON number text. `json.Unmarshal`'s failure on magnitudes beyond float64 range (for example `1e9999999999999999`) is not modelled.
- RoundTrip.RisonRoundTrip: numbers are compared as text.
  - It is stated for number texts without `+` and `E`, which is how Go prints a float64 after `encodeNumber` strips the `+`.
  - A text with `+` is read back without it, which is the same float.
- `reflect` values that cannot be interfaced are not modelled.
  - The "internal error" branches of `encodeBool`, `encodeNumber` and `encodeValue`'s string case cannot be reached from parsed JSON, so they are not modelled.
  - The kinds without a Rison form (struct, chan, func, complex, uintptr, unsafe pointer), which the `default` branch of `encodeValue` (encoder.go:255-256) rejects, are a single `Unsupported` value.
- Message text.
  - Errors are the kind with its arguments plus the reported offset. `Diagnostics.Describe` gives the phrase and context windows the message shows.
  - The `fmt` rendering is not reproduced.
  - The `%+v` of the failing value in encoder messages is not reproduced. The failure records the value's kind and path.
- The regular expression `nextId` (decoder.go:17) is modelled as an explicit byte scan, `Decoding.MatchIdentifier`.
- `sort.Slice` (encoder.go:175) is modelled as repeated selection of the least remaining key.
  - The comparator orders string keys among themselves and puts them before any non-string key.
  - Non-string keys, which JSON objects never produce, are ordered here by their printed form. The comparator leaves their order to the sort.
  - This order decides only which non-string key an `invalid key` failure names.
- `quote.go` (URI quoting) is not part of this model. It delegates to `net/url`.
- Skipping whitespace (`SkipWhitespaces`) is modelled as a flag, but every entry point leaves it off, as `Decode` does.
- Error offsets follow decoder.go as written.
  - `error(0, …)` reports position 0 whatever the cursor is, so "extra character after top-level value" and "unmatched" errors point at the first byte.
  - A later version of the library reports the cursor instead. This model keeps the shown code.

## Findings

| source | as written | input that shows it | evidently intended | confidence | as-written member | corrected member |
|---|---|---|---|---|---|---|
| decoder.go:226 | after a `!` inside quotes the next byte is read with no check that one is left | `'a!` (a quoted string ending in a lone `!`): the read indexes position 3 of a 3-byte input, a run-time panic | report a "missing character after `!`" error | high; not executed | Findings.QuotedLoopAsWritten, Findings.LoneBangAtEnd | DecoderSpec.QuotedLoop, with Findings.AsWrittenAgrees |
