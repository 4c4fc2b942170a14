# TytoDB core, modelled in Dafny

TytoDB is a small database server written in Rust. Clients send it commands as text. This
project models four of its pieces and proves properties of them.

- **Tokenizer.** The `lexer` driver of `main.rs` reads the trimmed input one character at a
  time. It pushes each character onto a buffer (the "dough") and runs the matchers over it.
  The matchers modelled exactly are keywords, operators and booleans, plus the splitting of
  group arguments at top-level commas. The matchers not modelled exactly are parameters
  (`Lexer.OtherMatchers`).
- **Typed values (`AlbaTypes`).** Type codes, column sizes, the conversions of
  `try_from_existing`, fixed-width padding, and the conversion of a token into a value.
  Fixed-width text is cut by its UTF-8 byte length and padded by its character count, as the
  code does. `PaddedAccentOverflows` and `AccentCutPanics` show the effect on non-ASCII text:
  the padded value overflows its column, and the cut can land inside a character.
- **Value index (`Indexing`).**
  - The index keeps one metadata record `(min, max, count)` per chunk, 18 bytes big-endian in
    the `.cimeta` file.
  - Each chunk holds 4096 slots `(key, offset)`, 16 bytes each, in the `.cindex` file.
  - `add`, `create_index_chunk`, `insert_index`, `remove_index` and the three `search` forms are
    methods of class `Indexing.Index`. Each is proved to perform a pure transition of module
    `IndexSpec`, and the lemmas about those transitions state what the index promises.
  - The code is modelled as written, with 64-bit and 16-bit wrap-around. The model keeps:
    - the new chunk's `max = arg + 4096`;
    - the insert at the post-increment count;
    - the `count < u16::MAX` acceptance test;
    - the misaligned read of `remove_index`;
    - the decrement of every candidate chunk's count.
  - Lemmas exhibit what these quirks do: `RemoveLosesNeighbour`, `AddLeavesSlotOneEmpty`,
    `AddWrapsAtTop`, `SpuriousZeroOffset` and `RemoveFromEmptyChunkCloses`.
- **Query results and the container scan (`query.rs`).**
  - The `Query` cursor is class `Queries.Query`. Its methods are proved against module
    `QuerySpec`.
  - `search` is proved against `ScanSpec.SearchResult`. It reads the data file window by window.
  - The window start advances by one row per window, as the code does, so rows are read again.
  - Each row's values are checked against the headers. The ordinals of matching rows are dealt
    into pages of 100.

Files:

| file | contents |
|---|---|
| `primitives.dfy` | integer widths and big-endian bytes |
| `errors.dfy` | `io::Error`, `Result`, `Option`, `gerr` |
| `strings.dfy` | Unicode whitespace trimming, ASCII case mapping, UTF-8 length and byte cuts, integer text |
| `sequences.dfy` | a generic filter |
| `alba_types.dfy` | `AlbaTypes` and `Token` |
| `lexer_functions.dfy` | the matchers |
| `lexer.dfy` | the driver |
| `index_format.dfy` | byte layouts |
| `index_keys.dfy` | `get_index` |
| `index_spec.dfy` | index transitions |
| `index_class.dfy` | the `Index` class |
| `query_spec.dfy` | `Query` transitions |
| `scan_spec.dfy` | `search` as functions |
| `query.dfy` | the `Query` class and `search` |

## Model

| member | source | states |
|---|---|---|
| `Errors.Gerr` | src/main.rs:154-156 | the generic error has kind Other and carries the given message |
| `Strings.Trim` | src/main.rs:24 | `str::trim` (Unicode White_Space): the result is no longer than the input and neither starts nor ends with whitespace |
| `Strings.LeadingBlanks` | src/main.rs:24 | the leading run removed by trimming is all whitespace and is followed by a non-whitespace character or the end |
| `Strings.TrailingBlanks` | src/main.rs:24 | the trailing run removed by trimming is all whitespace and is preceded by a non-whitespace character or the start |
| `Strings.TrimStart` | src/main.rs:24 | the result is a suffix of the input, what it drops is all whitespace, and it does not start with whitespace |
| `Strings.TrimEnd` | src/main.rs:24 | the result is a prefix of the input, what it drops is all whitespace, and it does not end with whitespace |
| `Strings.TrimEmptyIffBlank` | src/main.rs:46 | trimming leaves nothing exactly when the text is all whitespace (both directions) |
| `Strings.TrimOfTrimmed` | src/lexer_functions.rs:523-524 | text that neither starts nor ends with whitespace is its own trim |
| `Strings.Upper` | src/lexer_functions.rs:465 | upper-casing keeps the length, leaves no ASCII lower-case letter and changes each character at most in its ASCII case |
| `Strings.Lower` | src/lexer_functions.rs:218 | lower-casing keeps the length, leaves no ASCII upper-case letter and changes each character at most in its ASCII case |
| `Strings.EqIgnoreAsciiCase` | src/lexer_functions.rs:810-814 | two texts are equal ignoring ASCII case exactly when they have the same length and agree character by character up to ASCII case |
| `Strings.CaseMappingsAbsorb` | src/lexer_functions.rs:465-468 | upper-casing forgets an earlier lower- or upper-casing, and lower-casing forgets an upper-casing |
| `Strings.Utf8Len` | src/lexer_functions.rs:330 | the UTF-8 length is between one and four bytes per character |
| `Strings.Utf8LenConcat` | src/lexer_functions.rs:330 | the UTF-8 length of a concatenation is the sum of the lengths |
| `Strings.Utf8LenAscii` | src/lexer_functions.rs:330 | the UTF-8 length equals the character count exactly when every character is ASCII |
| `Strings.Utf8LenSpaces` | src/lexer_functions.rs:334 | spaces are one byte each |
| `Strings.Utf8LenOne` | src/lexer_functions.rs:235 | a string's `len()` is 1 exactly when it is one ASCII character |
| `Strings.ByteCut` | src/lexer_functions.rs:331 | a cut at byte n, when it exists, is a prefix of the text that is exactly n bytes long |
| `Strings.ByteCutMisses` | src/lexer_functions.rs:331 | a cut fails only when no prefix of the text is exactly n bytes long, where `&s[..n]` panics |
| `Strings.DigitsRoundTrip` | src/lexer_functions.rs:136 | the decimal digits of a natural number read back as that number |
| `Strings.IntToString` | src/lexer_functions.rs:136-137 | the text of an integer is a minus sign exactly for negative integers, followed by at least one decimal digit and nothing else |
| `Strings.ParseInt` | src/lexer_functions.rs:168 | a parsed value lies in the type's range and comes from non-empty text that ends in a digit, has only digits after its first character, and starts with `-` when the value is negative |
| `Strings.IntTextRoundTrip` | src/lexer_functions.rs:167-168 | parsing the `to_string` text of an integer within the target range gives the integer back |
| `Primitives.FromToBigEndian` | src/indexing.rs:120 | decoding the n-byte big-endian encoding of a value below 256^n gives the value |
| `Primitives.ToFromBigEndian` | src/indexing.rs:82-84 | encoding the value of any byte string at its own width gives the bytes back |
| `Primitives.AsU64` | src/query.rs:294 | `as u64` keeps the value modulo 2^64: values in range are unchanged and negative values in range gain 2^64 |
| `Primitives.WrappingDecrement` | src/indexing.rs:192 | `-= 1` on a u16 subtracts one, and wraps 0 to u16::MAX as a release build does |
| `Primitives.U64ToBytes` | src/indexing.rs:133-134 | `to_be_bytes` gives 8 bytes whose big-endian value is the number |
| `Primitives.U64FromBytes` | src/indexing.rs:82-83 | `from_be_bytes` inverts `to_be_bytes`: encoding the decoded value gives the 8 bytes back |
| `Primitives.U16ToBytes` | src/indexing.rs:151 | `to_be_bytes` gives 2 bytes whose big-endian value is the number |
| `Primitives.U16FromBytes` | src/indexing.rs:84 | `from_be_bytes` inverts `to_be_bytes`: encoding the decoded value gives the 2 bytes back |
| `Primitives.U64BytesRoundTrip` | src/indexing.rs:133-134 | `u64::from_be_bytes(x.to_be_bytes()) == x` |
| `Primitives.U16BytesRoundTrip` | src/indexing.rs:84 | `u16::from_be_bytes(x.to_be_bytes()) == x` |
| `AlbaTypes.GetId` | src/lexer_functions.rs:82-102 | the code is at most 16 and is 0 exactly for NONE |
| `AlbaTypes.FromId` | src/lexer_functions.rs:57-81 | decoding succeeds exactly for codes up to 16, yields a value whose code is the input, and otherwise fails with InvalidData |
| `AlbaTypes.FromIdOfGetId` | src/lexer_functions.rs:57-102 | decoding the code of any value succeeds and gives a value of the same variant |
| `AlbaTypes.StringWidth` | src/lexer_functions.rs:246-265 | the fixed string widths lie between 10 and 3000 |
| `AlbaTypes.BytesWidth` | src/lexer_functions.rs:266-285 | the fixed byte widths lie between 10 and 1,000,000 |
| `AlbaTypes.Size` | src/lexer_functions.rs:289-309 | NONE has size 0, every other non-Text type a positive size, and fixed strings and bytes their width plus a `usize` |
| `AlbaTypes.SizeDependsOnTypeOnly` | src/lexer_functions.rs:289-309 | two values of the same variant have the same size |
| `AlbaTypes.TruncateOrPadString` | src/lexer_functions.rs:329-335 | text of at most the width in UTF-8 bytes is padded with spaces to the width in characters. Longer text is cut to its prefix of exactly the width in bytes. The cut fails, as the slice panics, exactly when no prefix has that byte length |
| `AlbaTypes.FittedLength` | src/lexer_functions.rs:329-335 | a fitted text has at most the width in characters and at least the width in bytes, exactly the width in both when it is ASCII; padding adds one byte per space |
| `AlbaTypes.TruncateOrPadStringIdempotent` | src/lexer_functions.rs:329-335 | fitting a fitted text to the same width again leaves it unchanged exactly when it is ASCII |
| `AlbaTypes.TruncateOrPadBytes` | src/lexer_functions.rs:352-360 | the result has exactly the given length: the prefix of longer bytes, or the bytes followed by zeros |
| `AlbaTypes.TruncateOrPadBytesIdempotent` | src/lexer_functions.rs:352-360 | fitting bytes twice to the same width is fitting them once |
| `AlbaTypes.StringOf` | src/lexer_functions.rs:312-327 | text of a value fails exactly for NONE and is the text itself for string kinds |
| `AlbaTypes.BytesOf` | src/lexer_functions.rs:337-350 | bytes of a byte value are the bytes themselves, and only byte and string values convert |
| `AlbaTypes.ToText` | src/lexer_functions.rs:132-148 | conversion to Text fails exactly for NONE (InvalidData) and otherwise yields Text |
| `AlbaTypes.ToInt` | src/lexer_functions.rs:149-174 | conversion to Int yields an Int or an InvalidData error, and NONE fails |
| `AlbaTypes.ToBigint` | src/lexer_functions.rs:175-194 | conversion to Bigint yields a Bigint or an InvalidData error, and NONE fails |
| `AlbaTypes.ToFloat` | src/lexer_functions.rs:195-209 | conversion to Float yields a Float or an InvalidData error, and NONE fails |
| `AlbaTypes.ToBool` | src/lexer_functions.rs:210-229 | conversion to Bool yields a Bool or an InvalidData error, and NONE fails |
| `AlbaTypes.ToChar` | src/lexer_functions.rs:230-245 | conversion to Char yields a Char or an InvalidData error, and NONE fails |
| `AlbaTypes.ToFixedString` | src/lexer_functions.rs:246-265 | NONE fails with InvalidData; other values fail exactly when the byte cut falls inside a character, with the slice panic. A result has the target's variant, at most the width in characters and at least the width in bytes, and exactly the width in both when it is ASCII |
| `AlbaTypes.FitText` | src/lexer_functions.rs:246-265 | the text fitted to the target's width fails exactly when the byte cut falls inside a character, with the slice panic. The result has the target's variant, at most the width in characters and at least the width in bytes, and exactly the width in both when it is ASCII |
| `AlbaTypes.ToFixedBytes` | src/lexer_functions.rs:266-285 | conversion to fixed bytes fills the column width exactly or fails with InvalidData; NONE fails |
| `AlbaTypes.TryFromExisting` | src/lexer_functions.rs:130-288 | the result has the target's variant, and fixed texts hold at most their width in characters and at least it in bytes. Errors are InvalidData, except the slice panic, which only fixed-string targets raise. A NONE target gives NONE, and a NONE input converts only to a NONE target |
| `AlbaTypes.CoercedValueFillsColumn` | src/lexer_functions.rs:246-309 | a converted value has the target's size. Fixed bytes occupy all of it. Fixed text occupies at least all of it, and exactly all of it when ASCII |
| `AlbaTypes.CoercionIdempotent` | src/lexer_functions.rs:130-288 | converting an already converted value to the same target gives it back exactly when it is not fixed-width text, or is ASCII fixed-width text |
| `AlbaTypes.ValuesEqWithoutFloats` | src/lexer_functions.rs:21 | without Float values, the derived `==` on vectors of values is identity |
| `AlbaTypes.FloatColumnEquality` | src/lexer_functions.rs:21 | a NaN Float makes a vector unequal to itself, and f64-equal Floats (0.0, -0.0) make vectors equal |
| `AlbaTypes.FixedStringIdempotent` | src/lexer_functions.rs:246-265 | a fixed string converted again to the same width is unchanged exactly when it is ASCII |
| `AlbaTypes.FixedBytesIdempotent` | src/lexer_functions.rs:266-285 | fixed bytes converted again to the same width are unchanged |
| `AlbaTypes.PaddedAccentOverflows` | src/lexer_functions.rs:329-335 | "é" becomes "é" and nine spaces in a NanoString: eleven bytes for a ten-byte column. Converting it again drops a space |
| `AlbaTypes.AccentPadded` | src/lexer_functions.rs:334 | "é" padded to ten is "é" and nine spaces, eleven bytes |
| `AlbaTypes.AccentPaddedCut` | src/lexer_functions.rs:331 | "é" and nine spaces cut to ten bytes is "é" and eight spaces |
| `AlbaTypes.AccentCutPanics` | src/lexer_functions.rs:331 | "a" and five "é" converted to a NanoString cuts inside the last "é" and panics |
| `AlbaTypes.ByteCutPrefix` | src/lexer_functions.rs:331 | cutting at the byte length of a prefix gives that prefix |
| `AlbaTypes.IntegerTextRoundTrip` | src/lexer_functions.rs:132-194 | an Int becomes its decimal text, and that text converts back to the same Int or Bigint |
| `AlbaTypes.TextToInt` | src/lexer_functions.rs:149-174 | the decimal text of an i32 converts to the Int of that value |
| `AlbaTypes.TextToBigint` | src/lexer_functions.rs:175-194 | the decimal text of an i64 converts to the Bigint of that value |
| `AlbaTypes.ParseBoolText` | src/lexer_functions.rs:218-223 | `b.to_string()` parses back to b |
| `AlbaTypes.ParseBool` | src/lexer_functions.rs:218-223 | a text parses as false exactly when trimmed and lower-cased it is 0, f or false, and as true exactly for 1, t or true; blank text never parses |
| `AlbaTypes.BoolToText` | src/lexer_functions.rs:139 | a Bool converts to the text `true` or `false` |
| `AlbaTypes.TextToBool` | src/lexer_functions.rs:217-224 | text that parses as a boolean (trimmed, lower-cased, one of 0/f/false/1/t/true) converts to that Bool |
| `AlbaTypes.BoolTextRoundTrip` | src/lexer_functions.rs:139-224 | a Bool converted to Text and back is unchanged |
| `AlbaTypes.NarrowingBigint` | src/lexer_functions.rs:152-158 | a Bigint converts to Int exactly when it is in the i32 range, keeping its value; an Int widened to Bigint narrows back to itself |
| `AlbaTypes.CharFromString` | src/lexer_functions.rs:233-240 | a string converts to Char exactly when its `len()` is 1, that is, one ASCII character |
| `AlbaTypes.BytesClass` | src/lexer_functions.rs:376-388 | a byte token becomes a byte value of some width holding exactly those bytes |
| `AlbaTypes.TryFromToken` | src/lexer_functions.rs:365-426 | a token converts exactly when it is Bytes, String, Int, Float, Bool or a type keyword; a String token becomes Text of the same text |
| `AlbaTypes.FromTypeKeyword` | src/lexer_functions.rs:403-420 | a keyword converts exactly when its upper-cased, trimmed text names a type |
| `AlbaTypes.TypeKeyword` | src/lexer_functions.rs:403-419 | a type keyword stands for a value other than NONE and Char, with empty text or bytes |
| `AlbaTypes.BytesLiteralClass` | src/lexer_functions.rs:376-388 | byte tokens are sorted by length: at most 1,000,000 bytes fit the chosen width, and each larger class is chosen only above the previous bound |
| `AlbaTypes.IntegerLiteralValue` | src/lexer_functions.rs:392-396 | an Int token becomes Int when in the i32 range and Bigint otherwise, with the same value |
| `AlbaTypes.TypeKeywordAnyCase` | src/lexer_functions.rs:403 | a keyword converts in its lower-case spelling exactly when it converts in its upper-case spelling |
| `LexerFunctions.UpperOfNoLowerCase` | src/lexer_functions.rs:468 | upper-casing text without lower-case letters changes nothing |
| `LexerFunctions.KeywordsAreUpperCase` | src/lexer_functions.rs:428-462 | every keyword is its own upper-case form |
| `LexerFunctions.KeywordMatch` | src/lexer_functions.rs:464-473 | the keyword matcher fires exactly when the upper-cased dough is a keyword; it then pushes that keyword once, in upper case, and clears the dough, and otherwise changes nothing |
| `LexerFunctions.FirstKeywordsUpperCase` | src/lexer_functions.rs:428-444 | the first sixteen keywords contain no lower-case letter |
| `LexerFunctions.LastKeywordsUpperCase` | src/lexer_functions.rs:445-462 | the remaining keywords contain no lower-case letter |
| `LexerFunctions.KeywordMatchAnyCase` | src/lexer_functions.rs:464-467 | the keyword matcher fires exactly when the dough equals a keyword ignoring ASCII case |
| `LexerFunctions.ReadOperator` | src/lexer_functions.rs:705-797 | an operator is read exactly when the first character starts one, and it is that character followed by the characters it consumes |
| `LexerFunctions.OperatorMatch` | src/lexer_functions.rs:697-802 | the operator matcher fires exactly when the dough is non-empty and starts an operator; it then pushes one known Operator made of the first character and the consumed characters, and clears the dough; otherwise nothing changes |
| `LexerFunctions.ReadOperatorKnown` | src/lexer_functions.rs:706-797 | every operator read is one of the listed operators |
| `LexerFunctions.OperatorIsLongest` | src/lexer_functions.rs:706-797 | no listed operator that the input starts with is longer than the one read |
| `LexerFunctions.OperatorReadsItself` | src/lexer_functions.rs:706-797 | each listed operator, read from its own text, is read whole |
| `LexerFunctions.OperatorsReadThemselves` | src/lexer_functions.rs:706-797 | the same for each index range of the operator list |
| `LexerFunctions.BooleanMatch` | src/lexer_functions.rs:804-820 | when it fires it pushes one Bool, true exactly when the trimmed dough is `true` ignoring case, and clears the dough; otherwise nothing changes |
| `LexerFunctions.LowerOfNoUpperCase` | src/lexer_functions.rs:810-814 | lower-casing text without capitals changes nothing |
| `LexerFunctions.LowerCaseWords` | src/lexer_functions.rs:810-814 | `true` and `false` are their own lower-case forms |
| `LexerFunctions.BooleanMatchWords` | src/lexer_functions.rs:809-819 | the boolean matcher fires exactly when the trimmed dough is `true` or `false` ignoring case |
| `LexerFunctions.BooleanMatchAgreesWithColumns` | src/lexer_functions.rs:809-817 | a dough the boolean matcher accepts converts to the same Bool in a Bool column |
| `LexerFunctions.BooleanMatchShortSpellings` | src/lexer_functions.rs:809-819 | a Bool column accepts text the matcher does not, namely the one-character spellings |
| `LexerFunctions.Flush` | src/lexer_functions.rs:523-524 | a part is pushed, trimmed, exactly when it is not blank |
| `LexerFunctions.SplitGroupArgs` | src/lexer_functions.rs:502-535 | the character loop computes the split of its input |
| `LexerFunctions.SplitStep` | src/lexer_functions.rs:508-528 | only a comma outside quotes and parentheses and not after a backslash ends a part and flushes the current text; any other character is appended to the current part |
| `LexerFunctions.ScanFrom` | src/lexer_functions.rs:507-529 | the loop only ever adds parts, and keeps every part non-empty and trimmed |
| `LexerFunctions.SplitArgs` | src/lexer_functions.rs:502-535 | no part of the result is empty or untrimmed |
| `LexerFunctions.FlushClean` | src/lexer_functions.rs:523-532 | pushing the current part keeps every part non-empty and trimmed |
| `LexerFunctions.StepKeepsClean` | src/lexer_functions.rs:507-528 | one character keeps every part non-empty and trimmed |
| `LexerFunctions.ScanWithoutSplits` | src/lexer_functions.rs:507-529 | input without a splitting comma accumulates whole into the current part |
| `LexerFunctions.SplitSheltered` | src/lexer_functions.rs:502-535 | input without a top-level comma (commas inside quotes or parentheses) yields at most one part, the trimmed input |
| `LexerFunctions.ScanFromAppend` | src/lexer_functions.rs:507-529 | scanning a + b is scanning a, then b |
| `LexerFunctions.StepAfter` | src/lexer_functions.rs:507-528 | one character acts alike on two states that differ only by parts already pushed |
| `LexerFunctions.StepAlike` | src/lexer_functions.rs:507-528 | one character's effect on quotes, parentheses, escape and the current part depends on nothing else |
| `LexerFunctions.ScanAfter` | src/lexer_functions.rs:507-529 | the loop acts alike on two states that differ only by parts already pushed |
| `LexerFunctions.SplitAtComma` | src/lexer_functions.rs:522-526 | a comma at top level splits the input into the parts before it followed by the parts after it |
| `LexerFunctions.FlushAfter` | src/lexer_functions.rs:523-532 | pushing the current part does not depend on the parts already pushed |
| `LexerFunctions.ResumeAfterComma` | src/lexer_functions.rs:522-526 | after a top-level comma the loop continues as if starting afresh on the rest |
| `LexerFunctions.ResumedIsFresh` | src/lexer_functions.rs:522-526 | the state after a top-level comma is the start state, apart from the parts pushed |
| `LexerFunctions.CommaEndsPart` | src/lexer_functions.rs:522-526 | a top-level comma pushes the current part and empties it |
| `Lexer.Apply` | src/main.rs:35-43 | a matcher's effect appends its tokens, sets the dough and only advances the input |
| `Lexer.ApplyIdle` | src/main.rs:35-43 | a matcher that does not fire leaves the state as it is |
| `Lexer.ApplyChange` | src/main.rs:35-43 | any change that appends tokens and advances the input is one matcher effect |
| `Lexer.Run` | src/main.rs:35-43 | running a matcher never lengthens the input left |
| `Lexer.KeywordRuns` | src/main.rs:36 | the driver's keyword step is the keyword matcher |
| `Lexer.BooleanRuns` | src/main.rs:39 | the driver's boolean step is the boolean matcher |
| `Lexer.OperatorRuns` | src/main.rs:41 | the driver's operator step is the operator matcher |
| `Lexer.AfterSubcommand` | src/main.rs:38-43 | the matchers after the subcommand step never lengthen the input left |
| `Lexer.Matching` | src/main.rs:35-43 | the matchers of one turn that succeed never lengthen the input left |
| `Lexer.MainPass` | src/main.rs:28-44 | a turn consumes at least one character; a `?` pushes Argument and leaves the dough as it is |
| `Lexer.MainLoop` | src/main.rs:28-44 | a loop that does not fail consumes all the input |
| `Lexer.FinalPass` | src/main.rs:46-55 | the final pass changes nothing when the dough is blank |
| `Lexer.RunKeeps` | src/main.rs:35-43 | a matcher never drops a token already pushed |
| `Lexer.AfterSubcommandKeeps` | src/main.rs:38-43 | the matchers after the subcommand step keep every token pushed |
| `Lexer.FinalAfterSubcommandKeeps` | src/main.rs:49-54 | the final matchers keep every token pushed |
| `Lexer.MainPassKeeps` | src/main.rs:28-44 | a turn keeps every token pushed |
| `Lexer.MainLoopKeeps` | src/main.rs:28-44 | the main loop keeps every token pushed |
| `Lexer.FinalPassKeeps` | src/main.rs:46-55 | the final pass keeps every token pushed |
| `Lexer.Finish` | src/main.rs:57-65 | the end succeeds exactly when tokens were pushed or the dough is not blank; a non-blank dough becomes one last String token; failure is "The given input did not produced tokens"; success is never empty |
| `Lexer.LexSpec` | src/main.rs:19-66 | empty input fails with "Input cannot be blank", and a success is never empty |
| `Lexer.Lex` | src/main.rs:19-66 | the character loop computes the lexer's result |
| `Lexer.BlankInputFails` | src/main.rs:24 | non-empty input made only of whitespace fails with "The given input did not produced tokens" |
| `Lexer.LeadingArgument` | src/main.rs:29-32 | input whose trimmed text starts with `?` lexes, when it succeeds, to tokens starting with Argument |
| `Lexer.MainLoopStep` | src/main.rs:28-44 | one successful turn leaves the rest of the loop to do |
| `Lexer.LexSpecExtends` | src/main.rs:44-65 | the tokens of the main loop begin the lexer's result |
| `Lexer.LeftoverDoughIsString` | src/main.rs:57-59 | dough still not blank after the final pass becomes the last token, one String holding it |
| `Lexer.KeywordsStartWithLetter` | src/lexer_functions.rs:428-462 | every keyword starts with a capital letter |
| `Lexer.FirstKeywordsStartWithLetter` | src/lexer_functions.rs:428-444 | the first sixteen keywords start with a capital letter |
| `Lexer.LastKeywordsStartWithLetter` | src/lexer_functions.rs:445-462 | the remaining keywords start with a capital letter |
| `Lexer.KeywordDoughNotComment` | src/lexer_functions.rs:685-686 | dough that is a keyword never starts a comment |
| `Lexer.KeywordPass` | src/main.rs:33-43 | when the next character completes a keyword, that turn pushes exactly that Keyword, clears the dough and does nothing else |
| `Lexer.QuietPass` | src/main.rs:33-43 | a turn ends after the comment and keyword matchers when no later matcher fires |
| `Lexer.GuardedStill` | src/main.rs:37-43 | with empty dough, no matcher after the keyword matcher fires |
| `Lexer.ChangeNothing` | src/main.rs:35-43 | no change is the idle effect |
| `Lexer.NoMatchOnEmptyDough` | src/lexer_functions.rs:702-704 | neither the boolean nor the operator matcher fires on empty dough |
| `IndexFormat.EncodeSlot` | src/indexing.rs:132-134 | a slot is 16 bytes |
| `IndexFormat.DecodeSlot` | src/indexing.rs:176-178 | decoding 16 bytes gives the slot that encodes to them |
| `IndexFormat.SlotRoundTrip` | src/indexing.rs:132-134 | decoding an encoded slot gives the slot back |
| `IndexFormat.ZerosAreEmptySlot` | src/indexing.rs:131 | sixteen zero bytes decode to the slot (0, 0) |
| `IndexFormat.EncodeMeta` | src/indexing.rs:120-124 | a metadata record is 18 bytes |
| `IndexFormat.DecodeMeta` | src/indexing.rs:82-85 | decoding 18 bytes gives the record that encodes to them |
| `IndexFormat.MetaRoundTrip` | src/indexing.rs:120-124 | decoding an encoded record gives the record back |
| `IndexFormat.EncodeMetadata` | src/indexing.rs:119-125 | the metadata file holds 18 bytes per record |
| `IndexFormat.MetadataOf` | src/indexing.rs:80-86 | decoding yields size / 18 records, record i from bytes 18i to 18i + 18 |
| `IndexFormat.EncodeMetadataBlock` | src/indexing.rs:125 | record i sits at bytes 18i to 18i + 18 of the file |
| `IndexFormat.MetadataRoundTrip` | src/indexing.rs:80-86 | decoding an encoded record list gives the list back |
| `IndexFormat.MetadataFileRoundTrip` | src/indexing.rs:80-86 | a file whose length is a multiple of 18 is the encoding of what it decodes to |
| `IndexFormat.EncodeMetadataFromRecords` | src/indexing.rs:80-86 | bytes whose every 18-byte block encodes the matching record are the encoding of the records |
| `IndexFormat.EncodesBlocksInit` | src/indexing.rs:81 | dropping the last record and its block keeps the block correspondence |
| `IndexFormat.MetadataIgnoresPartialTail` | src/indexing.rs:81 | trailing bytes short of a whole record are ignored |
| `IndexFormat.WriteAt` | src/indexing.rs:125 | a positioned write puts the data at the position, keeps the other bytes, fills any gap and grows the file only as far as needed |
| `IndexFormat.WriteAtInside` | src/indexing.rs:153 | a write inside the file replaces exactly the written range |
| `IndexFormat.WriteAtEnd` | src/indexing.rs:136 | a write at the end of the file appends |
| `IndexFormat.SetLen` | src/indexing.rs:119 | `set_len` truncates or zero-extends the file to the given length |
| `IndexFormat.Splice` | src/indexing.rs:153 | a splice keeps the length, puts the data at the position and keeps every other byte |
| `IndexFormat.EncodeMetadataUpdate` | src/indexing.rs:197 | rewriting record i at byte 18i gives the encoding of the updated records |
| `IndexFormat.EncodeMetadataSplice` | src/indexing.rs:153 | updating record i replaces exactly its 18-byte block of the encoding |
| `IndexKeys.IntegerKey` | src/indexing.rs:354-398 | an integer's key is `n as u64 / 4096`: n / 4096 for n >= 0, (n + 2^64) / 4096 for negative n; at most (2^64 - 1) / 4096 |
| `IndexKeys.GetIndex` | src/indexing.rs:424-475 | every key is at most (2^64 - 1) / 4096 |
| `IndexKeys.FixedKeys` | src/indexing.rs:407-432 | true has key 1, false key 0, NONE key 0, and a char its code point / 4096 |
| `IndexKeys.KeyIgnoresWidth` | src/indexing.rs:427-437 | Int and Bigint of the same value share a key, and so do Text, NanoString and LargeString of the same text |
| `IndexKeys.KeyMonotoneOnNonNegatives` | src/indexing.rs:359-363 | for non-negative values the key is monotone, and equal within one 4096 bucket |
| `IndexKeys.NegativeKeysAboveNonNegative` | src/indexing.rs:359-363 | every negative value has a larger key than every non-negative value |
| `IndexSpec.ChunkAt` | src/indexing.rs:252-253 | a chunk is 4096 slots |
| `IndexSpec.ChunkAtUnaffected` | src/indexing.rs:152 | a write within one chunk leaves every other chunk as it was |
| `IndexSpec.FirstAccepting` | src/indexing.rs:211-218 | the chunk chosen by `add` is the first in metadata order with count < u16::MAX and min <= arg <= max, and none is chosen only if none accepts |
| `IndexSpec.Bumped` | src/indexing.rs:212 | counting an item raises the count by one, within u16, and keeps the bounds |
| `IndexSpec.NewChunkRecord` | src/indexing.rs:116 | a new chunk's record is (arg, arg + 4096, 1), its max wrapping below arg when arg + 4096 overflows |
| `IndexSpec.NewChunk` | src/indexing.rs:131-135 | a new chunk is 4096 slots, slot 0 holding (arg, offset) and every other slot empty |
| `IndexSpec.CreateChunkSpec` | src/indexing.rs:112-139 | creating a chunk adds one record and 4096 slots, and keeps the store consistent and the metadata file in sync |
| `IndexSpec.InsertSpec` | src/indexing.rs:140-158 | inserting leaves the metadata as it is, keeps the store consistent, and keeps the metadata file in sync when the record written is the one held |
| `IndexSpec.AddSpec` | src/indexing.rs:204-225 | adding creates a record exactly when no chunk accepts the key, and keeps the store consistent and in sync |
| `IndexSpec.Selected` | src/indexing.rs:234-244 | a search reads exactly the chunks whose record it selects, in ascending order |
| `IndexSpec.SelectsEveryMatchingRange` | src/indexing.rs:234-244 | a chunk whose [min, max] holds a key the query matches is read |
| `IndexSpec.ChunkHitsMembership` | src/indexing.rs:254-260 | an offset is found in a chunk exactly when some slot of it matches and holds that offset |
| `IndexSpec.HitsOverMembership` | src/indexing.rs:251-262 | an offset is found over the chunks read exactly when a matching slot of one of them holds it |
| `IndexSpec.HitsOverSound` | src/indexing.rs:251-262 | every offset found over the chunks read is held by a matching slot of one of them |
| `IndexSpec.HitsOverComplete` | src/indexing.rs:251-262 | every offset a matching slot of a chunk read holds is found |
| `IndexSpec.SearchMembership` | src/indexing.rs:231-265 | an offset is in the result exactly when a matching slot of a selected chunk holds it |
| `IndexSpec.SearchMissesUnmatchedChunks` | src/indexing.rs:231-265 | when no selected chunk holds a matching slot the result is empty |
| `IndexSpec.SearchMonotone` | src/indexing.rs:231-347 | a query that selects and matches more finds a superset |
| `IndexSpec.ExactIsInclusive` | src/indexing.rs:268-347 | `search(k)` and `search(k..=k)` return the same set |
| `IndexSpec.HalfOpenIsInclusive` | src/indexing.rs:231-307 | `search(s..e)` is `search(s..=e-1)` for e > 0 and empty for e = 0 |
| `IndexSpec.InclusiveWidening` | src/indexing.rs:268-307 | widening an inclusive range never loses an offset |
| `IndexSpec.Without` | src/indexing.rs:176-184 | the surviving slots are no more than before and exclude the removed pair |
| `IndexSpec.Compact` | src/indexing.rs:185-190 | the rebuilt chunk is 4096 slots |
| `IndexSpec.CompactContents` | src/indexing.rs:176-190 | every slot of the rebuilt chunk is empty or a surviving slot; the removed pair is gone; every other non-empty slot keeps its number of occurrences |
| `IndexSpec.CompactKeepsOrder` | src/indexing.rs:176-190 | surviving slots keep their relative order |
| `IndexSpec.RemoveOne` | src/indexing.rs:171-198 | removing from one chunk keeps the store consistent and in sync, the file lengths and every record's bounds |
| `IndexSpec.RemoveFold` | src/indexing.rs:171-199 | removing from a list of chunks keeps the same |
| `IndexSpec.RemoveSpec` | src/indexing.rs:159-201 | `remove_index` keeps the store consistent and in sync and every record's bounds |
| `IndexSpec.RemoveFoldMetadata` | src/indexing.rs:171-199 | after the loop, the listed chunks' counts are decremented once (wrapping) and every other record is unchanged |
| `IndexSpec.RemoveFoldLastMetadata` | src/indexing.rs:192 | the last chunk of the loop decrements its count once |
| `IndexSpec.RemoveOneMetadata` | src/indexing.rs:192 | one pass decrements exactly that chunk's count |
| `IndexSpec.RemoveMetadataEffect` | src/indexing.rs:165-192 | `remove_index` decrements by one the count of exactly the chunks whose [min, max] holds the key, whether or not anything was removed |
| `IndexSpec.RemoveFromEmptyChunkCloses` | src/indexing.rs:192 | removing from a candidate chunk with count 0 wraps its count to u16::MAX, after which no add accepts it |
| `IndexSpec.RemoveOneChunks` | src/indexing.rs:172-191 | chunk idx becomes the compaction of the 4096 slots read at byte idx * 4096, and every other chunk is unchanged |
| `IndexSpec.RemoveFoldClears` | src/indexing.rs:171-199 | after the loop no candidate chunk holds the removed pair |
| `IndexSpec.RemovedPairGone` | src/indexing.rs:159-201 | after removal no slot of a candidate chunk holding the pair is reported for the key |
| `IndexSpec.RemoveThenSearchMisses` | src/indexing.rs:159-201 | after removing (key, offset), searching the key no longer returns the offset |
| `IndexSpec.RemoveKeepsOthersInFirstChunk` | src/indexing.rs:176-191 | when chunk 0 is the only candidate, every other pair in it keeps its number of occurrences |
| `IndexSpec.NeighboursAfterRemove` | src/indexing.rs:173-191 | in the two-chunk example, the misaligned read overwrites chunk 1 with slots that lack key 5001 |
| `IndexSpec.NeighboursSelected` | src/indexing.rs:165-169 | in the two-chunk example only chunk 1 is a candidate for key 5000 |
| `IndexSpec.CompactOnlyTarget` | src/indexing.rs:176-190 | compacting a window holding only empty slots and the removed pair gives an empty chunk |
| `IndexSpec.RemoveLosesNeighbour` | src/indexing.rs:173-191 | removing (5000, 7) from a chunk that also holds (5001, 8) makes `search(5001)` lose offset 8, since the chunk is read at the wrong place and written back |
| `IndexSpec.OnlySecondChunkRead` | src/indexing.rs:309-347 | with two chunks and a key above chunk 0's max, the result comes from chunk 1 alone |
| `IndexSpec.NeighbourStored` | src/indexing.rs:309-347 | before the removal `search(5001)` finds offset 8 |
| `IndexSpec.AddThenSearchFinds` | src/indexing.rs:204-347 | in a store with 4096 slots per record, adding (key, offset) keeps the store consistent and a search for the key then returns the offset, provided the accepting chunk has room or a new chunk's max does not wrap |
| `IndexSpec.AddWrapsAtTop` | src/indexing.rs:116 | adding u64::MAX to an empty index stores the slot, but the new record's max wraps and `search(u64::MAX)` finds nothing |
| `IndexSpec.AddLeavesSlotOneEmpty` | src/indexing.rs:152 | two adds of one key to an empty index fill slots 0 and 2 and leave slot 1 empty, since the insert uses the incremented count |
| `IndexSpec.SecondAddToNewChunk` | src/indexing.rs:212-213 | the second add goes to the new chunk, raising its count to 2 and writing slot 2 |
| `IndexSpec.AddOpensChunk` | src/indexing.rs:116-136 | with no accepting chunk, `add` appends the record (arg, arg + 4096, 1), exactly its 18 bytes to the metadata file and the new chunk to the index file |
| `IndexSpec.AddIntoChunk` | src/indexing.rs:211-213 | with an accepting chunk, `add` increments only its count and writes the slot at the post-increment position |
| `IndexSpec.FullChunkSpills` | src/indexing.rs:152 | adding to a chunk at count 4095 writes into slot 0 of the next chunk and leaves the chunk itself as it was |
| `IndexSpec.AddToEmpty` | src/indexing.rs:219 | adding to an empty index creates one chunk with the single pair |
| `IndexSpec.ZeroChunkFinds` | src/indexing.rs:309-347 | in a chunk created for key 0, `search(0)` finds an offset exactly when it is 0 or the stored one |
| `IndexSpec.SpuriousZeroOffset` | src/indexing.rs:131-136 | after adding key 0 to an empty index, `search(0)` returns the stored offset and also offset 0 from the zero-filled slots |
| `IndexSpec.ZeroChunkSearch` | src/indexing.rs:309-347 | the chunk created for key 0 answers `search(0)` with {0, offset} |
| `Indexing.DecodeMetadataFile` | src/indexing.rs:76-88 | the loop decodes exactly the records of the metadata file |
| `Indexing.Index.Load` | src/indexing.rs:54-111 | a loaded index holds the decoded records and the two files, with no pending changes |
| `Indexing.Index.CreateIndexChunk` | src/indexing.rs:112-139 | performs the chunk creation transition and marks a change |
| `Indexing.Index.InsertIndex` | src/indexing.rs:140-158 | performs the insert transition and marks a change |
| `Indexing.Index.Add` | src/indexing.rs:204-225 | performs the add transition and marks a change |
| `Indexing.Index.Remove` | src/indexing.rs:159-201 | performs the remove transition; the change flag is set afterwards exactly when it was set before or some chunk was a candidate |
| `Indexing.Index.RemovePass` | src/indexing.rs:171-199 | one turn of the removal loop advances the fold by one chunk |
| `Indexing.Index.RemoveChunk` | src/indexing.rs:172-198 | one candidate chunk is compacted, written back and its count decremented |
| `Indexing.Index.SelectChunks` | src/indexing.rs:234-244 | the loop collects exactly the selected chunks in ascending order |
| `Indexing.Index.Search` | src/indexing.rs:231-347 | the loop returns exactly the search result |
| `Indexing.RemoveFoldStep` | src/indexing.rs:171-199 | the fold over one more chunk is one more removal pass |
| `Indexing.HitsOverStep` | src/indexing.rs:251-262 | reading one more chunk adds exactly its hits |
| `Indexing.Survivors` | src/indexing.rs:176-184 | the loop keeps exactly the slots other than the removed pair, in order |
| `Indexing.PackChunk` | src/indexing.rs:185-190 | the survivors are packed from slot 0 and the tail is empty |
| `Indexing.ScanChunk` | src/indexing.rs:254-260 | the loop collects exactly the offsets of the chunk's matching slots |
| `QuerySpec.TrimSpec` | src/query.rs:39-54 | trimming changes only the column types and names, and never lengthens them |
| `QuerySpec.KeepTypes` | src/query.rs:41-46 | the kept column types are no more than before and none is NONE |
| `QuerySpec.KeepNames` | src/query.rs:47-53 | the kept column names are no more than before and none is empty |
| `QuerySpec.TrimKeepsExactly` | src/query.rs:39-54 | trimming keeps exactly the non-NONE types and non-empty names, each as often as before |
| `QuerySpec.TrimKeepsOrder` | src/query.rs:41-46 | the types kept keep their order |
| `QuerySpec.TrimIdempotent` | src/query.rs:39-54 | trimming twice is trimming once |
| `QuerySpec.NewSpec` | src/query.rs:56-84 | a new query has no pages, page 0, no rows, no column names, the given id and the trimmed column types |
| `QuerySpec.JoinPages` | src/query.rs:91-105 | the joined page count is the larger of the two |
| `QuerySpec.Fill` | src/query.rs:95-101 | a filled page starts with its own ids, continues with a prefix of the foreign ids, never grows past 100 and stops short of 100 only when the foreign ids run out |
| `QuerySpec.JoinSpec` | src/query.rs:86-108 | column types that differ as `Vec<AlbaTypes>` (Float by f64 `==`) leave the receiver unchanged; otherwise the page count is the larger of the two and the types are trimmed; rows, cursor and id are kept |
| `QuerySpec.JoinPagesShape` | src/query.rs:91-105 | page i keeps the receiver's container and ids, then takes foreign ids in order only while it holds fewer than 100; foreign-only pages are appended whole |
| `QuerySpec.PushSpec` | src/query.rs:216-220 | push appends exactly the page and keeps the cursor and rows |
| `QuerySpec.FetchRows` | src/query.rs:145-158 | no more rows are fetched than there are ids |
| `QuerySpec.FetchRowsOnePerId` | src/query.rs:145-158 | when every id yields a row, the rows are the first row of each id, in order |
| `QuerySpec.FetchRowsSkipsMissing` | src/query.rs:153-156 | an id that yields no row is skipped |
| `QuerySpec.FetchRowsStopsAtError` | src/query.rs:149 | the first failing fetch is the result |
| `QuerySpec.LoadRowsSpec` | src/query.rs:110-164 | `load_rows` fails exactly when there are pages and the current page is missing, its container is absent or a fetch fails; failure or no pages leaves the state unchanged; success loads the container's column names and the rows FetchRows gives for the page's ids, and trims the types and names; pages, cursor and id never change |
| `QuerySpec.LoadRowsOnePerId` | src/query.rs:141-161 | when every id of the current page yields a row, `load_rows` succeeds with one row per id, in order: the first row fetched for it |
| `QuerySpec.NextSpec` | src/query.rs:166-190 | `next` moves forward by one unless there are no pages or it is on the last page, and keeps the pages; after a successful move the rows are those fetched for the new page and the types and names are trimmed |
| `QuerySpec.PreviousSpec` | src/query.rs:191-214 | `previous` moves back by one unless there are no pages or it is on page 0, and keeps the pages; after a successful move the rows are those fetched for the new page and the types and names are trimmed |
| `QuerySpec.NextThenPrevious` | src/query.rs:166-214 | a page reached by `next` is left again by `previous` |
| `QuerySpec.CursorStaysValid` | src/query.rs:86-220 | every operation keeps the current page within the pages when it was |
| `Queries.Query.FromState` | src/query.rs:17-24 | a query holds exactly the given state |
| `Queries.Query.New` | src/query.rs:56-69 | the new query is the new-query state with the given id |
| `Queries.Query.NewNone` | src/query.rs:71-84 | the same with the empty id |
| `Queries.Query.Duplicate` | src/query.rs:27-37 | the copy is a fresh object with the same state |
| `Queries.Query.Trim` | src/query.rs:39-54 | performs the trim transition |
| `Queries.Query.Join` | src/query.rs:86-108 | performs the join transition, comparing column types as `Vec<AlbaTypes>` does |
| `Queries.Query.LoadRows` | src/query.rs:110-164 | performs the load transition and returns its outcome: on success the rows are the container's column names and the first row fetched for each id of the current page, ids that fetch nothing skipped, and the query is trimmed |
| `Queries.Query.Next` | src/query.rs:166-189 | performs the next transition and returns its outcome |
| `Queries.Query.Previous` | src/query.rs:191-214 | performs the previous transition and returns its outcome |
| `Queries.Query.Push` | src/query.rs:216-220 | performs the push transition |
| `Queries.JoinPagesStep` | src/query.rs:91-105 | one foreign page either fills the receiver's page of the same index or is appended |
| `Queries.FillPage` | src/query.rs:95-101 | the loop takes foreign ids in order until the page holds 100 |
| `Queries.FillSaturates` | src/query.rs:96-99 | once the page holds 100 ids, further foreign ids are ignored |
| `Queries.CheckRowValues` | src/query.rs:258-272 | the loop over the headers computes the row check |
| `Queries.Search` | src/query.rs:235-308 | `search` fails exactly when the scan fails, with the same error, and otherwise returns a fresh query in the scan's result state |
| `Queries.ReadRows` | src/query.rs:248-286 | the window loop collects exactly the rows of the scan ordinals |
| `Queries.WindowBytes` | src/query.rs:250-252 | the buffer is the file bytes of the window's rows |
| `Queries.ReadWindow` | src/query.rs:253-284 | one window extends the rows read by its rows, or ends the scan with its first error |
| `Queries.ReadWindowRow` | src/query.rs:254-255 | row i of the window is the row at ordinal readen + i |
| `Queries.ReadOneRow` | src/query.rs:255-281 | deserialising and checking a row's bytes gives the row of that ordinal |
| `Queries.WindowBounds` | src/query.rs:250-252 | the window starts at header + readen * size and lies inside the file |
| `Queries.WindowRowStep` | src/query.rs:253-283 | one row read either ends the scan with its error or adds the row with its ordinal |
| `Queries.CollectVisitedStep` | src/query.rs:282 | one more row of the window adds that row or its error |
| `Queries.WindowRowFails` | src/query.rs:278-280 | an error within a window is the result of the whole scan |
| `Queries.CollectRowsSnoc` | src/query.rs:282 | collecting one more ordinal adds its row or its error |
| `Queries.PageMatches` | src/query.rs:288-307 | the bucketing loop fails exactly when a match fails, with that error, and otherwise yields a new query whose pages are the matching ordinals dealt into pages |
| `Queries.ClosePage` | src/query.rs:295-298 | a full bucket becomes one more full page and the page contents grow by exactly the bucket |
| `Queries.MatchFailsAt` | src/query.rs:293 | the first failing match is the result |
| `Queries.MatchIdsStep` | src/query.rs:293-294 | one more row adds its ordinal exactly when it matches |
| `Queries.RowSlice` | src/query.rs:254 | the slice of row i is the bytes of ordinal readen + i |
| `Queries.WindowRowBytes` | src/query.rs:254 | row i of the buffer lies inside it and is the row's bytes |
| `Queries.SliceBounds` | src/query.rs:252-254 | row i of the window starts i rows after the window start |
| `Queries.ScanStopsAt` | src/query.rs:278-280 | an error on a prefix of the ordinals is the result of the whole scan |
| `ScanSpec.RowsPerIteration` | src/query.rs:243 | rows per window are at most the row count, at least 1 when there are rows, and 1 for rows wider than 40960 bytes |
| `ScanSpec.TotalRows` | src/query.rs:241 | the row count is the number of whole rows after the header: they fit in the file and one more would not |
| `ScanSpec.ToRead` | src/query.rs:249 | a window reads at most rows-per-window rows, stays within the file, and reads at least one row while rows remain |
| `ScanSpec.Window` | src/query.rs:253 | a window lists the consecutive ordinals from its start |
| `ScanSpec.ScanOrdinals` | src/query.rs:248-286 | every ordinal the scan visits is a row of the file |
| `ScanSpec.Ordinals` | src/query.rs:248-286 | every ordinal the whole scan visits is a row of the file |
| `ScanSpec.ScanOrdinalsPrefix` | src/query.rs:248-286 | the ordinals of fewer windows begin those of more |
| `ScanSpec.VisitedStep` | src/query.rs:253-283 | one more row of a window adds its ordinal |
| `ScanSpec.VisitedEnds` | src/query.rs:253-285 | a window starts where the previous windows end and ends where the next begins |
| `ScanSpec.VisitedPrefix` | src/query.rs:248-286 | the ordinals visited so far begin the whole scan |
| `ScanSpec.ScanCoversEveryRow` | src/query.rs:248-286 | every row of the file is visited |
| `ScanSpec.SingleRowWindows` | src/query.rs:248-286 | with one row per window every row is visited once, in order |
| `ScanSpec.WideRowsScannedOnce` | src/query.rs:243-286 | rows wider than 40960 bytes are each visited once, in order |
| `ScanSpec.ScanRereadsRows` | src/query.rs:285 | with two or more rows per window the start advances by one row, so row 1 is visited twice and the scan lists more ordinals than rows per window |
| `ScanSpec.RowStartIs` | src/query.rs:252-254 | row o starts at header + o * size |
| `ScanSpec.RowBytes` | src/query.rs:254 | a row inside the file is exactly one row size long |
| `ScanSpec.RowsFit` | src/query.rs:241 | every row below the row count lies inside the file |
| `ScanSpec.RowInside` | src/query.rs:241 | the first n rows lie inside the file |
| `ScanSpec.CheckRow` | src/query.rs:257-272 | a checked row maps exactly the header names |
| `ScanSpec.CheckRowOutcome` | src/query.rs:258-269 | the check succeeds exactly when there are at least as many values as headers and each has its header's variant; a variant mismatch fails with "unmatching stuff", and too few values fail with "missing stuff" |
| `ScanSpec.CheckRowValues` | src/query.rs:258-271 | with distinct header names, each name maps to the value at its position |
| `ScanSpec.CheckRowStopsAtError` | src/query.rs:262-268 | the first failing header decides the check |
| `ScanSpec.ReadRow` | src/query.rs:254-272 | a row that does not deserialise fails; a row that reads carries the container's header map and maps exactly the header names |
| `ScanSpec.CollectRows` | src/query.rs:253-283 | a successful read loop has one entry per visit, each carrying its ordinal, in order |
| `ScanSpec.CollectRowsOutcome` | src/query.rs:253-283 | collecting succeeds exactly when every row reads, and then holds each row with its ordinal, in order |
| `ScanSpec.CollectRowsStopsAtError` | src/query.rs:278-280 | the first failing row decides the scan |
| `ScanSpec.MatchIds` | src/query.rs:292-300 | no more ordinals are kept than rows |
| `ScanSpec.MatchIdsOutcome` | src/query.rs:292-300 | matching succeeds exactly when every predicate call succeeds, and then keeps exactly the ordinals of the matching rows |
| `ScanSpec.MatchedRowKept` | src/query.rs:293-294 | a matching row's ordinal is kept |
| `ScanSpec.MatchedSource` | src/query.rs:293-294 | every kept ordinal comes from a matching row |
| `ScanSpec.MatchIdsStopsAtError` | src/query.rs:293 | the first failing predicate decides the result |
| `ScanSpec.FlattenAppend` | src/query.rs:296 | pushing a page appends its ids to the page contents |
| `ScanSpec.Paginate` | src/query.rs:289-303 | every page names the container and holds 1 to 100 ids |
| `ScanSpec.PaginateShape` | src/query.rs:289-303 | the pages hold the ids in order, number ceil(n / 100), carry the container name, hold 1 to 100 ids, and all but the last hold exactly 100 |
| `ScanSpec.PaginateFromBucket` | src/query.rs:292-303 | full pages plus a part-filled bucket paginate to those pages plus the bucket, if it is not empty |
| `ScanSpec.TypesOf` | src/query.rs:288 | the query's column types are the container values' types, in order |
| `ScanSpec.SearchResult` | src/query.rs:235-308 | a successful `search` is a new query on page 0 with the given id, no rows or names, the trimmed types of the container values, and pages of 1 to 100 ids from this container |
| `ScanSpec.SearchFails` | src/query.rs:235-308 | `search` fails exactly when a row fails to read or check, or the predicate fails on one |
| `ScanSpec.SearchFindsMatches` | src/query.rs:235-308 | an ordinal is in the pages exactly when it is a row of the file that reads and matches |
| `ScanSpec.MatchedRowListed` | src/query.rs:248-300 | every row of the file that reads and matches is listed |
| `ScanSpec.ListedRowMatched` | src/query.rs:248-300 | every listed ordinal is a row of the file that reads and matches |
| `ScanSpec.TotalRowsBound` | src/query.rs:241 | there are no more rows than file bytes |

## Left out

- The float, base64, hashing and randomness libraries are parameters:
  - `FloatOps`: float parsing, formatting, casts and f64 `==`;
  - `Base64`: the encoding between bytes and text;
  - `KeyOps`: `DefaultHasher`, `is_nan` and `abs() as u64`;
  - the query id that `generate_secure_code` draws is passed in.
  Their properties are not modelled.
- AlbaTypes.TruncateOrPadString: the panic of `&s[..max_len]` on a cut inside a character is
  None here. The source aborts the task there instead of returning.
- AlbaTypes.ToFixedString: turns that panic into an error of kind `Panicked`
  (`AlbaTypes.CHAR_BOUNDARY_PANIC`). So does `AlbaTypes.TryFromExisting`, for fixed-string targets.
- AlbaTypes.TruncateOrPadStringIdempotent: fitting is idempotent only for ASCII text. The
  length test counts UTF-8 bytes and the padding counts characters. Padded non-ASCII text is
  therefore cut again, and cut non-ASCII text is padded again.
- AlbaTypes.FixedStringIdempotent: the same holds for fixed-string columns. Only ASCII text
  converts back to itself.
- AlbaTypes.CoercedValueFillsColumn: fixed text fills its column exactly only when it is ASCII;
  padded non-ASCII text takes more bytes than the column reserves.
- The matchers for comments, subcommands, groups, numbers, quoted strings and base64 bytes are
  parameters of the driver (`Lexer.OtherMatchers`), not models of their code. The lemmas about a
  whole turn assume only that each stays idle unless the dough starts with its lead character
  (`Lexer.Guarded`). Subcommands lex their inner text and may fail, and
  that error propagates.
- Case mapping covers the ASCII letters only. Rust's Unicode `to_uppercase` and `to_lowercase`
  also map non-ASCII letters, and can change a text's length. Whitespace is the full Unicode
  White_Space set, as `str::trim` uses it.
- AlbaTypes.Size: `MAX_STR_LEN` lives in `database.rs`, which is not part of this model. It is
  a parameter.
- AlbaTypes.TryFromToken: the error message for an unsupported token uses Debug formatting.
  It is a parameter (`debug`).
- File I/O is modelled as sequences. Files are byte sequences, and the index file is a sequence
  of 16-byte slots. Open, exists, create, size and sync are left out.
- File I/O errors are left out. The `unwrap` panics are not modelled as errors.
- `create_index` and the file checks of `load_index` are left out.
- The background flush task, the locks and `Arc` are left out. The `changes` flag is kept, and
  nothing clears it.
- Indexing.Index.Load: requires that the index file hold every chunk the metadata file names.
  On other files the source panics on a later read.
- Indexing.Index.Remove: requires the same consistency (`Valid`), which every other operation
  preserves.
- Indexing.Index.Search: requires the same consistency (`Valid`).
- IndexSpec.AddThenSearchFinds requires room in the accepting chunk and no overflow of
  `arg + 4096`. The lemmas `FullChunkSpills` and `AddWrapsAtTop` show what happens otherwise.
- `groups.sort()` in `search` is not modelled as a separate step, because the selected chunk
  indices are already ascending.
- Queries.Search requires a non-zero row size and a header that fits in the file. Otherwise
  the source divides by zero or underflows.
- ScanSpec.RowBytes: a row that runs past the end of the file gives no bytes, where the
  source's read would fail. Every ordinal the scan visits lies inside (`ScanSpec.RowsFit`).
- `Container::deserialize_row`, `QueryConditions::row_match` and `Container::get_rows` are
  parameters. So is the `Database` container map. The `get_rows(i, i + 1)` bound `i + 1` is
  unbounded here, so the `u64` overflow at `u64::MAX` is not modelled.
- Lexer.LexSpec: its blank-input ensures states only the `input == []` direction. The other
  failures are stated by `Lexer.Finish` and `Lexer.BlankInputFails`.
- Logging, `println!`, the AST declarations and `main()` are left out.
