# pokestring: the character-table codec and the assembly preprocessor

This Dafny project models the core of pyagb's `pokestring` package:

- **The prefix tree `Triemap_node`.** It is modelled as the class `Trie.Trie`, an arena of nodes updated in place.
  - `insert` walks the key, creates the missing children and stores a value only where none is stored yet.
  - `get_longest_prefix` is the greedy lookup that falls back to the deepest node on the stream's path that carries a value.
  - The abstract view `Contents()` is the map from stored keys to their values.
  - Every operation is proved against that map.
- **The codec `Pstring`.** It is modelled as the class `Pstring.Pstring`.
  - Its constructor inserts the entries of a character table, in file order, into a characters-to-bytes trie and a bytes-to-characters trie.
  - `ParseTable` is the parser of the table text: comments after `@`, blank lines, the key before the last `=` with its quotes removed, and the hexadecimal bytes after it.
  - `str2hex` (`Str2Hex`) and `hex2str` (`Hex2Str`) are the cursor loops.
  - Both loops are proved equal to a greedy scan, `Tokenize`, over the stored map. `hex2str` reads only the bytes before the first terminator.
- **The preprocessor `preprocasm`.**
  - `splitlines_continued` (`SplitlinesContinued`, specified by `Continued`) joins backslash-continued lines.
  - `process_string` (`ProcessString`) checks the quotes of a literal and encodes the text between them.
  - `preprocess_assembly` (`PreprocessAssembly`, specified by `Preprocess` and `LineOutput`) dispatches each logical line:
    - a blank line;
    - a line passed through unchanged;
    - the `.string`, `.autostring` and `.stringpad` directives, filtered by language and emitted as `.byte` lines.

Each file holds one module:

- `wrappers.dfy`: `Option` and `Result`.
- `strings.dfy`: the Python string and integer operations that the source uses, namely `strip`, `split()`, `split(sep)`, `splitlines`, `join`, `replace(c, "")`, `int(_, 16)`, `int(_, 0)` and `str`.
- `trie.dfy`: the trie.
- `pstring.dfy`: the codec and the table parser.
- `preprocasm.dfy`: the preprocessor.

Bytes are unbounded natural numbers, because `int(b, 16)` is not limited to 255 in the source either. A ROM is a sequence of them.

**Zero-length matches.** A match of length 0 is reported as the error `NoProgress` instead of looping.
- This happens when the empty key carries a value.
- A table line without `=` stores its bytes under the empty key.
- The source loops forever in `str2hex` in this case.
- `hex2str` never meets it with a parsed table: every entry has at least one byte, so the empty byte sequence is never stored (`DecodeParsedTable`).
- A position where no key at all matches is the error `Unmapped`. The source fails there with a `TypeError` on `+= None`.

## Model

| member | source | states |
|---|---|---|
| Trie.InsertFirst | pokestring/pstring.py:18-29 | inserting a key adds it to the stored keys; its value is the one stored before if there was one, else the new value; every other key keeps its value |
| Trie.FirstWinsKeys | pokestring/pstring.py:18-29 | after a sequence of insertions a key is stored exactly when some insertion used it |
| Trie.FirstWinsValue | pokestring/pstring.py:18-29 | the value stored for a key is the one of the first insertion of that key |
| Trie.LongestMatch | pokestring/pstring.py:31-58 | the result length is at most the stream length; a present value is the stored value of the prefix of that length; an absent value comes with length 0 and no stored prefix at all; no longer prefix is stored |
| Trie.LongestMatchUnique | pokestring/pstring.py:31-58 | any (value, length) with those properties is `LongestMatch`, so a longer path without a value never hides a shorter stored key |
| Trie.Trie.constructor | pokestring/pstring.py:12-16 | a fresh trie is well formed and stores nothing |
| Trie.Trie.Insert | pokestring/pstring.py:18-29 | the trie stays well formed and its stored map becomes `InsertFirst` of the old one: the first insertion of a key wins and all other keys are unchanged |
| Trie.Trie.Child | pokestring/pstring.py:24-27 | the child under the next unit exists afterwards, reached by the extended path, and the stored map is unchanged |
| Trie.Trie.LongestPrefixFrom | pokestring/pstring.py:31-58 | the returned length lies between the depth of the current node and the length of the stream |
| Trie.Trie.LongestPrefixFromDeepest | pokestring/pstring.py:31-58 | the walk `LongestPrefixFrom` from the node at `depth` returns the value held by the node of the prefix of the returned length; an absent value returns `depth` itself, whose node holds none; no node deeper on the stream's path holds a value |
| Trie.Trie.NoDeeperKey | pokestring/pstring.py:44-46 | when the next unit has no child, no prefix longer than `depth` is a path of the trie |
| Trie.Trie.LongestPrefix | pokestring/pstring.py:31-58 | the lookup from the root at depth 0 is exactly the longest stored prefix of the stream, `LongestMatch` |
| Strings.Strip | pokestring/pstring.py:79 | the result is a slice of the line with only whitespace before and after it; it is empty exactly when the line is all whitespace, and otherwise neither starts nor ends with whitespace |
| Strings.BeforeFirst | pokestring/pstring.py:82 | the result is a prefix without `@`, followed in the line by `@` unless it is the whole line |
| Strings.SplitAtLast | pokestring/pstring.py:86-87 | with an `=` the line is the left side, `=` and a right side without `=`; without one the left side is empty and the right side is the line |
| Strings.SplitAtLastUnique | pokestring/pstring.py:86-87 | any cut of a text into a left side, `=` and a right side without `=` is the one `SplitAtLast` makes |
| Strings.SplitOn | pokestring/pstring.py:91 | at least one part, none contains the separator, and joining them with it gives the text back |
| Strings.SplitOnJoin | pokestring/pstring.py:91 | splitting at a separator undoes joining with it parts that do not contain it |
| Strings.Remove | pokestring/pstring.py:90 | the character no longer occurs and every other character occurs exactly as often as before |
| Strings.RemoveAppend | pokestring/pstring.py:90 | removal works piece by piece, so the remaining characters keep their order |
| Strings.Split | pokestring/preprocasm.py:30 | every token is non-empty and free of whitespace |
| Strings.SplitNone | pokestring/preprocasm.py:30-32 | a line has no tokens exactly when it is all whitespace |
| Strings.SplitJoin | pokestring/preprocasm.py:35 | splitting words joined by single spaces gives the words back |
| Strings.SplitLines | pokestring/pstring.py:78 | no line contains a line break, and there are no lines exactly when the text is empty |
| Strings.SplitLinesBreak | pokestring/pstring.py:78 | a line without breaks, then `\r\n` or one other break, is the first line, and the text after the break gives the rest; `\r\n` is one break |
| Strings.SplitLinesJoin | pokestring/pstring.py:78 | for a text whose only line breaks are `\n`, the lines joined with `\n` give the text back, short of a final `\n` |
| Strings.ParseHex | pokestring/pstring.py:91 | a token parses exactly when it is a non-empty run of hexadecimal digits |
| Strings.Decimal | pokestring/preprocasm.py:39 | `str(n)` is a non-empty run of decimal digits without a leading zero |
| Strings.ParseInt0 | pokestring/preprocasm.py:43-44 | a parsed integer comes from a non-empty text; it is at most 0 after a leading `-` and at least 0 otherwise |
| Strings.ParseInt0Prefixed | pokestring/preprocasm.py:43-44 | after `0x`, `0o` or `0b` the rest is read as digits of base 16, 8 or 2, and the parse fails when there are none or one is not a digit of that base |
| Strings.ParseInt0Signed | pokestring/preprocasm.py:43-44 | a leading `+` keeps the value of an unsigned literal and a leading `-` negates it |
| Strings.DecimalParses | pokestring/preprocasm.py:39 | `int(str(n), 0)` is `n` |
| Pstring.TokenizeCovers | pokestring/pstring.py:118-140 | a successful scan cuts the text from the cursor on into non-empty stored keys, each with its stored value |
| Pstring.TokenizeFails | pokestring/pstring.py:133-134 | a failed scan names a position in the text where no non-empty key matches; it is `Unmapped` exactly when the empty key is not stored |
| Pstring.TokenizeUnmappedAtCursor | pokestring/pstring.py:133-134 | the scan fails with `Unmapped` at the cursor exactly when no stored key, not even the empty one, starts there |
| Pstring.EncodeResult | pokestring/pstring.py:115-140 | a successful `str2hex` is the values of a cut of the text into stored keys followed by one terminator; the empty text gives the terminator alone |
| Pstring.EncodeKey | pokestring/pstring.py:133-138 | a text that is itself a non-empty stored key encodes to that key's bytes and the terminator |
| Pstring.EncodeUnmapped | pokestring/pstring.py:133-134 | a text with no stored prefix, not even the empty one, fails with `Unmapped(0)` and emits nothing |
| Pstring.LongestKeyWins | pokestring/pstring.py:92 | with the table `A = 01`, `AB = 02`, the text `AB` encodes to `[0x02, 0xFF]` |
| Pstring.NextTerminator | pokestring/pstring.py:100 | the first terminator at or after the offset |
| Pstring.DecodeAtTerminator | pokestring/pstring.py:100 | `hex2str` at a terminator is the empty string |
| Pstring.DecodeResult | pokestring/pstring.py:95-112 | a successful `hex2str` is the values of a cut of the bytes between the offset and the first terminator into stored keys; no key contains the terminator |
| Pstring.ParseHexTokens | pokestring/pstring.py:91 | either every token parses and the bytes are their values in order, or the error names a token that does not parse |
| Pstring.ParseLine | pokestring/pstring.py:79-91 | a parsed entry has a key without `'` or `"` and at least one byte |
| Pstring.ParseLineEntry | pokestring/pstring.py:79-91 | a line `key = w1 w2 ...` with hexadecimal words and no `@` parses to the key stripped and without quotes, and to the words' values in order; the key may hold `=` |
| Pstring.ParseLineNoKey | pokestring/pstring.py:86-91 | a line without `=` that gives an entry gives the empty key, with its whole uncommented text read as the bytes |
| Pstring.CommentDropped | pokestring/pstring.py:81-83 | everything from the first `@` on is ignored: the line parses as the text before it |
| Pstring.BlankLine | pokestring/pstring.py:84 | a blank line contributes no entry |
| Pstring.ParseLines | pokestring/pstring.py:78-91 | an error names a line from the starting index on; there are no more entries than lines |
| Pstring.ParseLinesFirstError | pokestring/pstring.py:78-91 | the lines parse exactly when each of them does; otherwise the error is the first failing line and its rejected token |
| Pstring.ParseLinesEntries | pokestring/pstring.py:84-91 | every entry comes from one of the lines, and every line with an entry contributes it |
| Pstring.ParseLinesSplit | pokestring/pstring.py:78-91 | the entries are in line order: those from line `i` on are the entries of lines `i` to `k - 1` followed by those from line `k` on |
| Pstring.LineEntryIndex | pokestring/pstring.py:78-91 | the entry of a line sits in the table right after the entries of the lines before it, and only those precede it |
| Pstring.ParseTable | pokestring/pstring.py:78-91 | an error names one of the text's lines; there are no more entries than lines |
| Pstring.ParseTableLines | pokestring/pstring.py:78-91 | a table text parses exactly when each of its `splitlines()` lines does, a failure names the first bad line, and the entries are exactly those of its lines |
| Pstring.CharPairs | pokestring/pstring.py:92 | the pairs inserted into `char_to_hex` are the entries' (key, bytes) in file order |
| Pstring.BytePairs | pokestring/pstring.py:93 | the pairs inserted into `hex_to_char` are the entries' (bytes, key) in file order |
| Pstring.TableOrder | pokestring/pstring.py:92 | the first entry with a key decides the bytes stored for it |
| Pstring.TableOrderBytes | pokestring/pstring.py:93 | the first entry with a byte sequence decides the characters stored for it |
| Pstring.FirstLineWins | pokestring/pstring.py:78-92 | the first line of the table text whose entry has a given key decides the bytes `char_to_hex` stores for that key |
| Pstring.FirstLineWinsBytes | pokestring/pstring.py:78-93 | the first line of the table text whose entry has a given byte sequence decides the characters `hex_to_char` stores for it |
| Pstring.ParsedTableNoEmptyBytes | pokestring/pstring.py:78-93 | after a table text parses, `hex_to_char` does not store the empty byte sequence |
| Pstring.DecodeParsedTable | pokestring/pstring.py:95-112 | with the bytes-to-characters map of a parsed table, `hex2str` fails only where no stored key matches, never with a zero-length match |
| Pstring.AddEntry | pokestring/pstring.py:92-93 | one entry goes into both tries, each with first-insertion-wins |
| Pstring.BuildTries | pokestring/pstring.py:78-93 | the two fresh tries store the table's entries inserted in file order |
| Pstring.Pstring.constructor | pokestring/pstring.py:65-93 | the codec's tries store the entries inserted in file order, and the terminator is the one given |
| Pstring.FromTable | pokestring/pstring.py:65-93 | a table with a bad hex token fails with that error; otherwise the codec holds the tries of its entries |
| Pstring.Pstring.Str2Hex | pokestring/pstring.py:115-140 | the loop computes `Encode` of the stored characters-to-bytes map |
| Pstring.Pstring.Hex2Str | pokestring/pstring.py:95-112 | the loop computes `Decode` of the stored bytes-to-characters map: the scan of the bytes before the first terminator |
| Preprocasm.SplitlinesContinued | pokestring/preprocasm.py:67-73 | the loops compute `Continued` of the physical lines |
| Preprocasm.JoinContinuation | pokestring/preprocasm.py:71-72 | the inner loop ends on a line without a trailing backslash and leaves `Continued` of the remaining lines unchanged, or reports that the last physical line still ends in a backslash |
| Preprocasm.ContinuedNoBackslash | pokestring/preprocasm.py:71-73 | no logical line ends with `\` |
| Preprocasm.ContinuedFewer | pokestring/preprocasm.py:69-73 | there are never more logical lines than physical ones |
| Preprocasm.ContinuedSplit | pokestring/preprocasm.py:69-73 | once a prefix of the physical lines is joined with nothing pending, the rest is joined on its own and its logical lines follow the prefix's |
| Preprocasm.ContinuedYields | pokestring/preprocasm.py:69-73 | a physical line without a trailing `\` that follows a complete logical line is yielded unchanged as the next logical line |
| Preprocasm.ContinuedFirst | pokestring/preprocasm.py:69-73 | a first physical line without a trailing `\` is yielded unchanged as the first logical line |
| Preprocasm.ContinuedConcat | pokestring/preprocasm.py:71-72 | when no empty line follows a continuation, the logical lines concatenate to the physical lines with each trailing `\` removed and no separator inserted |
| Preprocasm.ContinuedEmptyFollower | pokestring/preprocasm.py:71-72 | after an empty physical line the joined line still ends with `\`, and that backslash is dropped too |
| Preprocasm.ContinuedAsWritten | pokestring/preprocasm.py:67-73 | the code as written yields a prefix of the physical lines, none ending with `\`; it finishes with all of them or fails exactly at the first line that ends with `\` |
| Preprocasm.AsWrittenAgrees | pokestring/preprocasm.py:67-73 | the code as written fails exactly when some physical line ends with `\`; otherwise it and the intended generator both yield the physical lines unchanged |
| Preprocasm.AsWrittenRejectsContinuation | pokestring/preprocasm.py:72 | `a\`, `b` makes the code as written fail, and the intended generator yields `ab` |
| Preprocasm.Unquote | pokestring/preprocasm.py:77-82 | a literal is accepted exactly when it is non-empty and starts and ends with `"`; the result is the text between the quotes; an empty literal fails with `EmptyLiteral` |
| Preprocasm.UnquoteQuoted | pokestring/preprocasm.py:82 | quoting a text and unquoting it gives the text back |
| Preprocasm.ProcessQuoted | pokestring/preprocasm.py:75-82 | a quoted literal succeeds with `str2hex` of the text between the quotes, or fails with its error |
| Preprocasm.ProcessString | pokestring/preprocasm.py:75-82 | the method computes `ProcessLiteral` with the codec's stored map and terminator |
| Preprocasm.Decimals | pokestring/preprocasm.py:39 | `map(str, bytes)`, element by element |
| Preprocasm.Pad | pokestring/preprocasm.py:58 | the result has length `max(N, len)`, starts with the bytes, and holds zeros after them |
| Preprocasm.PadNoTruncation | pokestring/preprocasm.py:58 | a padding length at most the encoded length leaves the bytes unchanged, with no error |
| Preprocasm.LineOutput | pokestring/preprocasm.py:30-61 | a line emits nothing or text ending with the line separator; only a directive line can fail or emit nothing, and it emits nothing only when its language token is not the target |
| Preprocasm.BlankLineOutput | pokestring/preprocasm.py:32-33 | a line without tokens emits exactly one line separator |
| Preprocasm.PassThrough | pokestring/preprocasm.py:60-61 | a line whose first token is not a directive is emitted verbatim with a line separator |
| Preprocasm.OtherLanguage | pokestring/preprocasm.py:34-59 | a directive for another language emits nothing or fails on a malformed token, and never consults the table or the terminator |
| Preprocasm.StringOtherLanguage | pokestring/preprocasm.py:36-37 | `.string` for another language emits nothing |
| Preprocasm.AutostringOtherLanguage | pokestring/preprocasm.py:42-46 | `.autostring` for another language still needs five tokens and two integers, then emits nothing |
| Preprocasm.StringpadOtherLanguage | pokestring/preprocasm.py:53-56 | `.stringpad` for another language still needs its integer, then emits nothing |
| Preprocasm.StringLine | pokestring/preprocasm.py:34-40 | `.string` for the target language emits `.byte` and the decimals of `str2hex` of the quoted text, with the literal's words rejoined by single spaces |
| Preprocasm.StringpadLine | pokestring/preprocasm.py:52-59 | `.stringpad N` for the target language emits the encoding padded with zeros to `N` bytes |
| Preprocasm.ByteTextReadsBack | pokestring/preprocasm.py:38-40 | the emitted `.byte` line splits into `.byte` and one decimal word per byte, each of which parses back to that byte |
| Preprocasm.AutostringKeepsTokens | pokestring/preprocasm.py:42 | the intended `.autostring` literal splits back into every token after the height |
| Preprocasm.AutostringAsWrittenSpacesOut | pokestring/preprocasm.py:42 | as written, the literal `"ab"` becomes `" a b "` and encodes ` a b `; the intended literal encodes `ab` |
| Preprocasm.TranslateFirstError | pokestring/preprocasm.py:24-61 | the first line that fails decides the error; later lines do not change it |
| Preprocasm.TranslateLine | pokestring/preprocasm.py:30-61 | the loop body computes `LineOutput` for one logical line |
| Preprocasm.TranslateLines | pokestring/preprocasm.py:24-61 | the loop over the logical lines computes `Translate`: their outputs concatenated in order, or the error of the first line that fails |
| Preprocasm.PreprocessAssembly | pokestring/preprocasm.py:24-61 | the method computes `Preprocess`: the outputs of the logical lines in order, the first line error, or the dangling-continuation error after all lines before it |

## Left out

- File I/O is left out. The table, the assembly source and the output file are strings in memory (pokestring/pstring.py:70-71, pokestring/preprocasm.py:20-21 and 63-64).
- `agb.agbrom` is not part of this model. A ROM is a sequence of byte values, and `u8(i)` is indexing.
- Pstring.Pstring.Hex2Str: requires a terminator at or after the offset. Without one, the source reads past the end of the ROM object, which is not modelled.
- Strings.ParseHex: accepts only a non-empty run of hexadecimal digits. Python's `int(b, 16)` also accepts a sign, a `0x` prefix, underscores and surrounding whitespace.
- Strings.ParseInt0: models a sign, the `0x`, `0o` and `0b` prefixes and decimals without a leading zero. It leaves out underscores and surrounding whitespace.
- `os.linesep` is fixed to `"\n"`. `rstrip(os.linesep)` is left out, because `splitlines` leaves no line break in a line.
- Preprocasm.LineOutput: the `.autostring` branch uses the intended literal, the tokens from the fifth on joined by single spaces (see Findings), not `" ".join(tokens[4])` as written. For `.autostring` lines the model therefore does not reproduce the code: `"ab"` encodes as `ab` rather than ` a b `, and a literal spread over several tokens is accepted rather than rejected. `AutostringLiteralAsWritten` models the code as written.
- `format.format_pstring` is not part of this model. `.autostring` takes it as the function parameter `fmt`, and its own failures are not modelled.
- The `char` field of `Triemap_node` is never read, so it is not modelled.
- `insert` recurses down the trie; the arena model walks the same path with a loop.
- `Trie.Trie.LongestPrefix` takes the stream as the sequence of units read before the stream function returns `None`. It does not take a callback.
- Table errors are reported per line as `BadHexToken`. The source inserts the entries before the bad line and then raises, so no codec object is ever returned.
- The documented error taxonomy differs from the code, and the model follows the code:
  - A table line without `=` is not rejected. Its key is empty.
  - `.stringpad` never fails when the encoding is longer than `N`. It neither truncates nor reports an overflow.
- `decode(encode(x)) == x` is not claimed. It fails for tables where one byte sequence belongs to several keys, or where a key's bytes contain the terminator.
- Concurrency is not modelled; the source is single-threaded.
- Floating point and foreign calls do not occur in the core.

## Findings

| source | as written | input that shows it | evidently intended | confidence | as-written member | corrected member |
|---|---|---|---|---|---|---|
| pokestring/preprocasm.py:72 | `next(input)` is called on the input `str`, which is not an iterator, so any physical line ending in `\` raises `TypeError` | physical lines `a\` and `b` | the next physical line is appended, as the docstring says, and a backslash on the last line is an error | high, not executed | Preprocasm.ContinuedAsWritten, Preprocasm.AsWrittenRejectsContinuation | Preprocasm.SplitlinesContinued, Preprocasm.ContinuedConcat |
| pokestring/preprocasm.py:42 | `" ".join(tokens[4])` joins the characters of one token with spaces and drops any later tokens | `.autostring EN 10 2 "ab"` encodes ` a b ` | `" ".join(tokens[4:])`, as `.string` and `.stringpad` form their literals | high, not executed | Preprocasm.AutostringLiteralAsWritten, Preprocasm.AutostringAsWrittenSpacesOut | Preprocasm.AutostringLiteral, Preprocasm.AutostringKeepsTokens |
