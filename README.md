# emoji — a verified model of the Unicode emoji table loader

The Go package `emoji` downloads `emoji-sequences.txt` from the Unicode
consortium. It reads the file line by line and turns every data line into one
or more `Emoji` values. An `Emoji` is a list of runes (Unicode code points).
The package caches the whole list in memory and can pick a random emoji from
it. This project models that package in Dafny and proves properties of the
model:

- `Emoji.ExtractRunes` models `extractRunes`, the parser for a space-separated
  code-point sequence such as `00A9 FE0F`.
- `Emoji.ExpandCodePointRange` models `expandCodePointRange`, the expander
  for a range such as `1F334..1F335`.
- `Emoji.ParseEmoji` models `parseEmoji`, which handles one line of the
  table.
- `Emoji.ParseLines` models the scanning loop of `downloadAndParseEmojis`.
  It skips comment lines and blank lines. It drops lines that fail to parse
  and appends the emojis of every other line.
- `Emoji.DownloadAndParseEmojis` models the outcome of the HTTP exchange. The
  exchange itself is a value of type `Response`: transport failure, status
  code, body lines, and whether reading the body failed.
- `Emoji.Catalog` models the package-level cache `emojiCache` together with
  `AllEmojis` and `RandomEmoji`.
- `Emoji.Emoji.String` models `Emoji.String`, Go's `string([]rune)`
  conversion, as UTF-8 encoding following RFC 3629.

Each imperative Go function is a Dafny `method` with the Go loop in it. The
method's postcondition ties its result to a specification function
(`CodePoints`, `Expansion`, `ParsedLine`, `Table`, `Download`). The
properties worth knowing are proved about those functions as lemmas.

The parts of the Go standard library the core relies on are modelled
separately, because their edge cases decide what the parser does:

- `wrappers.dfy` holds `Option` and `Result`.
- `gostrings.dfy` holds `strings.TrimSpace`, `Index`, `Split` and
  `HasPrefix`, with `unicode.IsSpace` over the Unicode White_Space code
  points.
- `hexparse.dfy` holds `strconv.ParseInt(s, 16, 32)`, including the optional
  sign, the syntax-before-range order of its errors and the 32-bit bounds.
- `utf8.dfy` holds UTF-8 encoding and decoding of runes. Go writes a rune
  that is not a Unicode scalar value as U+FFFD.
- `emoji_examples.dfy` proves the test cases of `emoji_test.go` against the
  model. The seven-token field of the flag case is stated as its tokens
  joined by single spaces, which is how the test's literal is formed.

Decisions where the code and its own documentation disagree. In each case the
model follows the code:

- `expandCodePointRange` stops its loop when `current == end`. The range is
  therefore half-open, while its doc comment and its tests expect
  `231A..231B` to give both runes. See "## Findings". The model keeps the
  half-open behaviour in the main chain and adds the inclusive version
  beside it.
- The tests refer to an `ErrInvalidCodePoint` sentinel and to error wordings
  that `emoji.go` never produces. Errors are therefore modelled as the
  datatype `ParseError`, one constructor per kind of error.
- The comment test is `strings.HasPrefix(line, "#")` on the raw line. A line
  that has white space before its `#` is therefore not a comment and goes to
  the parser. If it contains a `;`, its code-point field fails to parse and
  the loop drops the line. Without a `;`, Go panics; `ParseLines` excludes
  such a line through `Loadable`.
- Only the code-point field before the first `;` is parsed. The type field
  and the name field are ignored.

## Model

| member | source | states |
|---|---|---|
| Emoji.ExtractRunes | emoji.go:123-140 | The method agrees with `CodePoints`. It succeeds iff the input has no `.` and every space-separated token parses as a 32-bit hex integer. On success the i-th rune is the value of the i-th token. On failure no runes are returned, and a `.` gives `RangeNotSupported`. |
| Emoji.DecodeTokens | emoji.go:129-137 | The result is a success iff every token parses. The decoded list then has one rune per token, each the value of its token. |
| Emoji.DecodeTokensFailure | emoji.go:132-135 | A failed decode reports the first token that does not parse, with that token's own `ParseInt` error. |
| Emoji.DecodeTokensFirstBad | emoji.go:131-135 | If token i is the first that fails, the decode fails with exactly that token and its error. The loop returns at the first error. |
| Emoji.CodePointsOfJoin | emoji.go:123-140 | Tokens free of spaces and `.`, joined by single spaces, decode to exactly what the tokens decode to. |
| Emoji.AllParseCons | emoji.go:131-137 | Every token of a non-empty list parses iff its head parses and every token of its tail parses. |
| Emoji.ExpandCodePointRange | emoji.go:143-166 | The method agrees with `Expansion`. Anything but two `..` parts gives `NotARange`. A bad start is reported before a bad end, each with its own token. Otherwise the result is `start, start+1, …, end-1`: end - start runes. |
| Emoji.CountUp | emoji.go:158-163 | The counting loop returns exactly `HalfOpen(first, end)`. |
| Emoji.HalfOpen | emoji.go:158-163 | The list has hi - lo elements and the k-th element is lo + k. |
| Emoji.ExpansionExcludesEnd | emoji.go:158-163 | A successful expansion never contains its end point. It starts at the start point when start < end, and it is empty when start == end. |
| Emoji.ExpansionValues | emoji.go:144-165 | A successful expansion came from two parts that both parse. It holds end - start runes, the k-th being start + k. |
| Emoji.Closed | emoji.go:142 | The closed range lo..hi has hi - lo + 1 elements, the k-th being lo + k. It is empty when lo > hi. |
| Emoji.ExpandCodePointRangeInclusive | emoji.go:142-166 | The corrected expander agrees with `InclusiveExpansion`. On success with start <= end it returns end - start + 1 runes, the first being start and the last end. With start > end it returns none, where the original loops forever. |
| Emoji.CountUpThrough | emoji.go:158-163 | The inclusive counting loop returns exactly `Closed(first, end)`. |
| Emoji.ClosedIsHalfOpenPlusEnd | emoji.go:158-163 | For lo <= hi, the closed range is the half-open range followed by hi. |
| Emoji.InclusiveExpansionAddsEnd | emoji.go:143-166 | The corrected expander fails exactly when the original does, with the same error. Otherwise it returns the original's runes with the end point appended. |
| Emoji.ParseEmoji | emoji.go:94-120 | For a line containing `;`, the method returns what `ParsedLine` prescribes for the trimmed text before the first `;`. |
| Emoji.ParseCodePointField | emoji.go:99-120 | The method agrees with `ParsedField`. Without a `.` it returns one emoji holding `extractRunes`'s result, still present beside an error. With a `.` it returns one single-rune emoji per expanded rune, or nothing on error. |
| Emoji.SingleRuneEmojis | emoji.go:112-118 | The loop returns one emoji per rune: the k-th emoji holds exactly the k-th rune. |
| Emoji.CodePointFieldOf | emoji.go:95-97 | When `before` has no `;`, the code-point field of `before + ";" + after` is `TrimSpace(before)`, whatever `after` holds. |
| Emoji.ParsedSequenceMeaning | emoji.go:99-106 | A field without `.` always yields exactly one emoji. It has no error iff every token parses, and then it holds the tokens' values in order. On error the emoji has no runes. |
| Emoji.ParsedRangeMeaning | emoji.go:108-119 | A field with `.` has no error iff its expansion succeeds. On error no emojis are returned. On success there are end - start emojis, the k-th holding the single rune start + k. |
| Emoji.ParsedEmojisNonEmpty | emoji.go:99-119 | Every emoji of a successful parse has at least one rune. Every emoji from a range has exactly one. |
| Emoji.FlatMapAppend | emoji.go:71-85 | Concatenating each line's emojis distributes over concatenation of the line lists. |
| Emoji.FlatMapSources | emoji.go:71-85 | Every emoji of the concatenation comes from some line. |
| Emoji.FlatMapKeeps | emoji.go:71-85 | Every emoji of any line appears in the concatenation. |
| Emoji.FlatMapSnoc | emoji.go:71-85 | Processing one more line appends exactly that line's emojis. |
| Emoji.TableAppend | emoji.go:71-85 | The table of `a + b` is the table of `a` followed by the table of `b`. |
| Emoji.ContributionSource | emoji.go:72-84 | A line contributes an emoji only if it is not a comment, not blank, contains `;` and parses without error, and the emoji is among its parsed emojis. |
| Emoji.TableSources | emoji.go:71-85 | Every emoji in the table comes from the contribution of some line. |
| Emoji.TableKeeps | emoji.go:71-85 | Every emoji contributed by any line is in the table. |
| Emoji.TableStep | emoji.go:71-85 | The table of the first i + 1 lines is the table of the first i lines followed by line i's contribution. This is the loop invariant of the scanner loop. |
| Emoji.AppendEach | emoji.go:82-84 | The append loop returns the old list followed by all new emojis, in order. |
| Emoji.ParseLines | emoji.go:69-85 | The scanner loop returns exactly `Table(lines)`: the in-order concatenation of the contributions of the lines. |
| Emoji.Download | emoji.go:52-91 | The download has no error iff the response was received with status 200 and read without error. Every error comes with an empty list. |
| Emoji.DownloadAndParseEmojis | emoji.go:52-91 | The method agrees with `Download`: a transport failure, a status other than 200 and a read failure each give their error and no emojis. Otherwise it returns the table of the body lines. |
| Emoji.DownloadContents | emoji.go:64-90 | After a successful download, an emoji is in the result iff some body line contributes it. |
| Emoji.Catalog.constructor | emoji.go:23-26 | The cache starts empty and no download has happened. |
| Emoji.Catalog.AllEmojis | emoji.go:30-38 | A non-empty cache is returned unchanged, with no error and no download. An empty cache triggers one download, whose result, even an empty one, becomes the new cache. |
| Emoji.Catalog.RandomEmoji | emoji.go:41-49 | The cache is updated as `AllEmojis` does. A failed download is passed on with the zero `Emoji`. Otherwise the result is the cached emoji at index `pick mod len`. |
| Emoji.AllEmojisTwice | emoji.go:28-38 | A second call after a non-empty first result returns the same list without downloading. After an empty first result from an empty cache, it downloads again. |
| Emoji.StringDecodes | emoji.go:18-21 | Decoding `String()` as UTF-8 gives back the runes, each non-scalar rune replaced by U+FFFD. When all runes are scalars it gives back exactly the runes. |
| GoStrings.TrimLeft | emoji.go:97 | The result is a suffix of the input. Everything removed is white space, and the result does not start with white space. |
| GoStrings.TrimRight | emoji.go:97 | The result is a prefix of the input. Everything removed is white space, and the result does not end with white space. |
| GoStrings.TrimSpaceEmpty | emoji.go:73 | A line trims to the empty string iff it consists of white space only. |
| GoStrings.TrimSpaceInfix | emoji.go:97 | The trimmed text is a contiguous slice of the input. |
| GoStrings.TrimSpacePadded | emoji.go:97 | A field followed by any number of spaces trims back to the field itself. |
| GoStrings.Index | emoji.go:95 | The result is -1 or a position where the separator occurs, and there is no earlier occurrence. With -1 there is none at all. |
| GoStrings.IndexOfChar | emoji.go:95 | A one-character search succeeds iff the character occurs. The position found holds it, and nothing before it does. |
| GoStrings.SplitAtIndex | emoji.go:129 | If the separator occurs at position i and at no earlier position, the split is the prefix up to i followed by the split of what comes after that occurrence. |
| GoStrings.SplitAt | emoji.go:129 | The special case of `SplitAtIndex` where the separator's first character does not occur before position i. |
| GoStrings.JoinAvoids | emoji.go:129 | A character found in neither the separator nor any part is absent from the joined string. |
| GoStrings.JoinSplit | emoji.go:129 | Splitting a join gives back the parts when no part contains the separator's first character. This is the inverse of `SplitJoin`. |
| GoStrings.SplitNone | emoji.go:144 | Without the separator's first character, splitting gives the whole string as the only part. |
| GoStrings.SplitJoin | emoji.go:129 | Joining the parts of a split with the separator gives back the original string. |
| GoStrings.SplitPiecesAvoidSep | emoji.go:144 | No part of a split contains the separator. |
| HexParse.ScanDigitsMeaning | emoji.go:132 | Scanning succeeds iff all remaining characters are hex digits and the value fits in 32 unsigned bits, and then it yields the hex value. The result is a syntax error iff a non-digit is reached while the value so far still fits in 32 bits. Digits that overflow before any non-digit give a range error, as in `FFFFFFFFFG`. |
| HexParse.ParseHex32Meaning | emoji.go:132 | `ParseInt(s, 16, 32)` succeeds iff s is an optionally signed non-empty hex numeral whose value lies in [-2^31, 2^31 - 1], and then it returns that value. An empty numeral is a syntax error, and a well-formed one out of range is a range error. |
| HexParse.ParseHex32SyntaxError | emoji.go:132 | `ParseInt(s, 16, 32)` fails with a syntax error iff the numeral after the sign is empty or has a non-digit before its value overflows. Every other failure is a range error. |
| HexParse.ParseHex32BadDigit | emoji.go:149 | A non-hex character reached before the value overflows makes the parse a syntax error. |
| HexParse.ParseHex32IgnoresCase | emoji.go:132 | Upper-casing the input does not change the parse. `23f0` and `23F0` are the same code point. |
| HexParse.FormatHexValue | emoji.go:132 | The hex rendering of v is a non-empty, sign-free string of hex digits whose value is v. |
| HexParse.ParseFormatHex | emoji.go:132 | Every non-negative 32-bit value survives the round trip: parsing its hex rendering gives it back. |
| HexParse.FormatHexValueOf | emoji.go:132 | A canonical upper-case numeral is the rendering of its own value. |
| HexParse.FormatParseHex | emoji.go:153 | Rendering the value of a canonical numeral that parses gives the numeral back. |
| Utf8.EncodeRune | emoji.go:20 | Every rune encodes to between one and four bytes. |
| Utf8.EncodeFrom | emoji.go:20 | The encoding from position k on is the encoding of rune k followed by the encoding of the rest. |
| Utf8.DecodeFirst | emoji.go:20 | A successful decode consumes between one byte and the whole input. |
| Utf8.DecodeEncodeRune | emoji.go:20 | Decoding the encoding of a rune, followed by anything, yields the written rune (U+FFFD for a non-scalar) and consumes exactly its encoding. |
| Utf8.Sanitize | emoji.go:20 | Sanitizing keeps the length and replaces each rune by the rune Go actually writes. |
| Utf8.DecodeEncode | emoji.go:20 | Decoding the encoding of any rune list gives back the sanitized list. |
| Utf8.DecodeEncodeScalars | emoji.go:20 | For scalar runes, decoding the encoding gives back exactly the runes. |
| Utf8.EncodeDecodeFirst | emoji.go:20 | Every well-formed UTF-8 sequence decodes to a scalar whose encoding is exactly the bytes consumed. |
| EmojiExamples.ExtractRunesRefusesRange | emoji_test.go:136-141 | `0000..0001` is refused as a range. |
| EmojiExamples.ExtractRunesSingle | emoji_test.go:142-147 | `23f0` gives the single rune U+23F0. |
| EmojiExamples.ParseHex32Examples | emoji_test.go:142-153 | `23f0` and `1F30F` parse to their values. `000G` and the empty string are syntax errors. |
| EmojiExamples.ExtractRunesPair | emoji_test.go:154-159 | `00A9 FE0F` gives U+00A9 and U+FE0F. |
| EmojiExamples.ExtractRunesInvalidHex | emoji_test.go:178-183 | `000G` fails with a syntax error for the token `000G`. |
| EmojiExamples.ExtractRunesDoubleSpace | emoji.go:129-135 | Two spaces produce an empty token, which fails to parse, so `00A9  FE0F` is rejected. |
| EmojiExamples.ExpansionOfSingle | emoji_test.go:86-89 | `23F0` is not a range. |
| EmojiExamples.ExpansionOfBadStart | emoji_test.go:91-94 | `23G0..` fails on its start token `23G0`. |
| EmojiExamples.ExpansionOfBadEnd | emoji_test.go:96-99 | `23F0..23G0` fails on its end token `23G0`. |
| EmojiExamples.ExpansionDropsRangeEnd | emoji_test.go:46-49 | As written, `231A..231B` expands to U+231A alone. |
| EmojiExamples.InclusiveExpansionKeepsRangeEnd | emoji_test.go:46-49 | The corrected expander gives U+231A and U+231B, as the test expects. |
| EmojiExamples.FastForwardExpansion | emoji_test.go:51-54 | As written, `23E9..23EC` expands to U+23E9, U+23EA and U+23EB. |
| EmojiExamples.ParseEmojiBasic | emoji_test.go:210-218 | The line `23F0` + ten spaces + `;` + any rest yields one emoji, U+23F0, without error. |
| EmojiExamples.ParseEmojiRangeDropsEnd | emoji_test.go:230-246 | As written, the fast-forward line yields three single-rune emojis where the test expects four. |
| EmojiExamples.ExtractRunesWide | emoji_test.go:147-152 | `1F30F` gives the single rune U+1F30F. |
| EmojiExamples.ExtractRunesWideAndNarrow | emoji_test.go:159-164 | `1F170 FE0F` gives U+1F170 and U+FE0F. |
| EmojiExamples.ExtractRunesKeycap | emoji_test.go:165-170 | `002A FE0F 20E3` gives U+002A, U+FE0F and U+20E3. |
| EmojiExamples.ExtractRunesFlag | emoji_test.go:171-176 | The seven flag tokens joined by spaces give the seven runes U+1F3F4, U+E0067, U+E0062, U+E0065, U+E006E, U+E0067 and U+E007F, in order. |
| EmojiExamples.ExpansionThreeByteDropsEnd | emoji_test.go:55-59 | As written, `1FAC0..1FAC2` expands to U+1FAC0 and U+1FAC1, without U+1FAC2. |
| EmojiExamples.InclusiveExpansionThreeByte | emoji_test.go:55-59 | The corrected expander gives U+1FAC0, U+1FAC1 and U+1FAC2, as the test expects. |
| EmojiExamples.ParseEmojiMahjong | emoji_test.go:219-228 | The line `1F004` + nine spaces + `;` + any rest yields one emoji, U+1F004, without error. |
| EmojiExamples.ParseEmojiNewspaperDropsEnd | emoji_test.go:248-269 | As written, the newspaper line `1F4F0..1F4F4` yields four single-rune emojis, U+1F4F0 to U+1F4F3, where the test expects five. |
| EmojiExamples.ParseEmojiInvalidRange | emoji_test.go:270-275 | The line `1F4F0..1F4FG` yields no emojis and an error naming the token `1F4FG` as a syntax error. |
| EmojiExamples.StringOfFlag | emoji_test.go:20-24 | The seven flag runes are written as seven four-byte UTF-8 sequences: F0 9F 8F B4, then F3 A0 81 followed by A7, A2, A5, AE, A7 and BF. |
| EmojiExamples.StringOfRooster | emoji_test.go:16-19 | U+1F413 is written as the bytes F0 9F 90 93. |
| EmojiExamples.StringOfSurrogate | emoji.go:19-21 | The surrogate U+D800 is written as U+FFFD (EF BF BD). |

## Left out

- The network, `http.Get`, closing the body and the logging in
  `downloadAndParseEmojis` are I/O. The model takes the outcome as a
  `Response` value: transport failure, status, body lines, and whether the
  read failed.
- `bufio.Scanner` splitting the body into lines is part of the `Response`
  value: the lines arrive already split. The scanner's 64 KiB token limit
  shows up only as the read-failure flag.
- The URL, the capacity hint 2053 and the capacity hints of `make` are
  constants with no behavioural effect. They are not modelled.
- The error messages built with `fmt.Errorf` are modelled by their
  constructor and payload (token, `ErrSyntax` or `ErrRange`), not by their
  wording. Dropping a bad line after `log.Println` is modelled; the log
  output is not.
- Emoji.Catalog.RandomEmoji: `rand.Intn` is replaced by a caller-supplied
  `pick`, and the index is `pick mod len`. Go panics on an empty list; the
  model requires that an empty cache with a successful download brings a
  non-empty list.
- Emoji.Catalog: the cache is a package-level variable with no locking in
  Go. Concurrent calls are not modelled. The ghost counter `downloads`
  records how often the loader ran.
- Emoji.ExpandCodePointRange: a range whose start exceeds its end makes the
  Go loop count up through the whole `int64` range, appending as it goes,
  so it never returns in practice. The model requires start <= end for a
  range that parses (`RangeTerminates`).
- Emoji.ParseEmoji: a line without `;` makes Go panic on `line[:-1]`. The
  model requires the `;` (`Parsable`).
- Emoji.ParseLines: it requires every non-comment, non-blank line to be
  `Loadable` (containing `;` and terminating). `Emoji.Contribution` gives
  `[]` for any other line, so the lemmas about `Table` hold for all line
  lists.
- Byte offsets and character offsets coincide in the model, because strings
  are sequences of characters. The Go code only slices at the ASCII
  character `;`, so the two agree.
- `rune(codePoint)` is a conversion from `int64` to `int32`. `ParseInt` with
  bit size 32 already keeps the value inside `int32`, so no truncation is
  modelled.
- The command-line programs under `examples/` and `printer/` (and the
  helpers they call, such as name lookup and search) are not part of this
  model.

## Findings

| source | as written | input that shows it | evidently intended | confidence | as-written member | corrected member |
|---|---|---|---|---|---|---|
| emoji.go:158-163 | the loop `for current != end` stops before appending `end`, so the range is half-open | `231A..231B` gives only U+231A; the table line `23E9..23EC ; …` gives three emojis instead of four, and `1F4F0..1F4F4 ; …` four instead of five | the range includes its end, as the doc comment on `expandCodePointRange` and the tests at emoji_test.go:46-59, 229-247 and 248-269 expect | not executed | EmojiExamples.ExpansionDropsRangeEnd | Emoji.ExpandCodePointRangeInclusive |

The table loader (`ParseEmoji`, `ParseLines`) keeps the half-open expander
so that it describes what the package returns today.
`Emoji.InclusiveExpansionAddsEnd` states exactly how the corrected expander
differs: it has the same errors and appends the end point.
