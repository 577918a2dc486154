# Route reader: balanced-delimiter scanner and route-file extractor

This project models two pure text functions of a reader for web-framework route files, and proves properties of them in Dafny.

- `braceReader` (`src/reader/utilities.ts`) makes one pass over a text. It tracks the nesting depth of one bracket pair, chosen by a value of the `Braces` enum. It returns every outermost group of that pair, either with its brackets or without them.
- `ConfigReader.configsFinder` (`src/reader/main.ts`) takes the text of a routes file. It strips triple-quoted blocks, then strips `#` comments. It then looks up the `app_name` value and returns a one-entry map. The key is that name, or `READER_FILE_PATH_<filePath>` when there is none. The value is the list of round-bracket groups found inside the square-bracket groups of the text.

Modules, one per concern of the source:

- `Utilities` (`utilities.dfy`): the glyph table `BracePairs`, the `Braces` enum as the newtype `Brace`, the scanner and `BraceReader`. The loop is modelled as `Scan(text, p, n)`: the loop variables (`incCount`, `homeIndex`, `results`) after the first `n` iterations, or the error one of those iterations threw. `ScanStep` is the loop body. A pushed group is recorded by its bounds (`Span`). `BraceReader` cuts each span out with or without its brackets, as `removeBrace` asks. It yields the same strings the loop pushes.
- `ScannerProperties` (`scanner_properties.dfy`): the scanner's results viewed as strings.
- `CommentStripping` (`comment_stripping.dfy`): the two replacements of `main.ts:20`, written as recursive functions that follow a global, leftmost, lazy regex match.
- `AppName` (`app_name.dfy`): the `app_name` pattern and `getGroupMatch`. Every way the pattern can fit a text is described by the predicate `IsMatch`. `MatchAppName` returns the one a backtracking matcher with lazy quantifiers finds first: leftmost start, then earliest opening quote, then earliest closing quote.
- `ConfigReader` (`config_reader.dfy`): `configsFinder`, built from the pieces above.
- `ReaderExamples` (`examples_from_tests.dfy`): inputs from the test suite, worked through the model.
- `Wrappers` (`wrappers.dfy`): `Option` and `Result`. A thrown `TypeError` becomes `Failure`.

Depth is measured by `Depth(text, p, n)`: the openers minus the closers of pair `p` among the first `n` characters. `StrayCloser` holds when some prefix has a negative depth. An outermost group (`TopGroup`) opens at depth 0. The depth stays positive inside the group and first returns to 0 at its closer.

## Model

| member | source | states |
|---|---|---|
| Utilities.PairOfReadsTable | src/reader/utilities.ts:1-12 | The pair selected by an opening enum value is the glyph at that index of `bracePairs` and the glyph right after it. |
| Utilities.PairOf | src/reader/utilities.ts:31 | Every opening enum value selects an opener and a closer that differ. |
| Utilities.ScanStepKeepsInv | src/reader/utilities.ts:37-62 | One loop iteration throws exactly when it takes the depth below 0. Otherwise it keeps the loop invariant: depth equals openers minus closers so far, and the recorded groups are outermost groups. |
| Utilities.CloseKeepsInv | src/reader/utilities.ts:38-51 | A closer that brings the depth back to 0 pushes the group from `homeIndex` to here. That group is an outermost group, and the opener at `homeIndex` now starts a pushed group. |
| Utilities.OpenKeepsInv | src/reader/utilities.ts:53-58 | An opener at depth 0 becomes the start of the current group. A nested opener only deepens. |
| Utilities.ScanStep | src/reader/utilities.ts:37-62 | No contract: one loop iteration on the loop variables. It is characterised by `Utilities.ScanStepKeepsInv` and `Utilities.ScanInvariant`. |
| Utilities.Scan | src/reader/utilities.ts:36-63 | No contract: the loop variables after n iterations, or the error thrown. It is characterised by `Utilities.ScanInvariant`. |
| Utilities.GroupSpans | src/reader/utilities.ts:36-65 | No contract: the groups the whole loop records, or its error. It is characterised by `Utilities.GroupSpansCharacterised`. |
| Utilities.Cut | src/reader/utilities.ts:42-43 | No contract: a recorded group cut out with or without its brackets. It is characterised by `Utilities.ReaderCuts` and `ScannerProperties.StrippedGroupsAreWholeGroupsTrimmed`. |
| Utilities.ScanUnfold | src/reader/utilities.ts:36-63 | The state after n + 1 iterations is one more iteration applied to the state after n. |
| Utilities.ScanInvariant | src/reader/utilities.ts:33-63 | After n iterations the loop has thrown exactly when some prefix up to n has more closers than openers, and then the error is the invalid-braces one. Otherwise the invariant holds: the groups are in order, every depth-0 opener so far starts a group or is the still-open current one. |
| Utilities.GroupSpansCharacterised | src/reader/utilities.ts:25-66 | The scan fails exactly on a stray closer. On success the groups are outermost groups, left to right and not overlapping. Every depth-0 opener starts a group unless its group never closes. |
| Utilities.BraceReader | src/reader/utilities.ts:25-66 | A closing enum value throws whatever the text. An opening one throws the invalid-braces error exactly when a closer meets depth 0. An unclosed opener is no error. |
| Utilities.ReaderCuts | src/reader/utilities.ts:42-43 | On success the i-th result is the text from the i-th group's opener to its closer, brackets included or not as `removeBrace` asks. |
| ScannerProperties.TopGroupIsBalanced | src/reader/utilities.ts:38-58 | An outermost group, cut out with its brackets, is balanced: opener first, closer last, equal counts, every proper non-empty prefix has more opens than closes. |
| ScannerProperties.WholeGroupsAreBalancedSubstrings | src/reader/utilities.ts:38-58 | With `removeBrace` unset, each result is the contiguous substring of the text at an outermost group. The groups are balanced, in order and not overlapping, so a nested group is never returned on its own. |
| ScannerProperties.StrippedGroupsAreWholeGroupsTrimmed | src/reader/utilities.ts:42-43 | Setting `removeBrace` changes neither whether the call throws nor the number of results. Each stripped result is the whole result without its first and last character. |
| ScannerProperties.ScanSeesOnlyGlyphs | src/reader/utilities.ts:37-61 | The loop state after n steps depends only on where the chosen pair's glyphs are. |
| ScannerProperties.OtherCharactersAreInert | src/reader/utilities.ts:37-61 | Texts with the chosen glyphs at the same offsets give the same groups or both throw. Other bracket kinds and characters are inert. |
| ScannerProperties.ScanWithoutGlyphs | src/reader/utilities.ts:36-63 | Without glyphs of the pair the loop state stays at its initial value. |
| ScannerProperties.NoGlyphsNoGroups | src/reader/utilities.ts:36-65 | A text without the chosen glyphs yields an empty list and no error. |
| ScannerProperties.ScanSkip | src/reader/utilities.ts:60-61 | Iterations over characters other than the pair's glyphs leave the loop variables unchanged. |
| ScannerProperties.ScanOfPrefix | src/reader/utilities.ts:36 | The first n iterations read only the first n characters. |
| ScannerProperties.ScanOpenTail | src/reader/utilities.ts:53-58 | After an opener, a run without closers keeps the depth positive and pushes nothing. |
| ScannerProperties.ScanFailureSticks | src/reader/utilities.ts:48-50 | Once an iteration has thrown, the call's result is that error. |
| ScannerProperties.UnclosedOpenerIsDropped | src/reader/utilities.ts:36-65 | An opener never closed (no closer after it) causes no error and no group. The result equals the result for the text cut just before that opener. |
| CommentStripping.FindTripleQuote | src/reader/main.ts:20 | Returns the first `"""` at or after an offset, or proves there is none. This is the lazy end of a block. |
| CommentStripping.StripBlockComments | src/reader/main.ts:20 | Removing `"""…"""` blocks never lengthens the text, and what is kept stays in order. |
| CommentStripping.StripBlockCommentsKeepsPlainPrefix | src/reader/main.ts:20 | A prefix without `"` is kept as it is, and the rest is stripped on its own. |
| CommentStripping.StripBlockCommentsKeepsHead | src/reader/main.ts:20 | A first character that opens no removable block is kept, and the rest is stripped on its own. This covers a `"` not followed by two more and a `"""` that nothing closes. With the leading-block lemma, this fixes the output on every input. |
| CommentStripping.StripBlockCommentsDropsLeadingBlock | src/reader/main.ts:20 | A block at the start, closed by the first `"""` after its opener, is removed whole, and the rest is stripped on its own. |
| CommentStripping.StripBlockCommentsLeavesNoBlock | src/reader/main.ts:20 | After the removal no complete `"""…"""` block remains. |
| CommentStripping.StripBlockCommentsFixpoint | src/reader/main.ts:20 | The removal changes the text exactly when it holds a complete block. Applying it twice equals applying it once. |
| CommentStripping.FindNewline | src/reader/main.ts:20 | Returns the first newline at or after an offset, or proves there is none. This is the lazy end of a `#` comment. |
| CommentStripping.StripLineComments | src/reader/main.ts:20 | Removing `#` up to and including the next newline never lengthens the text, and what is kept stays in order. |
| CommentStripping.StripLineCommentsKeepsPlainPrefix | src/reader/main.ts:20 | A prefix without `#` is kept as it is, and the rest is stripped on its own. |
| CommentStripping.StripLineCommentsKeepsHead | src/reader/main.ts:20 | A first character that opens no removable comment is kept, and the rest is stripped on its own. This covers any character other than `#` and a `#` with no newline after it. |
| CommentStripping.StripLineCommentsDropsLeadingComment | src/reader/main.ts:20 | A `#` comment at the start is removed up to and including the first newline, and the rest is stripped on its own. |
| CommentStripping.StripLineCommentsKeepsUnterminatedTail | src/reader/main.ts:20 | A tail without a newline is kept after whatever the stripping of the text before it gives. |
| CommentStripping.UnterminatedCommentKept | src/reader/main.ts:20 | A `#` with no newline after it is kept with everything after it. |
| CommentStripping.StripLineCommentsLeavesNone | src/reader/main.ts:20 | After the removal no `#` has a newline after it. |
| CommentStripping.StripLineCommentsFixpoint | src/reader/main.ts:20 | The removal changes the text exactly when some `#` has a newline after it. Applying it twice equals applying it once. |
| CommentStripping.CleanText | src/reader/main.ts:20 | The cleaned text is no longer than the input, keeps its characters in order and holds no `#` before a newline. A text without `"` and `#` is left as it is. |
| CommentStripping.CleanTextKeepsPlainPrefix | src/reader/main.ts:20 | A prefix without `"` and `#` is kept as it is in front of the cleaned rest. |
| CommentStripping.PlainTextUntouched | src/reader/main.ts:20 | A text without `"` and `#` comes out of both removals unchanged. |
| AppName.QuoteOnLine | src/reader/main.ts:4 | Finds the first quote (`'` or `"`) from an offset with no line terminator before it, or proves none is on that line. |
| AppName.MatchAt | src/reader/main.ts:4 | When the pattern fits at a start offset, returns the fit with the earliest opening quote and then the earliest closing quote. Otherwise proves no fit starts there. |
| AppName.MatchFrom | src/reader/main.ts:4 | Returns the first fit, in backtracking order, among those starting at or after an offset. Otherwise proves all fits start before it. |
| AppName.MatchAppName | src/reader/main.ts:4 | `text.match(appNamePattern)` is null exactly when the pattern fits nowhere. Otherwise it is the fit a lazy backtracking matcher finds first. |
| AppName.Capture | src/reader/main.ts:4 | No contract: the text between the two quotes of a fit, which is what the `appName` group holds. It is characterised by `AppName.AppNameMatchArray`. |
| AppName.AppNameMatchArray | src/reader/main.ts:4 | The match array exists exactly when the pattern matches. Its only group, `appName`, holds the text between the two quotes. |
| AppName.GetGroupMatch | src/reader/main.ts:9-14 | Returns the named group's value when the match has it and it is non-empty, and otherwise the fallback. The result is empty only if the fallback is. |
| ConfigReader.AppNameKey | src/reader/main.ts:22-26 | The key is the first match's capture when that is non-empty. When there is no match or the capture is empty, the key is `READER_FILE_PATH_` followed by the file path. |
| ConfigReader.NoAppNameMeansPathKey | src/reader/main.ts:22-26 | A cleaned text with no `app_name` gets the path-based key. |
| ConfigReader.RoundGroupsIn | src/reader/main.ts:31 | No contract: the callback's `braceReader(pattern, ROUND_BRACKET_OPEN)` value, or no groups when it throws (the throw itself is carried by `RoundGroupsOf`). It is characterised by `ConfigReader.RoundGroupsOfOne`. |
| ConfigReader.EachRound | src/reader/main.ts:30-31 | No contract: the `.map(...)` over the square groups, one list of round groups per square group. It is characterised by `ConfigReader.EachRoundAppend`. |
| ConfigReader.Flatten | src/reader/main.ts:32 | No contract: `.flat()`, the inner lists one after the other. It is characterised by `ConfigReader.FlattenAppend`, `ConfigReader.FlattenContains` and `ConfigReader.FlattenMember`. |
| ConfigReader.RoundGroupsOf | src/reader/main.ts:30-32 | Mapping the round scan over the square groups and flattening throws the invalid-braces error exactly when some group holds a stray `)`. Otherwise the value is the concatenation, in order, of braceReader's round groups of each square group. |
| ConfigReader.RoundGroupsOfOne | src/reader/main.ts:31 | The round groups of one square group are balanced substrings of it. |
| ConfigReader.RoundGroupsSound | src/reader/main.ts:30-32 | Every element of the flattened result is a balanced round group and a substring of one of the square groups. |
| ConfigReader.FlattenAppend | src/reader/main.ts:32 | Flattening a concatenation gives the flattenings one after the other. |
| ConfigReader.FlattenContains | src/reader/main.ts:32 | Every element of every inner list is in the flattening. |
| ConfigReader.FlattenMember | src/reader/main.ts:32 | Every element of the flattening comes from some inner list. |
| ConfigReader.EachRoundAppend | src/reader/main.ts:30-31 | Mapping over a concatenation gives the two mappings one after the other. |
| ConfigReader.RoundGroupsOfAppend | src/reader/main.ts:30-32 | The flattened result for two lists of groups is the result for the first list followed by the result for the second, so the order of the square groups is kept. |
| ConfigReader.SquareGroupsAreSubstrings | src/reader/main.ts:29-32 | Every round group found inside a square group is a substring of the cleaned text. |
| ConfigReader.ConfigsFinder | src/reader/main.ts:19-35 | On success the map has exactly one key, the app-name key of the cleaned text. Its value is the in-order concatenation of the round groups of each square group of the cleaned text. Every value element starts with `(`, ends with `)`, is balanced and is a substring of the cleaned text. The call fails, with the invalid-braces error, exactly when the cleaned text has a stray `]` or a square group has a stray `)`. Nothing is caught. |
| ConfigReader.EveryRoundGroupReturned | src/reader/main.ts:29-34 | On success, every round group of every square group of the cleaned text is in the returned list. |
| ReaderExamples.CurlySampleSpans | src/test/suite/main.test.ts:121-145 | The loop, run over `"Look at them {2}{3}"` for curly brackets, records the groups at offsets 13-15 and 16-18. |
| ReaderExamples.CurlyGroupsOfTestSample | src/test/suite/main.test.ts:121-145 | `"Look at them {2}{3}"` read for curly groups gives `{2}`, `{3}`, and `2`, `3` when stripped. |
| ReaderExamples.TwoGroupScan | src/reader/utilities.ts:36-63 | A text whose only glyphs of the pair are opener, closer, opener, closer scans to exactly those two groups. |
| ReaderExamples.TwoGroupText | src/reader/utilities.ts:36-63 | A text made of plain pieces and two bracketed groups scans to those groups, and cutting them gives back each group and its inside. |
| ReaderExamples.ReaderOfTwoGroups | src/reader/utilities.ts:42-65 | When the scan records two groups, braceReader returns their two cuts. |
| ReaderExamples.RoundGroupsOfTestSample | src/test/suite/main.test.ts:118-145 | `"my name is Jane (the King) Doe.\n I am twenty(20) years old"` read for round groups gives `(the King)`, `(20)`, and `the King`, `20` when stripped. |
| ReaderExamples.AngleGroupsOfTestSample | src/test/suite/main.test.ts:118-145 | `"this is a <strong>Wild</strong> tag"` read for angle groups gives `<strong>`, `</strong>`, and `strong`, `/strong` when stripped. |
| ReaderExamples.ClosingEnumValueRefused | src/test/suite/main.test.ts:147-149 | A closing enum value is refused for `"}"` and for `"(sample)"`. |

## Left out

- `typePathConverter`, `cleanTextBeforeProcessing`, `urlsProcessor` and `modelsFinder` are exercised by the test suite but are out of scope of this model.
- Directory traversal and the multi-root read orchestration are filesystem I/O with callbacks. Only their types exist (`src/reader/main.d.ts:22-43`).
- Route and argument records (`UrlArgument`, `ProcessedURL`) are not modelled, because no modelled function builds them.
- Only the three fixed patterns of `main.ts` are modelled, not JavaScript regular expressions in general.
- `TypeError` is modelled as the two `ReaderError` values, one per message of `braceReader`.
- Text is a sequence of Unicode characters, not UTF-16 code units. Surrogate pairs and the indexing of astral characters are not modelled.
- `Brace` holds only the eight enum ordinals. A JavaScript caller could pass any number; that is not modelled.
- `main.ts:1` imports `braces` in lower case, but `utilities.ts` exports `Braces`. The model reads it as `Braces`.
- `configsFinder` collapses no newline and catches no scanner error; a stray closer fails the whole call. The model does the same.
- ScannerProperties.UnclosedOpenerIsDropped: this lemma covers only a final opener with no closer after it. The general case, any opener whose group never closes, is stated by `Utilities.GroupSpansCharacterised` through `NeverCloses`.
