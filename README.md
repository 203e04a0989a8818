# MyPyUtils core in Dafny

This project models the text-processing core of the MyPyUtils desktop tools. It covers
four files:

- **php_to_json_v2.py / php_to_json.py.** The PHP `serialize()` decoder
  (`php_unserialize` and the `_parse_*` productions under it, with the lenient string
  repair). Around it: the converter window's "Convert" button, the shell clean-up that
  keeps `s:<len>:"…";` tokens intact, the search for an embedded JSON block, and the
  diagnostic drawn around a failing byte. Both files carry the same decoder, lines
  12-166, apart from two comments. The rows below cite php_to_json_v2.py.
- **db_prepper.py.** The pure helpers of the data-prep dashboard: `to_snake`,
  `dedupe_headers`, column letters, the preview slice, fuzzy header matching, duplicate
  detection and row normalisation.
- **TextToyz2.0.py.** The text toolbox transforms: the snake-case token, the line
  branch of `snake_case_text`, `remove_emojis` and `normalize_after_removal`.

Python's own primitives the core leans on are modelled in four small modules:

- `PyBytes`: bytes, `bytes.strip`, UTF-8 encoding.
- `PyInt`: `int()` on a bytes literal.
- `PySeq`: slicing with Python's index rules, `find`, counting.
- `PyText`: `str.strip` and friends, `splitlines`, regular-expression style substitution.

Library routines whose behaviour is not part of the core are passed in as function
values. These are `float()`, `_decode_bytes`, `json.loads`/`json.dumps`, `html.unescape`,
the quote rewrites of `_loose_json_fixes`, and the UTF-8 decodes with `errors="replace"`
and `errors="ignore"`.

The decoder keeps two module-level globals:

- The leniency switch `LENIENT_STRING_TERMINATOR` becomes a `Config` field.
- The `WARNINGS` list becomes the `notes` that every production returns.

Every production exists twice:

- a recursive function in `PhpGrammar` that specifies it;
- a method with the source's loops in `PhpDecoder`, proved equal to that function.

The same split holds for the loops of the other files: the methods `Stash`,
`SafeCleanupShellOnly`, `TryBlocks`, `NumberHeaders`, `ColLettersToIndex`, `KeepMatching`,
`DetectDuplicates` and `NormalizeAfterRemoval` are each proved against a function, and the
properties are lemmas about that function.

## Model

| member | source | states |
|---|---|---|
| PySeq.SliceBound | php_to_json_v2.py:47 | Python's slice bound: in range it is the index, past the end it is the length, a negative index counts from the end and stops at 0 |
| PySeq.PySlice | php_to_json_v2.py:80 | `b[i:j]` is `b[i..j]` in range, empty when `j <= i` or `i` is past the end, one element for `b[i:i+1]` inside |
| PySeq.Find | php_to_json_v2.py:27 | `b.find(x, from, to)` is None exactly when `x` does not occur in the range, else the first index holding `x` |
| PyBytes.Strip | php_to_json_v2.py:164 | `bytes.strip()` is empty exactly when every byte is ASCII whitespace; otherwise it neither starts nor ends with whitespace and holds only bytes of the input |
| PyBytes.Utf8 | php_to_json_v2.py:162 | the UTF-8 encoding takes between one and four bytes per character |
| PyInt.ParseInt | php_to_json_v2.py:35 | `int(bytes)` succeeds only on a literal that holds a decimal digit |
| PyInt.DigitsValueOfDecimal | php_to_json_v2.py:35 | reading back the decimal digits of `n` gives `n` |
| PyInt.IntBytesRoundTrip | php_to_json_v2.py:35 | `int(str(n)) == n` for every integer within CPython's 4300-digit limit, negative ones included |
| PyInt.IntBytesShape | php_to_json_v2.py:35 | `str(n).encode()` has no surrounding blanks, carries the sign of `n`, and its body is the digits of `abs(n)` with no underscore |
| PyText.Lower | db_prepper.py:27 | `str.lower()` maps each character to its lower-case form, length kept |
| PyText.LStrip | db_prepper.py:26 | the result drops only leading whitespace and starts with a non-space |
| PyText.RStrip | TextToyz2.0.py:788 | the result drops only trailing whitespace and ends with a non-space |
| PyText.LStripSuffix | db_prepper.py:26 | left-stripping leaves a suffix of the input |
| PyText.RStripPrefix | TextToyz2.0.py:788 | right-stripping leaves a prefix of the input |
| PyText.Strip | php_to_json.py:613 | `str.strip()` is empty exactly when every character is whitespace; otherwise neither end is whitespace |
| PyText.StripChar | db_prepper.py:27 | `s.strip(c)` is no longer than `s` and neither starts nor ends with `c` |
| PyText.SubRunsSeparated | db_prepper.py:27 | after `re.sub('[C]+', x, s)` no two neighbours are in `C`; the result is empty only for an empty input and starts in `C` exactly when the input does |
| PyText.SubRunsFixed | db_prepper.py:28 | the substitution leaves unchanged a string whose class members are single copies of `x` |
| PyText.SplitLines | TextToyz2.0.py:765 | `splitlines()` gives lines without line breaks; it is empty exactly for the empty text |
| PyText.SplitJoinLines | TextToyz2.0.py:766 | splitting `"\n".join(lines)` gives the lines back when none holds a break and the last is not empty |
| PyText.ReplaceAllAtMatch | php_to_json.py:188 | `str.replace` rewrites an occurrence at the front and carries on after it |
| PyText.ReplaceAllSkip | php_to_json.py:188 | `str.replace` copies text that cannot start the pattern |
| PyText.ReplaceAllNoMatch | php_to_json.py:188 | `str.replace` copies any prefix at which no occurrence of the pattern starts |
| PyText.DecimalInjective | php_to_json.py:179 | different numbers have different decimal forms, so the placeholders `@@S<k>@@` are all distinct |
| PhpGrammar.ReadUntil | php_to_json_v2.py:26-30 | fails with "delimiter not found" at `i` exactly when the delimiter is absent from `b[i:]`; otherwise returns the bytes before the first delimiter and the offset past it |
| PhpGrammar.ParseInt | php_to_json_v2.py:32-37 | an integer ends past its `;` with no note; an error stays inside the input |
| PhpGrammar.ParseFloat | php_to_json_v2.py:39-44 | a float literal is accepted by `float()`, holds no `;`, and ends past its `;` |
| PhpGrammar.ParseBool | php_to_json_v2.py:46-49 | succeeds exactly on `0;` or `1;`, giving `True` for `1`; any other token is "Invalid boolean token" at `i` |
| PhpGrammar.SkipSpace | php_to_json_v2.py:66-67 | skips exactly the run of `' \t\r\n'` bytes from `j` |
| PhpGrammar.Resume | php_to_json_v2.py:65-70 | after a closing quote, the scan resumes just past the `;` it found |
| PhpGrammar.ScanLimit | php_to_json_v2.py:58-59 | the look-ahead ends at `min(len(b), start + 1_000_000)` |
| PhpGrammar.ScanClose | php_to_json_v2.py:57-71 | a found close is a `"`, then optional whitespace, then `;`, inside the look-ahead window |
| PhpGrammar.ScanCloseIsFirst | php_to_json_v2.py:61-71 | the scan finds nothing exactly when no close stands in the window, and otherwise returns the first one |
| PhpGrammar.ScanCloseFinds | php_to_json_v2.py:61-71 | the first close of the window is the one the scan returns |
| PhpGrammar.Repaired | php_to_json_v2.py:88-92 | a lenient repair returns a payload followed by `"`, whitespace and `;`; it records at most one note, and none exactly when the payload has the declared length |
| PhpGrammar.StringBody | php_to_json_v2.py:85-109 | a payload, however it was found, is followed by a closing `"`, whitespace and `;`; a note is recorded exactly when its length differs from the declared one |
| PhpGrammar.StringLength | php_to_json_v2.py:75-79 | the length header ends past its `:` with no note |
| PhpGrammar.StringAfterLength | php_to_json_v2.py:80-109 | a string body ends past the header; an error stays inside the input |
| PhpGrammar.ParseString | php_to_json_v2.py:73-109 | a string ends past its start; a negative declared length is refused (see Findings) |
| PhpGrammar.TagAt | php_to_json_v2.py:112-132 | the two-byte tag `s:`, `i:`, `d:`, `b:`, `N;`, `a:` is read exactly when `b[i:i+2]` holds it |
| PhpGrammar.ParseKey | php_to_json_v2.py:111-118 | a key ends past its start; an error stays inside the input |
| PhpGrammar.Values | php_to_json_v2.py:152 | `[v for _, v in items]`, element for element |
| PhpGrammar.Keys | php_to_json_v2.py:150 | `[k for k, _ in items]`, element for element |
| PhpGrammar.IndexOfKey | php_to_json_v2.py:155-156 | None exactly when no entry has the key, else an entry with that key |
| PhpGrammar.Classify | php_to_json_v2.py:150-157 | the array becomes a list exactly when its keys are `0, 1, …, n-1` with `n > 0`; a list holds the values in order, a dict the entries built by assignment |
| PhpGrammar.ParseScalar | php_to_json_v2.py:121-131 | a scalar ends past its start; an error stays inside the input |
| PhpGrammar.ParseValue | php_to_json_v2.py:120-158 | a value ends past its start; an error stays inside the input |
| PhpGrammar.ArrayHead | php_to_json_v2.py:133-141 | the array header ends just past its `{` with no note |
| PhpGrammar.ArrayTail | php_to_json_v2.py:147-157 | succeeds exactly when `}` follows the pairs, giving the classified entries and the pairs' notes; otherwise "Expected }" at that offset |
| PhpGrammar.ParseArray | php_to_json_v2.py:132-157 | an array ends past its start; an error stays inside the input |
| PhpGrammar.ParsePair | php_to_json_v2.py:144-146 | a key-value pair ends past its start |
| PhpGrammar.ParsePairs | php_to_json_v2.py:143-146 | `count` pairs are read, none for a negative count |
| PhpGrammar.Unserialize | php_to_json_v2.py:160-166 | a decoded value ends inside the input; an error stays inside the input |
| PhpProperties.StrictStringIsLenient | php_to_json_v2.py:73-109 | a string the strict mode accepts carries no note, and the lenient mode decodes it the same way |
| PhpProperties.StrictBodyIsLenient | php_to_json_v2.py:85-109 | the same for the string body |
| PhpProperties.StrictKeyIsLenient | php_to_json_v2.py:111-118 | the same for a key |
| PhpProperties.StrictValueIsLenient | php_to_json_v2.py:120-158 | the same for every value, nested arrays included |
| PhpProperties.StrictArrayIsLenient | php_to_json_v2.py:132-157 | the same for an array |
| PhpProperties.StrictPairsIsLenient | php_to_json_v2.py:143-146 | the same for the pair loop: it returns both modes' runs of the loop, and a strict run that succeeds has no notes and equals the lenient run |
| PhpProperties.StrictPairsStep | php_to_json_v2.py:143-146 | when the rounds after a first strict pair agree in both modes, the whole loop does |
| PhpProperties.StrictPairIsLenient | php_to_json_v2.py:144-146 | the same for one key-value pair |
| PhpProperties.UnsupportedTag | php_to_json_v2.py:158 | any other two-byte tag gives "Unsupported value type" at `i` |
| PhpProperties.ScalarTokens | php_to_json_v2.py:128-131 | `N;` is null with two bytes consumed; `b:` takes one `0`/`1` and `;` or fails as an invalid boolean |
| PhpProperties.ShortString | php_to_json_v2.py:85-92 | a string shorter than declared fails in strict mode, and in lenient mode records exactly one short-repair note |
| PhpProperties.RepairTakesFirstClose | php_to_json_v2.py:102-108 | when the declared end is not a close, the repair takes the first close in the window and fails exactly when there is none |
| PhpProperties.KeyTags | php_to_json_v2.py:111-118 | a key whose tag is neither `i:` nor `s:` fails as an unsupported key, and only such a key fails that way |
| PhpProperties.StringErrorKinds | php_to_json_v2.py:73-109 | a string fails only with one of the six errors of `_parse_string` and `_read_until` |
| PhpProperties.BodyErrorKinds | php_to_json_v2.py:85-109 | the string body fails only as too short, without a viable closing, or without its closing |
| PhpProperties.UnserializeTrailing | php_to_json_v2.py:164-165 | a trailing-data note is added exactly when a non-whitespace byte follows the value |
| PhpProperties.TrailingBytes | php_to_json_v2.py:164 | `b[pos:].strip()` is non-empty exactly when a non-whitespace byte follows |
| PhpProperties.EmptyArrayIsDict | php_to_json_v2.py:151-157 | `a:0:{}` decodes to an empty dict, not a list |
| PhpProperties.ZeroCountHead | php_to_json_v2.py:133-141 | the header `0:{` gives count 0 |
| PhpProperties.InsertKeys | php_to_json_v2.py:156 | `d[k] = v` adds `k` at the end only when it is new |
| PhpProperties.BuildDictKeys | php_to_json_v2.py:154-156 | the dict's keys are the first occurrences of the keys, in order |
| PhpProperties.BuildDictDistinct | php_to_json_v2.py:154-156 | the dict has no repeated key |
| PhpProperties.BuildDictLastWins | php_to_json_v2.py:154-156 | a key is in the dict exactly when it is among the pairs, and its value is that of its last pair |
| PhpProperties.LastPairWins | php_to_json_v2.py:156 | the value of the last pair's key is that pair's value |
| PhpProperties.EarlierPairWins | php_to_json_v2.py:156 | assigning another key leaves a key's lookup as before |
| PhpProperties.DistinctKeysIndex | php_to_json_v2.py:155-156 | in a dict without repeats, a key is found at its own entry |
| PhpDecoder.LenientScanClose | php_to_json_v2.py:57-71 | the loop returns the payload up to the first close of the window and the offset past its `;`, or nothing |
| PhpDecoder.ParseStringM | php_to_json_v2.py:73-109 | `_parse_string` computes the specified string result |
| PhpDecoder.AfterLengthM | php_to_json_v2.py:80-109 | the part after the length header computes the specified result |
| PhpDecoder.StringBodyM | php_to_json_v2.py:85-109 | the body, with its whitespace loop and repairs, computes the specified result |
| PhpDecoder.DeclaredEndM | php_to_json_v2.py:93-109 | when the text is long enough: the closing check at the declared end, then the lenient fallback or the error |
| PhpDecoder.RepairM | php_to_json_v2.py:102-108 | the lenient repair (also at lines 88-92 for a too-short text) computes `Repaired`: the first closing quote in the window, the payload before it and the note it leaves |
| PhpDecoder.ParseKeyM | php_to_json_v2.py:111-118 | `_parse_key` computes the specified key |
| PhpDecoder.ParseValueM | php_to_json_v2.py:120-158 | `_parse_value` computes the specified value |
| PhpDecoder.ParseArrayM | php_to_json_v2.py:132-157 | the array branch computes the specified array |
| PhpDecoder.ParsePairM | php_to_json_v2.py:144-146 | one turn of the loop reads the specified pair |
| PhpDecoder.ParsePairsM | php_to_json_v2.py:143-146 | the `for _ in range(count)` loop reads the specified pairs and notes, stopping at the first error |
| PhpDecoder.BuildDictM | php_to_json_v2.py:154-156 | the `d[k] = v` loop builds the specified dict |
| PhpDecoder.PhpUnserialize | php_to_json_v2.py:160-166 | `php_unserialize` decodes the UTF-8 bytes of its input as specified, trailing note included |
| PhpStringAsWritten.SkipSpaceFrom | php_to_json_v2.py:97-98 | the whitespace loop of the source also started from a negative offset, agreeing with `SkipSpace` from 0 on |
| PhpStringAsWritten.StopAsWritten | php_to_json_v2.py:95-100 | where the source's closing check stops, past the quote |
| PhpStringAsWritten.QuotedBounds | php_to_json_v2.py:95 | `b[end:end+1] == b'"'` forces `end` into the input, counted from either end |
| PhpStringAsWritten.StringAsWritten | php_to_json_v2.py:73-109 | defines `_parse_string` as written; it has no contract of its own: `PhpStringAsWritten.StringAgreement` and `PhpStringAsWritten.NegativeLengthRewinds` state it |
| PhpStringAsWritten.StringAgreement | php_to_json_v2.py:73-109 | `_parse_string` as written agrees with `ParseString` except on a negative declared length |
| PhpStringAsWritten.AfterLengthAgreement | php_to_json_v2.py:80-109 | the same after a non-negative length header |
| PhpStringAsWritten.NegativeLengthRefused | php_to_json_v2.py:76-79 | the corrected production refuses a negative length as an invalid string length |
| PhpStringAsWritten.BodyAgreement | php_to_json_v2.py:85-109 | the body as written, with Python slicing, equals `StringBody` |
| PhpStringAsWritten.LongBodyAgreement | php_to_json_v2.py:93-109 | the same when the text is long enough for the declared length |
| PhpStringAsWritten.ClosedBodyAgreement | php_to_json_v2.py:95-101 | when the declared end closes, the source and the model return the same payload and resume offset |
| PhpStringAsWritten.ClosedBodyAsWritten | php_to_json_v2.py:95-101 | the source then returns `b[start:end]` and resumes just past the `;` |
| PhpStringAsWritten.UnclosedBodyAgreement | php_to_json_v2.py:102-109 | when it does not, both fail at the same offset in strict mode and both rescan in lenient mode |
| PhpStringAsWritten.Rescan | php_to_json_v2.py:102-108 | a failed rescan reports a missing closing quote at the offset where the closing check stopped; a successful one adds a note exactly when the payload's length differs from the declared one |
| PhpStringAsWritten.RescanAgreement | php_to_json_v2.py:102-108 | the fallback as written equals `Repaired` |
| PhpStringAsWritten.ClosingAgreement | php_to_json_v2.py:95-100 | the closing check as written is `ClosesAt`, and it resumes where `Resume` does |
| PhpStringAsWritten.NegativeLengthRewinds | php_to_json_v2.py:84-101 | on `a:2:{i:0;s:1:"x";i:1;s:-13:"` the source returns an empty string and resumes at 17, before the value's own offset 21 |
| PhpStringAsWritten.Rewinds | php_to_json_v2.py:84-101 | the same for every 28-byte input with those bytes |
| PhpStringAsWritten.RewoundArrayUnclosed | php_to_json_v2.py:147-148 | after the rewind the two-pair loop ends at 17, where `}` is missing, so the array fails with Expected "}" at 17 |
| ShellCleanup.DigitsEnd | php_to_json.py:170 | the `\d+` run stops at the first non-digit |
| ShellCleanup.TokenAt | php_to_json.py:170 | a token matched at `p` starts with `s:` and a digit and ends with `";` |
| ShellCleanup.Range | php_to_json.py:179 | the placeholder numbers `0, 1, …` handed out in order |
| ShellCleanup.StashFrom | php_to_json.py:176-180 | defines the stashed shell and the saved tokens; it has no contract of its own: `ShellCleanup.StashSlots` and `ShellCleanup.StashRestore` state it |
| ShellCleanup.StashUnfold | php_to_json.py:177-180 | one step of the scan: a token becomes the next slot and is saved, any other character is kept |
| ShellCleanup.StashSlots | php_to_json.py:177-180 | the slots of the shell are numbered in order, one per saved token |
| ShellCleanup.Stash | php_to_json.py:176-180 | the stash loop computes the specified shell and saved list, with slots `0 … len(saved)-1` in order |
| ShellCleanup.StashSlotsBelow | php_to_json.py:179 | every slot names a saved token |
| ShellCleanup.Restore | php_to_json.py:187-188 | defines putting every token back into its own slot in one pass; it has no contract of its own: `ShellCleanup.StashRestore` and `ShellCleanup.PartlyAll` state it |
| ShellCleanup.StashRestore | php_to_json.py:176-188 | putting the saved tokens back into the untouched shell gives the input back |
| ShellCleanup.StashedAreTokens | php_to_json.py:170-178 | every saved entry is a `_STRING_TOKEN` match of the input |
| ShellCleanup.TextRun | php_to_json.py:181-186 | the stretch of shell text before the next slot |
| ShellCleanup.UnescapeRuns | php_to_json.py:181 | unescaping the text between slots keeps the slots in order |
| ShellCleanup.TrimAround | php_to_json.py:183-186 | `re.sub(r'\s*c\s*', c, …)` leaves no whitespace beside `c` |
| ShellCleanup.TrimAroundSlots | php_to_json.py:183-186 | trimming keeps the slots in order |
| ShellCleanup.SubRunsSlots | php_to_json.py:182 | collapsing blanks keeps the slots in order |
| ShellCleanup.TidyShell | php_to_json.py:181-186 | defines the tidy-up between stashing and restoring; it has no contract of its own: `ShellCleanup.TidyKeepsSlots` and `ShellCleanup.TidyShellIsTidy` state it |
| ShellCleanup.TidyKeepsSlots | php_to_json.py:181-186 | the whole tidy-up keeps the slots in order |
| ShellCleanup.TrimAroundKeeps | php_to_json.py:183-186 | trimming around one separator keeps the others free of whitespace |
| ShellCleanup.TrimAroundKeepsBlanks | php_to_json.py:182-186 | trimming never puts two blanks side by side |
| ShellCleanup.TidyShellIsTidy | php_to_json.py:182-186 | after the tidy-up no two blanks are neighbours and no `;`, `:`, `{`, `}` has whitespace beside it |
| ShellCleanup.TidiedShell | php_to_json.py:181-186 | the tidied shell still holds slots `0 … n-1` once each, in order |
| ShellCleanup.TidyKeepsRange | php_to_json.py:181-186 | the same for any shell whose slots are `0 … n-1` |
| ShellCleanup.CleanShell | php_to_json.py:172-189 | defines the clean-up with every token restored in place; it has no contract of its own: `ShellCleanup.CleanShellShape` and `ShellCleanup.SafeCleanupAgrees` state it |
| ShellCleanup.CleanShellShape | php_to_json.py:172-189 | the intended clean-up is the tidy shell with each token put back into its own slot |
| ShellCleanup.CleanShellRestoresInPlace | php_to_json.py:172-189 | when the tidy-up has nothing to do, the intended clean-up returns the input unchanged |
| ShellCleanup.Placeholder | php_to_json.py:179 | `@@S{k}@@` starts with `@@S` |
| ShellCleanup.ReplaceRounds | php_to_json.py:187-188 | defines the first `n` rounds of `str.replace`; it has no contract of its own: `ShellCleanup.RoundsRestoreSlots` and `ShellCleanup.PlaceholderInsideToken` state what they do |
| ShellCleanup.SafeCleanupShellOnly | php_to_json.py:172-189 | the function as written: stash, tidy, then one global `str.replace` per placeholder, in order |
| ShellCleanup.PartlyNone | php_to_json.py:179-180 | before any round, the text is the stashed shell with every slot written as its placeholder |
| ShellCleanup.PartlyAll | php_to_json.py:187-188 | once every round has run on slots that hold their own tokens, the text is the in-place restore |
| ShellCleanup.PlaceholderSkip | php_to_json.py:179 | no other placeholder starts inside `@@S<k>@@`, unless the text after it begins with `S` or `@S` |
| ShellCleanup.PartlyTail | php_to_json.py:176-188 | what follows a slot, part-way through the rounds, cannot complete a placeholder when tokens and text hold no `@` and no `S` follows a slot |
| ShellCleanup.RoundRestoresSlot | php_to_json.py:187-188 | under those conditions round `j` replaces the `j`-th placeholder at its own slot only |
| ShellCleanup.RoundsRestoreSlots | php_to_json.py:187-188 | the first `n` rounds restore exactly the slots below `n` |
| ShellCleanup.SafeCleanupAgrees | php_to_json.py:172-189 | when no token and no tidied text holds `@` and no `S` follows a slot, `safe_cleanup_shell_only` as written gives the in-place clean-up's result |
| ShellCleanup.SampleStash | php_to_json.py:176-180 | the sample input stashes into two slots |
| ShellCleanup.FirstRound | php_to_json.py:187-188 | the first replace puts the first token in |
| ShellCleanup.SecondRound | php_to_json.py:187-188 | the second replace also rewrites a placeholder that the first token brought in |
| ShellCleanup.SampleRounds | php_to_json.py:187-188 | the two rounds on the sample's shell |
| ShellCleanup.PlaceholderInsideToken | php_to_json.py:187-188 | on the sample, the function as written changes the text inside the first token |
| ShellCleanup.SampleRestoredInPlace | php_to_json.py:172-189 | the intended clean-up returns the sample unchanged |
| JsonExtract.FirstOpening | php_to_json.py:192 | the first `{` or `[` from an offset, or None when there is none |
| JsonExtract.StripLeadingNoise | php_to_json.py:192-197 | the result is a suffix of the input; everything dropped is neither `{` nor `[`; it starts with a bracket when the input holds one and is the input itself when it holds none |
| JsonExtract.StripLeadingNoiseIdempotent | php_to_json.py:194-197 | stripping twice strips nothing more |
| JsonExtract.DepthCounts | php_to_json.py:212-218 | the running depth is the number of opening minus closing brackets scanned |
| JsonExtract.DepthStep | php_to_json.py:215-218 | one character moves the depth by +1, -1 or 0 |
| JsonExtract.CloseFrom | php_to_json.py:213-219 | the scan stops only on a closing bracket |
| JsonExtract.MatchingClose | php_to_json.py:213-220 | the candidate's end is a closing bracket after the start |
| JsonExtract.CloseFromBalanced | php_to_json.py:213-219 | the scan stops at the first point where the depth returns to 0, or runs off the end with the block still open |
| JsonExtract.MatchingCloseBalanced | php_to_json.py:212-220 | the candidate is the shortest prefix of the text from the start with as many closing as opening brackets |
| JsonExtract.DropTrailingCommas | php_to_json.py:250 | the rewrite never lengthens the text |
| JsonExtract.SolidConcat | php_to_json.py:250 | the non-comma, non-space characters of a concatenation |
| JsonExtract.DropTrailingCommasKeepsSolid | php_to_json.py:250 | the trailing-comma rewrite removes only commas and whitespace |
| JsonExtract.SolidAcrossGap | php_to_json.py:250 | a comma and the whitespace after it hold nothing else |
| JsonExtract.DropTrailingCommasSinglePass | php_to_json.py:250 | one pass turns `[1,,]` into `[1,]`: a double trailing comma survives |
| JsonExtract.LooseJsonFixes | php_to_json.py:239-254 | defines the three rewrites followed by a strict parse; the quoting rewrites and the parse are parameters, so it has no contract of its own: the comma rewrite is stated by `JsonExtract.DropTrailingCommas` and `JsonExtract.DropTrailingCommasKeepsSolid` |
| JsonExtract.Attempt | php_to_json.py:211-228 | a start gives a result only when it holds the opening bracket and that bracket has a matching close |
| JsonExtract.TryBlocksFrom | php_to_json.py:209-229 | a pass finds something only when its opening bracket occurs at or after the first start |
| JsonExtract.TryBlocksFirst | php_to_json.py:209-229 | `_try_blocks` gives None exactly when no start succeeds, and otherwise the result of the first start that does |
| JsonExtract.ScanBlock | php_to_json.py:212-220 | the depth loop finds the specified matching close |
| JsonExtract.TryBlocks | php_to_json.py:209-229 | the loop over starts computes the specified result |
| JsonExtract.RemoveInvisible | php_to_json.py:206 | no zero-width or bidirectional mark is left, and text without one is unchanged |
| JsonExtract.ReplaceAllRemoves | php_to_json.py:204 | replacing a character by text without it leaves none of it |
| JsonExtract.NoCarriageReturn | php_to_json.py:204 | after the newline normalisation no `\r` is left |
| JsonExtract.FindJson | php_to_json.py:199-237 | JSON is found only when the prepared text holds `{` or `[`; the order of the attempts is `JsonExtract.FindJsonOrder` |
| JsonExtract.TidyTextAndFindJson | php_to_json.py:199-237 | the function computes the specified search |
| JsonExtract.FindJsonOrder | php_to_json.py:231-237 | every `{` start is tried before any `[` start; the result comes from the first successful start; None exactly when no start of either kind succeeds |
| Convert.Run | php_to_json.py:608-660 | the outcome is "input is empty" exactly when the stripped input is empty; embedded JSON is shown only with clean-up on; the parse-error report appears only when it is switched on |
| Convert.JsonFallback | php_to_json.py:642-650 | the handler shows JSON exactly when the noise-stripped text round-trips, and otherwise reports the JSON error |
| Convert.Convert | php_to_json.py:608-660 | the handler as written never produces the parse-error report |
| Convert.ConvertIntended | php_to_json.py:608-660 | the intended handler also reports an empty input exactly for blank input and shows embedded JSON only with clean-up on; where it departs from the code is `Convert.ConvertIntendedDiffers` |
| Convert.OnConvert | php_to_json.py:608-660 | the button handler computes the specified outcome |
| Convert.EmbeddedJsonSkipsDecoder | php_to_json.py:619-627 | with clean-up on, embedded JSON is shown and neither the decoder nor the leniency switch matters |
| Convert.ConvertNeverReportsParseError | php_to_json.py:642-657 | as written, the parse-error report with byte position and context is never produced |
| Convert.BothFail | php_to_json.py:642-660 | when decoding and the JSON fallback both fail, the code as written reports the JSON error and the intended handler reports the parse error |
| Convert.ConvertIntendedDiffers | php_to_json.py:632-657 | the intended handler reports a parse error exactly when the input is non-empty, has no embedded JSON, does not decode and is not JSON; elsewhere it agrees with the code as written |
| Convert.SampleDoesNotDecode | php_to_json_v2.py:158 | `x` does not decode |
| Convert.ParseErrorReportUnreachable | php_to_json.py:649-657 | on input `x`, the code as written shows the JSON error and the intended handler reports the parse error |
| Convert.WindowAround | php_to_json.py:813-815 | the window holds at most 48 bytes: the 24 before the position and the 24 from it on, fewer at either end |
| Convert.Spaces | php_to_json.py:816 | `" " * n` |
| Convert.ContextAroundByte | php_to_json.py:811-817 | the diagnostic starts with `...`, ends with the marker, and the marker line is a newline, then as many spaces as the window decodes to before the position |
| DbPrep.StripCharIsSlice | db_prepper.py:27 | `s.strip('_')` is a contiguous piece of `s` |
| DbPrep.SubstitutedShape | db_prepper.py:27 | after `[^0-9a-zA-Z]+ -> _` every character is `_` or alphanumeric, with no `__` |
| DbPrep.StrippedShape | db_prepper.py:27 | `.strip('_')` keeps that shape and removes `_` from both ends |
| DbPrep.SnakeCoreShape | db_prepper.py:26-27 | the core is a snake-case token, empty for a name without letters or digits |
| DbPrep.SubstitutedTokenShape | db_prepper.py:27 | substitute, strip `_`, lower: always a snake-case token |
| DbPrep.FinishedShape | db_prepper.py:28-33 | the collapse and the `col` fall-backs give a snake-case name; an empty core gives `col` |
| DbPrep.ColPrefixIsSnakeName | db_prepper.py:31-32 | `col_` before a core starting with a digit is a snake-case name |
| DbPrep.ToSnake | db_prepper.py:25-33 | `to_snake` never returns an empty name nor one that starts with a digit: the `col` and `col_` fall-backs; the whole shape is `DbPrep.ToSnakeShape` |
| DbPrep.ToSnakeShape | db_prepper.py:25-33 | `to_snake` always returns a non-empty `[a-z0-9_]` name that starts with neither a digit nor `_`, never ends with `_` and holds no `__`; a name without letters or digits gives `col` |
| DbPrep.ToSnakeFixesSnakeNames | db_prepper.py:25-33 | a name of that shape is left as it is |
| DbPrep.ToSnakeIdempotent | db_prepper.py:25-33 | `to_snake(to_snake(x)) == to_snake(x)` |
| DbPrep.Deduped | db_prepper.py:35-43 | `dedupe_headers` returns one name per header |
| DbPrep.NumberedByAt | db_prepper.py:38-42 | the name of header `i` counts the equal forms up to and including it |
| DbPrep.NumberHeaders | db_prepper.py:35-43 | the loop with its `seen` dictionary computes the specified names |
| DbPrep.DedupeHeaders | db_prepper.py:35-43 | `dedupe_headers` computes the specified names, one per header |
| DbPrep.NumberedNamesDiffer | db_prepper.py:42 | different counts give different names |
| DbPrep.DedupedSameBaseDiffer | db_prepper.py:35-43 | headers with the same snake-case form get different names |
| DbPrep.DedupedOfSnakeNames | db_prepper.py:35-43 | headers that are snake-case names already are only numbered |
| DbPrep.DedupedMayCollide | db_prepper.py:35-43 | names are not always distinct: `a_2`, `a`, `a` give `a_2` twice |
| DbPrep.LetterValue | db_prepper.py:108-111 | a letter is worth 1 to 26 |
| DbPrep.LettersValue | db_prepper.py:106-111 | the value the loop reaches is 0 exactly when the reference holds no ASCII letter |
| DbPrep.ColumnIndex | db_prepper.py:112 | a reference without letters is column 0: `max(res - 1, 0)` never goes below 0 |
| DbPrep.ColLettersToIndex | db_prepper.py:105-112 | the loop computes the zero-based column index |
| DbPrep.ColumnLetters | db_prepper.py:105-112 | the spreadsheet name of a column is a non-empty run of capitals |
| DbPrep.LettersOfColumn | db_prepper.py:105-112 | reading a column name gives its number back |
| DbPrep.ColumnIndexOfLetters | db_prepper.py:105-112 | column `i` (from 0) is read back as `i` |
| DbPrep.ColumnOfLetters | db_prepper.py:105-112 | every non-empty run of capitals names the column it reads as |
| DbPrep.LettersValueIgnoresCase | db_prepper.py:108-111 | lower-case letters read as their capitals |
| DbPrep.LettersValueSkipsOthers | db_prepper.py:107-111 | characters other than letters are skipped |
| DbPrep.PreviewSlice | db_prepper.py:158-161 | empty for no data; otherwise the header and at most `n` rows for `n >= 0`, the header alone for `-1`, rows dropped from the end for smaller `n` |
| DbPrep.Score | db_prepper.py:168 | the number of agreeing positions is at most either length |
| DbPrep.FilterBy | db_prepper.py:165-170 | the loop keeps at most as many headers as it is given |
| DbPrep.KeepMatching | db_prepper.py:165-170 | the loop keeps the specified headers in order |
| DbPrep.FuzzyMatch | db_prepper.py:163-171 | `fuzzy_match` returns the specified headers |
| DbPrep.Kept | db_prepper.py:163-171 | `fuzzy_match` returns at most as many headers as it is given |
| DbPrep.FilterByIff | db_prepper.py:165-170 | a header is kept exactly when its normal form hits the target |
| DbPrep.KeptIff | db_prepper.py:163-171 | a header is returned exactly when it matches |
| DbPrep.KeptAll | db_prepper.py:163-171 | when all match, all are returned in order |
| DbPrep.BlankTargetKeepsNothing | db_prepper.py:169 | a blank target matches nothing |
| DbPrep.ExactHeaderMatches | db_prepper.py:167-169 | a header equal to the target after normalisation is kept |
| DbPrep.OneCharacterTargetMatchesAll | db_prepper.py:168-169 | a one-character target matches every header, because the score bound is 0 |
| DbPrep.KeyOf | db_prepper.py:183 | the key tuple takes each key column's cell, `""` past the row's end |
| DbPrep.KeyIndices | db_prepper.py:177-180 | None exactly when some key column is not in the header; otherwise the first index of each |
| DbPrep.Repeats | db_prepper.py:181-188 | the first row read is never reported, so fewer rows come out than go in |
| DbPrep.Duplicates | db_prepper.py:173-188 | nothing, or at most `len(data) - 2` rows: neither the header row nor the first data row is reported |
| DbPrep.DetectDuplicates | db_prepper.py:173-188 | the loop with its `seen` set computes the specified duplicate rows |
| DbPrep.RepeatsCount | db_prepper.py:181-188 | every row either opens a new key or is reported: repeats plus distinct keys make all rows |
| DbPrep.KeySetCount | db_prepper.py:181-187 | a key has been seen exactly when some row has it |
| DbPrep.RepeatsShareKey | db_prepper.py:181-188 | a reported row is one of the rows, and at least two rows share its key |
| DbPrep.NormRow | db_prepper.py:245-248 | exactly `len(headers)` cells; a cell is None exactly when it is an empty cell of the row and `empty_as_null` is on; otherwise it is the row's cell, or `""` as padding |
| TextTools.ToSnakeToken | TextToyz2.0.py:748-750 | the token neither starts nor ends with `_`: `.strip('_')` removes them and lower-casing makes none |
| TextTools.ToSnakeTokenShape | TextToyz2.0.py:748-750 | the token holds only `[a-z0-9_]`, has no `__` and no `_` at either end; it is empty when the input has no letter or digit |
| TextTools.ToSnakeTokenFixesTokens | TextToyz2.0.py:748-750 | a snake-case token is its own token |
| TextTools.ToSnakeTokenIdempotent | TextToyz2.0.py:748-750 | `to_snake_token` is idempotent |
| TextTools.Each | TextToyz2.0.py:766 | the list comprehension applies the function to each line, in order |
| TextTools.SnakeCaseLines | TextToyz2.0.py:765-766 | defines the non-JSON branch of `snake_case_text`; it has no contract of its own: `TextTools.SnakeLinesSpec` and `TextTools.SnakeCaseLinesIdempotent` state what it does |
| TextTools.SnakeLinesSpec | TextToyz2.0.py:765-766 | one output line per line: blank lines verbatim, the others as their snake-case token |
| TextTools.SnakeLineIdempotent | TextToyz2.0.py:766 | converting a line twice is converting it once |
| TextTools.SnakeLineNoBreak | TextToyz2.0.py:766 | a converted line holds no line break |
| TextTools.MapLinesIdempotent | TextToyz2.0.py:765-766 | split-map-join is idempotent when the map is, on lines without breaks |
| TextTools.SnakeCaseLinesIdempotent | TextToyz2.0.py:765-766 | snake-casing a text twice changes nothing, as long as its last line does not become empty |
| TextTools.Remove | TextToyz2.0.py:770-771 | deleting a class never lengthens the text |
| TextTools.RemoveMembers | TextToyz2.0.py:770-771 | a character survives exactly when it is not in the class |
| TextTools.RemoveAppend | TextToyz2.0.py:770-771 | deletion works piece by piece, in order |
| TextTools.RemoveFixes | TextToyz2.0.py:770-771 | text with nothing from the class is unchanged |
| TextTools.RemoveEmojis | TextToyz2.0.py:769-772 | `remove_emojis` never lengthens the text |
| TextTools.RemoveEmojisMembers | TextToyz2.0.py:769-772 | `remove_emojis` keeps exactly the characters outside both classes |
| TextTools.RemoveEmojisAppend | TextToyz2.0.py:769-772 | `remove_emojis` works character by character, in order |
| TextTools.RemoveEmojisChar | TextToyz2.0.py:71-84 | one character is deleted exactly when it is in the emoji class or is invisible |
| TextTools.RemoveEmojisIdempotent | TextToyz2.0.py:769-772 | `remove_emojis` is idempotent |
| TextTools.RemoveEmojisDeletesChinese | TextToyz2.0.py:78 | as written, `中文` is deleted entirely |
| TextTools.RemoveEmojisIntended | TextToyz2.0.py:769-772 | `remove_emojis` with the intended emoji class never lengthens the text either |
| TextTools.RemoveEmojisIntendedKeepsText | TextToyz2.0.py:71-84 | with the intended class, text below U+2700 (except U+24C2 and the invisibles) and text between U+27C0 and U+1F16F is kept |
| TextTools.RemoveEmojisRemovesMore | TextToyz2.0.py:71-84 | the written class contains the intended one: as written removes everything the intended version removes, and more |
| TextTools.RemoveAbsorbs | TextToyz2.0.py:770-771 | removing a smaller class before a larger one changes nothing |
| TextTools.RemoveCommutes | TextToyz2.0.py:770-771 | two removals can be done in either order |
| TextTools.RemoveFixesAfter | TextToyz2.0.py:770-771 | removing a class twice is removing it once |
| TextTools.IsRule | TextToyz2.0.py:777-779 | `hr_pattern` matches only lines of three or more characters |
| TextTools.CleanLine | TextToyz2.0.py:781-788 | a cleaned line never ends with whitespace; its whole shape is `TextTools.CleanLineShape` |
| TextTools.CleanLineSteps | TextToyz2.0.py:781-788 | the rewrites, one after another, compute the specified cleaned line |
| TextTools.NormalizeAfterRemoval | TextToyz2.0.py:776-789 | the loop computes the specified line map |
| TextTools.ReplaceNbspChars | TextToyz2.0.py:781 | no no-break space is left; only the line's own characters and spaces |
| TextTools.SpaceDashesChars | TextToyz2.0.py:782 | dashes become ` - `; nothing but the line's characters, spaces and hyphens |
| TextTools.TightenOpenersChars | TextToyz2.0.py:783 | tightening after openers only removes characters |
| TextTools.TightenBeforeChars | TextToyz2.0.py:784-786 | tightening before closers or punctuation only removes characters |
| TextTools.DropEmptyBracketsChars | TextToyz2.0.py:785 | dropping empty brackets only removes characters |
| TextTools.CleanLineShape | TextToyz2.0.py:781-788 | a cleaned line has no trailing whitespace, no no-break space and no two neighbouring blanks, and holds only its own characters, spaces and hyphens |
| TextTools.NormalizeLine | TextToyz2.0.py:779-788 | defines what the loop appends for one line; it has no contract of its own: `TextTools.NormalizeLineSpec` states it |
| TextTools.NormalizeLineSpec | TextToyz2.0.py:777-788 | rule lines are copied verbatim; every other line is cleaned as above |
| TextTools.NormalizeLineNoBreak | TextToyz2.0.py:777-788 | a normalised line holds no line break |
| TextTools.NormalizeAfterRemovalLines | TextToyz2.0.py:776-789 | one output line per input line: splitting the result gives the normalised lines |

## Left out

- `float()`, `_decode_bytes`, `json.loads`/`json.dumps`, `html.unescape`, the two single-quote rewrites of `_loose_json_fixes`, and `bytes.decode` with `errors="replace"`/`"ignore"` are parameters. Their behaviour belongs to Python's libraries, not to this code.
- Float values keep their literal bytes: the conversion to a binary float, and its printing, are left out.
- `str.lower`, `str.isdigit` and the regular-expression classes `\d` and `[a-zA-Z]` are modelled on ASCII only. Non-ASCII case mappings and Unicode digits are not modelled.
- Python's `RecursionError` on deeply nested arrays is not modelled: the recursion here is unbounded.
- The text of exception messages (`str(e)`) is replaced by an error kind and a byte offset. The JSON indentation settings and the pretty-printing of the output are left out.
- The Tk user interface is left out: widgets, status bar, highlighting, profiles, file dialogs, themes.
- The CSV/XLSX readers and the SQLite export of db_prepper.py are left out. Only its pure helpers are modelled.
- The JSON branch of `snake_case_text` (TextToyz2.0.py:754-762) is left out. It needs `json.loads`; only the line branch is modelled.
- `process_php_to_json` (TextToyz2.0.py:792-798) is left out. It is a separate regular-expression converter, not the decoder modelled here.
- The UTF-8 encoding with `errors="surrogatepass"` is modelled for Unicode scalar values. Lone surrogates are not modelled.
- The module-level globals `LENIENT_STRING_TERMINATOR` and `WARNINGS` are a parameter and a result. The source's aliasing of them across calls is not modelled.
- PhpGrammar.ParseString: refuses a negative declared length, where the source rewinds (see Findings). `PhpStringAsWritten.StringAsWritten` models the source's behaviour.
- PhpGrammar.ParseInt: its contract states only the offsets. The value is `PyInt.ParseInt` of the bytes before the `;`, as its body reads; no separate lemma restates that.
- PhpGrammar.StringLength: its contract states only the offsets. The length is `PyInt.ParseInt` of the bytes before the `:`, as its body reads.
- PhpGrammar.ParseScalar: its contract states only the offsets. What each tag decodes is stated by `PhpProperties.ScalarTokens`, `PhpProperties.UnsupportedTag` and the string lemmas.
- PhpGrammar.StringAfterLength: its contract states only the offsets. Its result is stated by `PhpStringAsWritten.AfterLengthAgreement` and `PhpProperties.StrictStringIsLenient`.
- PhpGrammar.ParseKey: its contract states only the offsets. Its tags are stated by `PhpProperties.KeyTags`.
- PhpGrammar.ParseValue: its contract states only the offsets. What it decodes is stated by the `PhpProperties` lemmas and by `PhpDecoder.ParseValueM`, proved equal to it.
- PhpGrammar.ParseArray: its contract states only the offsets. Its result is stated by `PhpGrammar.ArrayTail`, `PhpGrammar.Classify` and the dict lemmas of `PhpProperties`.
- PhpGrammar.ParsePair: its contract states only the offsets of a key followed by a value.
- PhpGrammar.ParsePairs: its contract states the number of pairs and the offsets, not the pairs themselves.
- PhpGrammar.Unserialize: its contract states only the offsets. The trailing-data note is stated by `PhpProperties.UnserializeTrailing`.
- Convert.Convert: its clean-up stage is `ShellCleanup.CleanShell`, not the global replace of `safe_cleanup_shell_only`. The two give the same text when `ShellCleanup.SafeCleanupAgrees` applies: no `@` in a token or in the tidied text, and no `S` right after a slot. Otherwise the model does not follow the source into a token put back in the wrong place (see Findings).
- Convert.OnConvert: follows the handlers of `on_convert` as written. The intended parse-error report is `Convert.ConvertIntended`. Its clean-up stage restores each token into its own slot (`ShellCleanup.CleanShell`) rather than by the global replace of `ShellCleanup.SafeCleanupShellOnly` (see Findings).
- JsonExtract.StripLeadingNoise: models what `LEAD_NOISE` removes, not how long the match takes. The pattern (php_to_json.py:192) nests `[^\{\[]+` inside `(...)*`, so on text with no `{` or `[` the regular-expression engine backtracks through exponentially many splits before it fails. The function runs on every input when clean-up is on (php_to_json.py:207, reached from 621, with clean-up on by default at 313) and in the parse-error fallback (php_to_json.py:644).
- ShellCleanup.SafeCleanupShellOnly: models the restore as written. The intended in-place restore is `ShellCleanup.CleanShell`.

## Findings

| source | as written | input that shows it | evidently intended | confidence | as-written member | corrected member |
|---|---|---|---|---|---|---|
| php_to_json_v2.py:84-101 | a negative declared length makes `end_expected` fall before the payload. Python's slicing then finds an earlier `";` and resumes there, before the value's own start | `a:2:{i:0;s:1:"x";i:1;s:-13:"`: the second value is read as an empty string and parsing resumes at byte 17, before the value's own offset 21; the loop has then read its two pairs, so the array fails with Expected "}" at 17 instead of an invalid string length at 27 | a negative length is an invalid string length | not executed | PhpStringAsWritten.NegativeLengthRewinds | PhpStringAsWritten.NegativeLengthRefused |
| php_to_json.py:187-188 | tokens are restored with a global `str.replace` per placeholder, in order, so placeholder text inside an already restored token is replaced too | `s:6:"@@S1@@";s:1:"x";`: the first token's payload becomes `s:1:"x";` | each token goes back into its own slot, untouched | not executed | ShellCleanup.PlaceholderInsideToken | ShellCleanup.SampleRestoredInPlace |
| php_to_json.py:649-657 | the bare `raise` re-raises the JSON exception, so the outer `except ParseError` never sees the decoder's error and its byte-position report is unreachable | `x` without clean-up: decoding fails at byte 0, and the output is the JSON error instead of the parse error at byte 0 | the parse error, with its byte position and context, is reported when the text is not JSON either | not executed | Convert.ParseErrorReportUnreachable | Convert.ConvertIntendedDiffers |
| TextToyz2.0.py:78 | the range U+24C2-U+1F251 covers most of the Basic Multilingual Plane above it, CJK included | `中文` becomes the empty string | only U+24C2 and the enclosed supplements U+1F170-U+1F251 are treated as emoji | not executed | TextTools.RemoveEmojisDeletesChinese | TextTools.RemoveEmojisIntendedKeepsText |
