# OCR post-processing and zone-name normalisation

A Dafny model of two string layers of the Azur Lane automation script:

- **module/ocr/ocr.py**: what happens to the characters the recognition model reports.
  `Ocr.after_process` joins them and, for the `tw` model, writes `艦` for `鑑`. `Ocr.ocr`
  gives one result per area in area order and unwraps it to a bare value when exactly one
  area is configured. The typed fields build on that: `Digit` reads a number (empty text
  is 0), `DigitCounter` reads `current/total` clamped to `(current, remain, total)` and
  falls back to `(0, 0, 0)`, and `Duration` turns every `D` into `0` and converts the
  leftmost `(\d+):(\d+):(\d+)` match into a duration (zero when nothing matches).
- **module/os/map_operation.py**: the four per-server `get_zone_name` variants (EN, JP,
  TW and the default CN one) that clean the recognised map name before zones are looked
  up by it. The `@Config.when(SERVER=...)` dispatch becomes an explicit `Locale`.

The modules follow that structure:

| file | module | contents |
|---|---|---|
| results.dfy | `Results` | `Option` and `Result` |
| strings.dfy | `Strings` | the Python `str` operations the source uses: `''.join`, `split`, `replace`, `rstrip(chars)`, `translate` deleting characters, `lower`, `in` |
| decimal.dfy | `Decimal` | `int()` and `str()` on decimal digit strings |
| time_pattern.dfy | `TimePattern` | `re.search('(\d+):(\d+):(\d+)', s)` and `Duration.parse_time` |
| ocr.dfy | `Ocr` | `Ocr`, `Digit`, `DigitCounter` and `Duration` |
| map_operation.dfy | `MapOperation` | the four `get_zone_name` variants |

Several things are parameters of the model:

- The recognition model (`OCR_MODEL[lang].ocr_for_single_lines`) together with the pixel
  pre-processing (`pre_process`) is a function `engine`. It maps a language, a candidate
  alphabet and one raw line image to that line's characters. It is applied to every line in
  both modes, so direct images are pre-processed just as cropped areas are.
- Cutting an area out of the screenshot (`image.crop(area)`) is a function `crop`.
- Python exceptions that escape `ocr` are `Result` errors. `IndexError` comes from
  `result_list[0]` on an empty list. `ValueError` comes from `int()` on text that is not a number.
- The exceptions `DigitCounter` catches become `None`, which it answers with `(0, 0, 0)`.
- A `timedelta` is its total number of seconds.

`re.search` is specified rather than transcribed:

- `Fits(s, i, p)` says that three digit runs of the lengths in `p`, separated by colons, start at `i`.
- `GreedyFits` adds that the last run cannot be extended.
- `NoFitBefore` says nothing fits further left.
- `ParseTime` is proved to return the seconds of the match that is both leftmost and
  greedy, and that match is proved unique.
- Backtracking cannot change the first two groups. The first two runs end at a `:` and so
  are maximal anyway. So greedy matching of the last group is the only greedy step that
  matters.

## Model

| member | source | states |
|---|---|---|
| Ocr.AfterProcess | module/ocr/ocr.py:86-92 | the result has the joined length; for every model except `tw` it is the joined characters; for `tw` it has no `鑑`, each `鑑` becomes `艦` and every other character is unchanged |
| Ocr.AfterProcessIdempotent | module/ocr/ocr.py:86-92 | post-processing the characters of a post-processed text gives that text back |
| Ocr.AfterProcessChars | module/ocr/ocr.py:86-92 | a text without `鑑`, reported character by character, comes back unchanged for every model |
| Ocr.PostAll | module/ocr/ocr.py:107 | one processed result per line, in line order; it fails exactly when some line's processing fails, and then with that line's error |
| Ocr.Recognise | module/ocr/ocr.py:94-114 | one result per line in line order; a bare value exactly when one area is configured, a list otherwise; when a line's processing fails, the error is that of a failing line; otherwise the only failure is IndexError, with one area and no line at all |
| Ocr.ScreenLines | module/ocr/ocr.py:98-101 | on a screenshot there is one line per configured area |
| Ocr.OcrText | module/ocr/ocr.py:106-110 | `ocr` yields the post-processed text of each line, in order; it unwraps exactly for one area; it fails (IndexError) only with one area and no line, so never on a screenshot |
| Ocr.DigitAfterProcess | module/ocr/ocr.py:127-131 | the empty text reads as 0; the read succeeds exactly when the text is all digits, and a non-empty digit text reads as its decimal value; otherwise it fails with ValueError |
| Ocr.DigitLeadingZero | module/ocr/ocr.py:129 | a leading zero does not change the number a digit text reads as |
| Ocr.DigitExampleLeadingZero | module/ocr/ocr.py:129 | `042` reads as 42 |
| Ocr.DigitRoundTrip | module/ocr/ocr.py:127-131 | reading the characters of the decimal rendering of any n >= 0 gives back n |
| Ocr.DigitAlphabetParses | module/ocr/ocr.py:127-131 | characters drawn from the default alphabet `0123456789` always read as a number, for every model |
| Ocr.DigitLinesParse | module/ocr/ocr.py:123-131 | every line whose characters lie in the digit alphabet reads as a number |
| Ocr.DigitOcr | module/ocr/ocr.py:107-131 | one number per line, in order, unwrapped exactly for one area; it succeeds exactly when every line reads; it fails with ValueError exactly when some line does not read, and with IndexError exactly with one area and no line; under the digit alphabet it fails only in the latter case |
| Ocr.ParseCounter | module/ocr/ocr.py:155-158 | a successful parse has `current <= total` and `current + remain == total` |
| Ocr.ParseCounterFound | module/ocr/ocr.py:155-156 | a parse that succeeds found two non-empty digit strings around a slash, at the first slash |
| Ocr.ParseCounterAt | module/ocr/ocr.py:155-158 | two non-empty digit strings around a slash parse to `(c, t - c, t)` when `c <= t` and to `(t, 0, t)` otherwise |
| Ocr.ParseCounterSpec | module/ocr/ocr.py:154-161 | the text parses if and only if it is two non-empty digit strings around one slash; then the values are the clamped sides, and otherwise the fallback applies |
| Ocr.ParseCounterRender | module/ocr/ocr.py:155-158 | parsing `str(c) + '/' + str(t)` gives the clamped counter of `c` and `t` back |
| Ocr.CounterExampleInRange | module/ocr/ocr.py:142-158 | `14/15` reads as `(14, 1, 15)` |
| Ocr.CounterExampleClamped | module/ocr/ocr.py:157-158 | `20/15` reads as `(15, 0, 15)` |
| Ocr.CounterWithoutSlash | module/ocr/ocr.py:155-161 | a text without a slash does not parse, so the counter falls back to `(0, 0, 0)` |
| Ocr.CounterOcr | module/ocr/ocr.py:151-161 | only the first line is read; its parse or `(0, 0, 0)` is returned, always with `current <= total` and `current + remain == total`; it fails (IndexError) exactly when there is no line |
| Ocr.DurationAfterProcess | module/ocr/ocr.py:169-172 | the result has the joined length and no `D`; each `D` becomes `0` and every other character is the common post-processing's |
| Ocr.DurationTextClean | module/ocr/ocr.py:169-172 | a text without `D` or `鑑` is post-processed unchanged |
| Ocr.MisreadCorrected | module/ocr/ocr.py:171 | the misread `0D:05:10` is corrected to `00:05:10` |
| Ocr.DurationOcr | module/ocr/ocr.py:185-191 | the seconds of each line's duration, with the count, order and single-area unwrapping of the text it is parsed from; IndexError exactly with one area and no line |
| Ocr.DurationExampleHours | module/ocr/ocr.py:176-204 | a Duration line read as `01:30:00` is 5400 seconds |
| Ocr.DurationExampleMisread | module/ocr/ocr.py:171-204 | a Duration line read as `0D:05:10` is 310 seconds |
| TimePattern.DigitRun | module/ocr/ocr.py:201 | the length of the maximal run of digits starting at a position: all digits, followed by the end or a non-digit |
| TimePattern.MatchAt | module/ocr/ocr.py:201 | a match found at a position is a greedy match of the pattern there |
| TimePattern.MatchAtComplete | module/ocr/ocr.py:201 | whenever the pattern fits at a position, the match there is found, with the last group at least as long |
| TimePattern.MatchAtGreedy | module/ocr/ocr.py:201 | a greedy fit at a position is exactly the match found there |
| TimePattern.SearchFrom | module/ocr/ocr.py:201 | scanning from `i`, the match found is greedy and nothing fits between `i` and it; no match means nothing fits from `i` on |
| TimePattern.Search | module/ocr/ocr.py:201-202 | the match found is greedy and leftmost; no match means the pattern fits nowhere |
| TimePattern.LeftmostUnique | module/ocr/ocr.py:201 | there is only one leftmost greedy match, so `re.search`'s answer is determined |
| TimePattern.CapturedNumbers | module/ocr/ocr.py:203 | the three captured groups are non-empty digit strings, so `int()` succeeds on each |
| TimePattern.FitsIsText | module/ocr/ocr.py:201-203 | the matched text is the hours, `:`, the minutes, `:` and the seconds captured |
| TimePattern.TextIsFit | module/ocr/ocr.py:201-203 | wherever digit groups joined by colons occur, the pattern fits there and captures exactly those groups |
| TimePattern.ParseTime | module/ocr/ocr.py:193-207 | the result is `h * 3600 + m * 60 + s` of the leftmost greedy match, and 0 when the pattern fits nowhere |
| TimePattern.ParseTimeWhole | module/ocr/ocr.py:201-204 | a text that is exactly three digit groups joined by colons parses to the seconds those groups denote |
| TimePattern.ParseTimeRender | module/ocr/ocr.py:201-204 | parsing `str(h) + ':' + str(m) + ':' + str(s)` gives back `h * 3600 + m * 60 + s` |
| TimePattern.ParseTimeExampleHours | module/ocr/ocr.py:196-204 | `01:30:00` is 5400 seconds |
| TimePattern.ParseTimeExampleMinutes | module/ocr/ocr.py:201-204 | `00:05:10` is 310 seconds |
| Decimal.ValueRender | module/ocr/ocr.py:129 | `int(str(n)) == n` for every `n >= 0` |
| Decimal.RenderValue | module/ocr/ocr.py:129 | `str(int(s)) == s` for a digit string without a leading zero |
| Decimal.ValueLeadingZero | module/ocr/ocr.py:129 | a leading zero does not change the value |
| Strings.JoinChars | module/ocr/ocr.py:86 | joining the characters of a text one by one gives the text back |
| Strings.Split | module/ocr/ocr.py:155 | `split('/')` gives one part more than there are separators, and no part contains the separator |
| Strings.JoinSplit | module/ocr/ocr.py:155 | joining the parts of a split with the separator gives the text back |
| Strings.SplitJoin | module/ocr/ocr.py:155 | splitting parts joined by a separator they do not contain gives the parts back |
| Strings.BeforeFirst | module/os/map_operation.py:48 | `split('-')[0]` is a prefix without `-`, followed by `-` when it is shorter than the text, and the whole text when there is no `-` |
| Strings.Replace | module/ocr/ocr.py:90 | same length; every occurrence of the target replaced, every other character kept |
| Strings.Rstrip | module/os/map_operation.py:61 | the result is a prefix, the removed tail consists of characters from the set, and the kept prefix does not end in one |
| Strings.RstripUnique | module/os/map_operation.py:84 | those three facts determine the result: no other prefix has them |
| Strings.RstripIdempotent | module/os/map_operation.py:73 | stripping a stripped text changes nothing |
| Strings.Delete | module/os/map_operation.py:45 | deleting whitespace leaves no character of the set, and keeps the count of every other character |
| Strings.DeleteConcat | module/os/map_operation.py:45 | deletion works piece by piece, so the kept characters stay in their order; with the counts `Delete` keeps, this determines its result |
| Strings.Lower | module/os/map_operation.py:46 | same length; each character lowered, ASCII capitals and `É` included |
| MapOperation.EnTruncatedClean | module/os/map_operation.py:45-48 | after deleting whitespace, lowering and cutting at `-`, no whitespace, upper-case letter or `-` is left |
| MapOperation.EnPlainNvcity | module/os/map_operation.py:49-51 | reading `é` as `e` neither creates nor destroys an `nvcity` |
| MapOperation.EnZoneName | module/os/map_operation.py:45-53 | the EN name has no whitespace, upper-case letter, `-` or `é`; it is exactly `nycity` when the cleaned, lowered, cut name contains `nvcity`, and that name with `é` read as `e` otherwise |
| MapOperation.EnIdempotent | module/os/map_operation.py:45-53 | normalising an EN name that is already normalised returns it unchanged |
| MapOperation.EnNoLonger | module/os/map_operation.py:45-53 | the EN name is never longer than the recognised text |
| MapOperation.EnExample | module/os/map_operation.py:51-52 | `NVCITY` normalises to `nycity` |
| MapOperation.JpZoneName | module/os/map_operation.py:61-64 | the JP name keeps a prefix of the text whose removed tail lies in {安,全,海,域,秘,密} and which does not end in one of them; the kept characters are corrected one by one and none of `一`, `力`, `ぺ` remains |
| MapOperation.JpFixAll | module/os/map_operation.py:64 | the three replacements keep the length, correct each character independently and leave none of `一`, `力`, `ぺ` |
| MapOperation.JpIdempotent | module/os/map_operation.py:61-64 | normalising a JP name that is already normalised returns it unchanged |
| MapOperation.TwZoneName | module/os/map_operation.py:73 | the TW name is a prefix whose removed tail lies in {安,全,海,域,隱,秘,一} and which does not end in one of them |
| MapOperation.TwIdempotent | module/os/map_operation.py:73 | normalising a TW name that is already normalised returns it unchanged |
| MapOperation.TwNameHasNoKan | module/os/map_operation.py:71-73 | a TW name read through the `tw` post-processing never contains `鑑` |
| MapOperation.CnZoneName | module/os/map_operation.py:81-85 | with a `-`, the CN name is the text before the first `-` and has no `-`; without one, trailing characters from {安,全,海,域,-} are stripped |
| MapOperation.CnCut | module/os/map_operation.py:81-82 | a name with a dash keeps exactly what comes before the first dash |
| MapOperation.CnStripsCharacters | module/os/map_operation.py:84 | `rstrip` removes characters, not a suffix: `深海安全海域` gives `深` |
| MapOperation.CnNotIdempotent | module/os/map_operation.py:81-85 | the CN variant is not idempotent: when the part before the dash ends in one of the strippable characters, a second pass strips more |
| MapOperation.ZoneName | module/os/map_operation.py:45-85 | every variant is total and never lengthens the recognised text |
| MapOperation.GetZoneName | module/os/map_operation.py:39-85 | the map-name area is read with the server's model and no alphabet restriction, post-processed, and then normalised; on TW the name never contains `鑑` |

## Left out

- Model loading and inference (`OCR_MODEL`, `AlOcr`, `ocr_for_single_lines`): the engine is a function parameter. It is applied to each line on its own, so a batch call is assumed to be pointwise.
- `set_cand_alphabet`: the alphabet is passed to the engine. Restriction to it is a hypothesis (`InAlphabet`) of the lemmas that need it, not a property of the engine.
- Image work (`pre_process`, `extract_letters`, `image.crop`, `Button` area resolution, `letter` and `threshold`): the pixel pre-processing is part of the `engine` parameter, `image.crop(area)` is the `crop` parameter, and a field's areas are given directly.
- The `name` attribute, `time.time()`, `logger.attr` and `logger.warning`: timing and logging do not affect any result. A warning is logged exactly when `ParseCounter` gives `None` and when `TimePattern.Search` finds no match; a matched `00:00:00` also gives zero seconds but logs nothing.
- `int()` leniency towards surrounding whitespace, signs, underscores and non-ASCII digits, and `\d` matching non-ASCII digits: only the ASCII digits `0`-`9` are digits here.
- Strings.Lower: covers the ASCII capitals and `É` only, not the whole of Unicode's `str.lower()`.
- `timedelta` normalisation and its range limit: a duration is its total number of seconds, unbounded.
- Backtracking of `re.search` into the first two groups: it cannot change the result (they end at a `:`), so the match is specified by its leftmost greedy fit.
- The rest of module/os/map_operation.py: `is_meowfficer_searching`, `get_meowfficer_searching_percentage`, `get_current_zone`, `is_in_special_zone` and `map_exit`. They depend on screen state, colour ratios, clicks, timers and zone tables that are not part of this model.
