# UWB raw-data routes: line parsing, raw ingest and position processing

This project models the two raw-data routes of the UWB positioning service. It
proves properties of that model in Dafny.

- **Raw ingest** (`POST /dados-crus/ingest`, `dados_crus.py`). The request carries
  telemetry as one string of lines or as a list of strings. Each non-blank line is
  searched for `tid:<digits> … range:(v0,…,v7)`. The tag and eight optional
  distances become a `distancias_uwb` row. The route answers with the counts
  `saved`, `skipped` and `received_lines`.
- **Processing** (`POST /processamento-crus/ingest`, `processamento_crus.py`). A
  JSON body holds a list `dados` of entries `{tag_number, da, kx, ky}`. Each
  eligible entry is placed by trilateration against three anchors: A0 = (0, 0),
  A1 = (kx, 0) and A2 = (0, ky). The route answers with the located tags in input
  order, or with 400 or 500.

Modules:

- `Wrappers`: `Option` and one sequence fact the loops share.
- `PyStr`: the Python `str` behaviour the parser depends on. This covers
  `isspace`, `strip`, `split(",")`, `splitlines`, the `lower() == "nan"` test and
  the decimal subset of `float()`.
- `LineGrammar`: the pattern `RE_LINE`, stated declaratively as `Match`. Search is
  computed as `re.search` computes it: the leftmost start, then the longest `\d+`,
  then the shortest `.*?`.
- `RawIngest`: `_to_float_or_none`, `parse_line`, the normalisation of the payload
  into lines, and the counting loop of `ingest_dados_crus`. The loop is a `method`
  with invariants. The rows the route stores are returned as a sequence.
- `JsonValue`: decoded JSON values with Python truthiness, `len`, `dict.get` and
  the `isinstance(v, (int, float)) and v > 0` test.
- `Trilateration`: the numpy position step over exact reals, and its closed form.
- `Processing`: the per-entry loop body (`Classify`) and the route's answer as a
  function of the body (`Handle`). The loop itself is the method `ProcessBatch`,
  proved equal to `Handle`.

Facts about the code that the model keeps:

- Row-level problems can abort a batch. An entry that is not an object raises
  inside the `try`. So does a truthy-tagged entry whose `da` has no `len`
  (`null`, a number, a boolean), or whose `da` is an object with three or more
  keys. The route then rolls back and answers 500. The model has this as
  `Verdict.Crash` and `Response.ServerError`, characterised by
  `Processing.Raises`.
- The position step uses exactly three anchors, A0, A1 and A2, with closed-form
  numpy steps, although the comment above those steps speaks of least squares.
- The raw-ingest route answers an empty payload with zero counts. Only the
  processing route rejects an empty `dados` (400).
- Neither route applies calibration offsets, sentinel values or command codes,
  and neither keeps sessions or a motion cache.

## Model

| member | source | states |
|---|---|---|
| LineGrammar.Match | dados_crus.py:12-15 | the pattern itself, declaratively: a span is a match when the labels, whitespace runs, colons, digits, gap and parentheses sit where `RE_LINE` puts them |
| LineGrammar.MatchAt | dados_crus.py:13 | the match attempt at one start: what it reports is a match starting there; `MatchAtComplete` shows it fails only when no match starts there |
| LineGrammar.FirstMatch | dados_crus.py:12-15 | whatever `RE_LINE.search` reports is a match of the pattern: `tid`, optional whitespace, `:`, optional whitespace, digits, a gap without newline, `range`, optional whitespace, `:`, optional whitespace, `(`, no `)`, `)`, with labels matched case-insensitively |
| LineGrammar.FirstMatchSpec | dados_crus.py:12-15 | the search reports nothing exactly when no span of the line matches; otherwise it reports the leftmost match, and at that start the one `re` prefers (longest `\d+`, then shortest `.*?`) |
| LineGrammar.SearchLeftmost | dados_crus.py:27 | for every match of the line, the reported match starts no later, and at the same start it is preferred |
| LineGrammar.MatchAtComplete | dados_crus.py:13 | when any match starts at a position, the attempt at that position succeeds and yields the preferred match |
| LineGrammar.MatchAtParts | dados_crus.py:13 | every match has its colon and digit start where the greedy `\s*` runs end, and its lazy gap starts at or after the end of the greedy `\d+` |
| LineGrammar.LazyTailReaches | dados_crus.py:13 | the lazy `.*?` stops at the nearest tail `range\s*:\s*\([^)]*\)` reachable without crossing a newline |
| LineGrammar.TailAtUnique | dados_crus.py:13 | a tail matching at a position is unique: its colon, `(` and `)` are fixed by the greedy runs |
| LineGrammar.RunEndUnique | dados_crus.py:13 | a run of a character class that cannot be extended ends where the greedy repetition ends |
| PyStr.Strip | dados_crus.py:18 | `strip()` yields the empty string exactly for whitespace-only input, and otherwise has no whitespace at either end |
| PyStr.StripIsSlice | dados_crus.py:18 | the result of `strip()` is a slice of the input with only whitespace before it and only whitespace after it; with the non-space ends above, this fixes the result |
| PyStr.StripIdempotent | dados_crus.py:18 | stripping twice is stripping once |
| PyStr.StripPadded | dados_crus.py:18 | for any leading and any trailing whitespace, chosen independently, `strip()` of the padded word is the word |
| PyStr.IsSpace | dados_crus.py:13-18 | the characters Python's `isspace()` accepts, which are also what `\s` matches in a `str` pattern and what `strip()` removes |
| PyStr.IsNanWord | dados_crus.py:19 | `x.lower() == "nan"`: the three letters in any case, and nothing else lower-cases to them |
| PyStr.ParseDecimal | dados_crus.py:22 | `float()` on the decimal subset reads a value only from a non-empty token made of signs, digits and dots; other text is a `ValueError` (absent). `ParseDecimalSomeIff` gives the exact set of tokens that read |
| PyStr.DecimalLiteral | dados_crus.py:22 | the tokens the decimal subset of `float()` accepts, written without reference to the parser: an optional `+` or `-`, then only digits and dots, at most one dot, at least one digit |
| PyStr.ParseDecimalSomeIff | dados_crus.py:21-24 | a token reads as a value exactly when it is a decimal literal; so `-`, `+`, `.`, `1.2.3`, `--5` and `5-` raise `ValueError` and are absent |
| PyStr.ParseDecimalOfWhole | dados_crus.py:22 | any sign (none, `+` or `-`) followed by any digit string, leading zeros included, reads as the signed value of the digits: `+5`, `007`, `-12` |
| PyStr.ParseDecimalOfDigits | dados_crus.py:22 | any sign, digits, a `.` and digits, with a digit on at least one side of the dot, reads as the signed value whole + frac / 10^len(frac): `.5`, `-.5`, `5.`, `+007.25` |
| PyStr.ParseDecimalOfNat | dados_crus.py:22 | the decimal spelling of a natural number reads back as that number |
| PyStr.ParseDecimalOfNegNat | dados_crus.py:22 | a negative spelling reads back as the negated number |
| PyStr.ParseDecimalOfFraction | dados_crus.py:22 | `w.frac` reads back as w + frac / 10^len(frac), for any natural `w` and any digit string `frac` |
| PyStr.ParseDecimalOfNegFraction | dados_crus.py:22 | `-w.frac` reads back as the negated value |
| RawIngest.ToFloatOrNone | dados_crus.py:17-24 | a whitespace-only or `nan` token (any case) is absent; any other token is exactly what `float()` reads from it once stripped, so an unreadable token is absent |
| RawIngest.SlotPresentIff | dados_crus.py:17-24 | a padded word other than `nan` fills its slot exactly when it is a decimal literal; a malformed word leaves the slot absent, never zero |
| RawIngest.SlotReadsWord | dados_crus.py:17-24 | a word other than `nan`, with any leading and any trailing whitespace, reads as `float()` reads the word |
| RawIngest.SlotRoundTrip | dados_crus.py:17-24 | a whole number written into a slot, with any leading and any trailing whitespace, is read back as that number |
| RawIngest.SlotRoundTripNegative | dados_crus.py:17-24 | the same for negative whole numbers |
| RawIngest.SlotRoundTripFraction | dados_crus.py:17-24 | a number written as `w.frac` (the fraction may be empty, as in `5.`), with any leading and any trailing whitespace, reads back as its value |
| RawIngest.SlotRoundTripNegativeFraction | dados_crus.py:17-24 | the same for `-w.frac` |
| RawIngest.SlotReadsExampleValue | dados_crus.py:17-24 | the token `-79.31` reads as exactly -79.31 |
| RawIngest.StrippedTwice | dados_crus.py:31 | the extra `strip()` before `_to_float_or_none` has no effect |
| PyStr.Split | dados_crus.py:31 | `split(",")` yields at least one piece, no piece holds a comma, and joining the pieces with commas gives the text back |
| PyStr.SplitJoin | dados_crus.py:31 | splitting a comma-join of comma-free pieces recovers the pieces |
| RawIngest.SlotValues | dados_crus.py:31-33 | there are always exactly eight slots; `SlotValueAt` says what each one holds |
| RawIngest.FitSlots | dados_crus.py:32 | `(parts + [""] * 8)[:8]` has exactly eight entries; entry k is part k when there is one, else the empty token |
| RawIngest.Tokens | dados_crus.py:31 | token k is piece k of the comma split, stripped |
| RawIngest.SlotValueAt | dados_crus.py:31-33 | slot k is token k read by `_to_float_or_none`; tokens past the eighth are dropped; slots with no token are absent, never zero |
| LineGrammar.TidGroup | dados_crus.py:30 | `m.group("tid")`: the text of the match between its digit start and digit end |
| LineGrammar.RangeGroup | dados_crus.py:31 | `m.group("rng")`: the text of the match strictly between its `(` and `)` |
| RawIngest.TagOf | dados_crus.py:30 | `tid.strip()` leaves the matched digits unchanged |
| RawIngest.ParseLine | dados_crus.py:26-34 | `None` exactly when the search finds no match; otherwise a non-empty all-digit tag and exactly eight slots |
| RawIngest.ParseLineNoneIff | dados_crus.py:27-29 | `parse_line` returns `None` exactly when no span of the line matches the pattern |
| RawIngest.ParseLineGroups | dados_crus.py:30-34 | a successful parse holds the `tid` and `rng` groups of the reported match |
| PyStr.IsLineBreak | dados_crus.py:49 | the characters `str.splitlines()` breaks on: `\n`, `\v`, `\f`, `\r`, `\x1c`-`\x1e`, `\x85`, U+2028 and U+2029 |
| PyStr.SplitLines | dados_crus.py:49 | no line from `splitlines()` contains a break character, and concatenating the lines gives the text with exactly its breaks removed |
| PyStr.SplitLinesBreak | dados_crus.py:49 | every single break character ends the break-free line before it, and the rest of the text splits on its own: `"a\rb"` gives `a`, `b`; a `\r` directly before `\n` is the next row's case |
| PyStr.SplitLinesCrLf | dados_crus.py:49 | `\r\n` is one break: it ends the line before it and adds no empty line |
| PyStr.SplitLinesTerminated | dados_crus.py:49 | a break-free line followed by any terminator (`\r\n` or one break character, with a lone `\r` not running into a `\n`) is split off from the rest |
| PyStr.SplitLinesJoin | dados_crus.py:49 | break-free lines each ended by the same terminator (`\n`, `\r\n`, `\r` or any other break), optionally followed by a last line without one, split back into exactly those lines, in order, duplicates included; an empty last line adds no line |
| RawIngest.NonBlankLines | dados_crus.py:49 | the kept lines are exactly the lines that are not whitespace-only |
| RawIngest.NonBlankIsStripTruthy | dados_crus.py:49 | a line is kept exactly when `ln.strip()` is truthy |
| RawIngest.NonBlankLinesAppend | dados_crus.py:49 | the filter keeps order and duplicates: filtering a concatenation gives the filtered parts, concatenated |
| RawIngest.NonBlankLinesOne | dados_crus.py:49 | a single line is kept exactly when it is not whitespace-only |
| RawIngest.NonBlankLinesKeepsAll | dados_crus.py:49 | a list of non-blank lines passes through unchanged, duplicates included |
| RawIngest.StringItems | dados_crus.py:51 | the strings of a list payload are exactly its string elements; other values are dropped |
| RawIngest.StringItemsAppend | dados_crus.py:51 | the string elements of a concatenation are those of its parts, concatenated, in order and with duplicates |
| RawIngest.StringItemsOne | dados_crus.py:51 | a single element contributes its text when it is a string and nothing otherwise |
| RawIngest.StringItemsOfLines | dados_crus.py:51 | a list made only of strings yields exactly those strings, in order |
| RawIngest.ReceivedLines | dados_crus.py:47-51 | for a string payload, the received lines are the non-blank lines of `splitlines()`, in order; for a list payload, the non-blank string elements, in order. Each is non-blank, and for a string none holds a break |
| RawIngest.ReceivedLinesOfText | dados_crus.py:47-49 | a text of n non-blank, break-free lines, each ended by the same terminator (`\n`, `\r\n` or another break), the last with or without one, is received as exactly those lines, so `received_lines` is n, duplicates included |
| RawIngest.ReceivedLinesOfItems | dados_crus.py:50-51 | a list of non-blank strings is received as exactly those strings |
| RawIngest.RowOf | dados_crus.py:63-67 | the `DistanciaUWB` row of a parsed line: its tag and its eight slots as `da0`..`da7`, with no span values |
| RawIngest.Rows | dados_crus.py:56-67 | the rows of the lines that parsed, in line order; `RowsAppend`, `RowsAreReadings` and `SavedPlusSkipped` state its properties |
| RawIngest.Failures | dados_crus.py:58-61 | the number of lines that did not parse; `SavedPlusSkipped` ties it to `Rows` |
| RawIngest.SavedPlusSkipped | dados_crus.py:53-72 | every line is counted once, as a row or as a skip |
| RawIngest.RowsAppend | dados_crus.py:57-67 | rows follow line order: the rows of a concatenation are the rows of its parts, concatenated |
| RawIngest.RowsAreReadings | dados_crus.py:62-67 | each row is the tag and slots of some line that parsed, and has no span values |
| RawIngest.RowsHaveEightSlots | dados_crus.py:63-66 | each stored row has exactly eight distance slots, `da0`..`da7` |
| RawIngest.ParseEach | dados_crus.py:57-67 | the loop keeps one row per parsed line, in order, and counts the others; rows plus skips equal lines |
| RawIngest.IngestRaw | dados_crus.py:47-72 | `received_lines` counts the received lines; the stored rows are those of the lines that parse; `saved` counts them, `skipped` counts the rest, and `saved + skipped == received_lines` |
| JsonValue.Truthy | processamento_crus.py:33 | Python truthiness as `not tag` tests it: `None`, `False`, zero, and empty strings, lists and objects are false |
| JsonValue.Get | processamento_crus.py:28-31 | `entrada.get(key, default)`: the value under the key when present, else the default (`[]` for `da`, `None` for the others) |
| JsonValue.Len | processamento_crus.py:33 | `len()` is defined exactly on strings, lists and objects |
| JsonValue.PositiveNumber | processamento_crus.py:38 | `isinstance(v, (int, float)) and v > 0`: a positive number, or `true` (a `bool` is an `int` equal to 1) |
| JsonValue.NumberValue | processamento_crus.py:38 | a number or boolean passes `v > 0` exactly when its value is positive |
| Processing.Classify | processamento_crus.py:27-39 | what the loop body does with one entry: skip it, raise, or keep its located tag; `ClassifyKeepIff`, `ClassifyCrashIff` and `KeptRow` characterise each outcome |
| Processing.ClassifyKeepIff | processamento_crus.py:27-39 | an entry is located exactly when it is eligible: an object with a truthy tag, a `da` list of at least three entries whose first three are positive numbers, and positive numbers `kx` and `ky` |
| Processing.ClassifyCrashIff | processamento_crus.py:27-36 | the loop body raises exactly on a non-object entry, or on an entry with a truthy tag whose `da` has no length or is an object of three or more keys |
| Processing.FalsyTagSkips | processamento_crus.py:33-34 | a falsy tag skips the entry, whatever else it holds |
| Processing.ShortDaSkips | processamento_crus.py:33-34 | with a truthy tag, a `da` shorter than three skips the entry |
| Processing.OnlyFirstThree | processamento_crus.py:36 | distances after the third never change what happens to an entry |
| Processing.KeptRow | processamento_crus.py:36-70 | an eligible entry is kept under its own tag at the position computed from its first three distances and its spans |
| Trilateration.AxisNorm | processamento_crus.py:51-54 | `np.linalg.norm` of an axis vector is non-negative |
| Trilateration.AxisNormIsLength | processamento_crus.py:51-54 | `np.linalg.norm` of an axis vector squares to `v . v` and is zero only at the origin |
| Trilateration.Locate | processamento_crus.py:42-61 | the position step, one numpy statement at a time; `LocateClosedForm`, `LocateRoundTrip` and `LocateUnique` state what it computes |
| Trilateration.LocateClosedForm | processamento_crus.py:42-61 | the numpy steps give x = (r0² − r1² + kx²) / 2kx and y = (r0² − r2² + ky²) / 2ky |
| Trilateration.LocateSeparable | processamento_crus.py:57-58 | x depends only on r0, r1 and kx, and y only on r0, r2 and ky |
| Trilateration.LocateOnRadicalAxes | processamento_crus.py:42-61 | the located point's squared distances to A0 and A1 differ by r0² − r1², and those to A0 and A2 by r0² − r2² |
| Trilateration.LocateUnique | processamento_crus.py:42-61 | every point with those two differences is the located point |
| Trilateration.LocateRoundTrip | processamento_crus.py:42-61 | distances taken from any point to the three anchors locate that same point |
| Processing.Handle | processamento_crus.py:16-73 | the answer to a body, as a function of the body; `HandleStatus` states its cases and `ProcessBatch` is proved to compute it |
| Processing.Kept | processamento_crus.py:70 | the located tags of the kept entries, in input order; `KeptAppend` and `KeptCount` state its properties |
| Processing.HandleStatus | processamento_crus.py:16-21 | the answer is 400 exactly when `dados` is missing, not a list, or empty. Otherwise it is 500 exactly when some entry raises. On success, `processed` equals the length of `result` and the number of eligible entries |
| Processing.KeptCount | processamento_crus.py:70-73 | the result has one row per eligible entry |
| Processing.KeptAppend | processamento_crus.py:70 | results are appended in input order |
| Processing.ResultInInputOrder | processamento_crus.py:27-70 | the result of a batch is the result of its first part followed by the result of the rest |
| Processing.ProcessBatch | processamento_crus.py:12-79 | the loop returns the answer `Handle` defines, and commits the result rows exactly when it answers 200 (nothing on 400 or 500) |

## Left out

- Storage is abstracted away: `SessionLocal`, `add`, `add_all`, `commit`, `rollback`
  and `close`. A committed batch is the returned row sequence. Storage failures,
  which the code also turns into 500, are not modelled.
- Processing.ProcessBatch: the 500 answer does not carry the text of the exception
  (`detail=str(e)`). Also missing are the stored rows' ids and timestamps, and the
  400/422 responses the web framework produces before the route runs.
- RawIngest.ToFloatOrNone: reads only the decimal subset of `float()`, which is an
  optional sign, digits and at most one `.`. Exponents, `inf`, `infinity`,
  underscores, non-ASCII digits, and signed `nan` are read as absent, though
  Python's `float()` accepts them. An unsigned `nan` (any case) is absent, as in
  the code. The value read is the exact decimal, not the nearest double: a token
  of hundreds of digits reads as a huge real where `float()` gives `inf`. Whether
  a slot is present or absent does not depend on this.
- LineGrammar.FirstMatch: `\d` is ASCII digits only; Python also accepts other
  Unicode decimal digits in a `str` pattern. The case-insensitive labels are
  matched as Python's `re` matches them: ASCII case, and for `i` also the
  capital dotted `İ` (U+0130) and the lower-case dotless `ı` (U+0131); no other
  character folds to a letter of `tid` or `range`.
- Trilateration.Locate: arithmetic is exact over the reals. IEEE rounding, NaN and
  infinities are not modelled. Nor are JSON `NaN` and `Infinity` literals, or
  Python's arbitrary integers (integers are modelled as reals).
- Processing.Classify: keeps and locates an eligible entry whatever the size of its
  values. The code squares the distances as Python floats (`r0**2`), and a square
  above the largest double raises `OverflowError`; for a distance above about
  1.34e154 the route therefore rolls back and answers 500, where the model answers
  200 with the entry located. Python ints too large for a double are a similar
  source of 500 that the model does not capture.
- Trilateration.AxisNorm: models `np.linalg.norm` only on vectors along an axis,
  the only vectors the route takes the norm of. A general square root is not
  modelled.
- Processing.KeptRow: the kept position is stated through `Trilateration.Locate`.
  Its closed form is a separate lemma, `Trilateration.LocateClosedForm`, rather
  than one combined statement.
- The payload example in the route's signature is not evaluated as a concrete
  string.
- The parser inside the counting loop, `RawIngest.ParseEach`, is a parameter.
  `RawIngest.IngestRaw` supplies `ParseLine`.
- JSON object keys are unique and unordered, as in a decoded `dict`.
