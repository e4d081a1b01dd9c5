# Class-schedule scanner: a Dafny model

This project models the pure core of `scanShedule` in `lib/textract.ts`. The function reads a photographed class timetable. AWS Textract returns the document's layout as a list of blocks. The code below turns those blocks into one record per subject: `{ materia, profesor, horarios }`, where `horarios` maps a weekday name (`LUN` … `VIE`) to a slot `{ hora, aula }`.

The modelled pipeline:

1. **Block resolver** (lines 80-100, module `Blocks`):
   - indexes the blocks by `Id`;
   - turns every `CELL` block into `(row, column, text)`.

   The text is the trimmed, space-joined text of the blocks the cell references.
2. **Grid assembler** (lines 103-110, module `Grid`):
   - groups the cells into the plain object `tableByRows`;
   - lists its rows with `Object.values`.

   The row order follows section 10.1.11.1 of ECMA-262 (OrdinaryOwnPropertyKeys): array-index keys ascending, then the other keys in creation order. Holes in the sparse row arrays read as "".
3. **Header locator and column mapper** (lines 167-189, module `Schedule`):
   - the first row holding all of `LUN MAR MIE JUE VIE`;
   - that row's weekday columns;
   - the first row holding both `NOMBRE DE LA MATERIA` and `PROFESOR`;
   - those labels' first positions.
4. **Row extractor** (lines 192-223, module `Schedule`):
   - the data rows after both headers whose subject and instructor cells are truthy;
   - one record each;
   - a slot for every weekday cell that `parseHorarioText` accepts;
   - a warning for every weekday cell that looked like a slot but did not parse.
5. **`parseHorarioText`** (lines 38-54, module `SlotParser`):
   - The two regular expressions are modelled as the ECMAScript backtracking engine runs them. There are eight ways to consume `\d{1,2}[:\-]?\d{1,2}`, tried in greedy order, at start positions 0, 1, 2, …
   - This engine is proved equal to a declarative leftmost-longest description.
   - `SlotExamples` works through the five timetable texts that appear in the same file (lines 128-132), plus a bare range and two cells that are no slot.
6. **`extractFeatures`** (lines 19-34, module `Features`): the seven numbers fed to the classifier.
7. **The catch** (lines 230-233): a missing header throws, and the catch turns that into the empty list (`ScanTable`, `ScanSchedule`).

Supporting modules:
- `Text`: the ECMAScript whitespace set, `trim`, `join`, `split(/\s+/)`.
- `Seqs`: positions, `filter`, `flat`, `flatMap`.
- `Wrappers`: `Option` and `Result`.

Behaviour of the code that the model keeps as it is:
- Grid rows come out in ascending numeric row order, whatever order Textract emitted them in.
- Under the combined pattern, `"13-15"` parses as time `"13-1"` in room `"5"`: backtracking lends the last digit to the room (`SlotExamples.NoSpaceSlotLendsDigitToRoom`).
- The room pattern is case-insensitive, and the whitespace before the room may be empty.
- `parseHorarioText` answers `null` both for "no slot" and for "could not parse".

## Model

| member | source | states |
|---|---|---|
| Text.Trim | lib/textract.ts:98 | `String.prototype.trim`: the result neither starts nor ends with whitespace; it is no longer than the input; a trimmed input is returned as is; the result is empty exactly when the input is all whitespace |
| Text.TrimCutsWhitespaceEnds | lib/textract.ts:98 | the trimmed text is a contiguous part of the input with only whitespace before and after it; together with the result being trimmed, it is the input minus its leading and trailing whitespace |
| Text.TrimIdempotent | lib/textract.ts:98 | trimming twice is trimming once |
| Text.SplitOnWhitespace | lib/textract.ts:21 | `split(/\s+/)` yields at least one piece, no piece contains whitespace, and joining the pieces with " " gives back the input with every maximal whitespace run replaced by one space |
| Text.SplitTrimmedHasNoEmptyPiece | lib/textract.ts:21 | splitting a trimmed non-empty text yields no empty piece |
| Text.SplitJoinRoundTrip | lib/textract.ts:91-94 | joining non-empty whitespace-free words with " " and splitting on whitespace gives the words back in order |
| Seqs.Positions | lib/textract.ts:197-199 | the selected positions are in range, point at selected elements, and ascend |
| Seqs.PositionsAreComplete | lib/textract.ts:197-199 | every selected element's position is listed |
| Seqs.Filter | lib/textract.ts:197-199 | `filter` keeps exactly the selected elements, in their original order |
| Seqs.Flatten | lib/textract.ts:92 | an element is in the flattened list exactly when it is in one of the inner lists |
| Seqs.FlattenAppend | lib/textract.ts:92 | flattening two lists of lists one after the other is concatenating their flattenings |
| Seqs.FlattenOne | lib/textract.ts:92 | flattening a single inner list gives that list |
| Seqs.FilterCons | lib/textract.ts:197-199 | filtering a list with a first element keeps that element exactly when it is selected, followed by the filtered rest |
| Seqs.InFlatMapOfFilter | lib/textract.ts:197-223 | `filter(keep).flatMap(f)` contains `u` exactly when some kept element's `f` contains `u` |
| SlotParser.TryShapes | lib/textract.ts:44 | at one start position, the engine answers the first shape in its order that it can complete, and answers nothing exactly when no shape completes |
| SlotParser.TokenIsSomeShape | lib/textract.ts:44 | a substring is a time token exactly when one of the eight engine shapes consumes it |
| SlotParser.BacktrackingIsLongestFirst | lib/textract.ts:44 | of two shapes that both fit, the one greedy backtracking tries first is never shorter |
| SlotParser.FirstShapeIsLongest | lib/textract.ts:44 | the engine fails at a position exactly when no token starts there; otherwise it ends the longest token starting there |
| SlotParser.Search | lib/textract.ts:44 | the match from a position fails exactly when no token starts at or after it; otherwise it is the longest token at the first position where one starts |
| SlotParser.SearchIsLeftmostLongest | lib/textract.ts:44 | `match` answers nothing exactly when the text has no token; otherwise it answers the leftmost-longest token |
| SlotParser.LeftmostLongestIsUnique | lib/textract.ts:44 | at most one token is leftmost-longest, so the match is well defined |
| SlotParser.RoomEnd | lib/textract.ts:44 | the greedy room group takes the maximal run of letters, digits and hyphens |
| SlotParser.CombinedHasTime | lib/textract.ts:44-51 | whenever the time-and-room pattern matches, the time-only pattern matches too |
| SlotParser.ParseHorario | lib/textract.ts:38-54 | no slot exactly when the text is blank, a lone dash, or has no time token; otherwise `hora` is a time token of 2 to 5 characters; a present room is a non-empty run of room characters; the room is absent exactly when the combined pattern does not match |
| SlotParser.ParseIsLeftmostLongest | lib/textract.ts:44-51 | the parsed time is the leftmost-longest match of the pattern that matched, and the room is the room run after the whitespace that follows it |
| SlotParser.ParseOfCombinedMatch | lib/textract.ts:44-46 | given the combined pattern's leftmost-longest match, the parse is that time and the room run after it |
| SlotParser.ParseOfTimeOnly | lib/textract.ts:50-51 | without a combined match, the parse is the leftmost-longest time token with no room |
| SlotParser.ShortTokens | lib/textract.ts:44 | every time token is 2 to 5 characters long |
| SlotExamples.NoSpaceSlotLendsDigitToRoom | lib/textract.ts:128 | "13-15" parses as time "13-1" in room "5" |
| SlotExamples.ShortRangeHasNoRoom | lib/textract.ts:50-51 | a bare "7-9" leaves nothing for a room, so it parses as time "7-9" with no room |
| SlotExamples.ShortRangeWithRoom | lib/textract.ts:132 | "7-9 D04" parses as time "7-9" in room "D04" |
| SlotExamples.LetterRoomIsSplitAtSpace | lib/textract.ts:129 | "15-17 D09" parses as time "15-17" in room "D09" |
| SlotExamples.SpacedRoomIsSplitAtSpace | lib/textract.ts:130 | "11-13 A20" parses as time "11-13" in room "A20" |
| SlotExamples.HyphenatedRoomIsKept | lib/textract.ts:131 | "11-13 L-SOF" parses as time "11-13" and keeps the hyphen inside the room "L-SOF" |
| SlotExamples.GarbledCellIsNoSlot | lib/textract.ts:53 | a text with no time token is no slot |
| SlotExamples.DashIsNoSlot | lib/textract.ts:41 | a lone dash is no slot |
| Features.ExtractFeatures | lib/textract.ts:19-34 | seven features, the first being the text's length |
| Features.FlagFeatures | lib/textract.ts:31-33 | the last three features are 0 or 1; they are 1 exactly when the text holds a time token, holds a room code at some position, and is one of the six weekday abbreviations |
| Features.WordCountFeature | lib/textract.ts:21-22 | the second feature is the number of pieces of the trimmed text split on whitespace |
| Features.UpperShareFeature | lib/textract.ts:23-29 | the third feature is the number of upper-case positions divided by the length, or by 1 for the empty text |
| Features.DigitCountFeature | lib/textract.ts:24-30 | the fourth feature is the number of digit positions |
| Features.WordFeatureBounds | lib/textract.ts:21-22 | the word count is at least 1, and at most the length of a non-empty text |
| Features.UpperShareFeatureBounds | lib/textract.ts:23-29 | the upper-case share lies in [0, 1], and is 0 exactly when the text has no upper-case letter |
| Features.DigitFeatureBounds | lib/textract.ts:24-30 | the digit count lies between 0 and the length |
| Features.TimeFlagMeansTimeSeed | lib/textract.ts:31 | the time flag is 1 exactly when two digits are adjacent, or separated by a single ':' or '-' |
| Features.HasTimeIsMatch | lib/textract.ts:31 | the engine's search finds a time token exactly when the text has one, and exactly when two digits are adjacent or separated by a single ':' or '-' |
| Features.TimeSeedIsMatch | lib/textract.ts:31 | the time pattern matches somewhere exactly when such a shortest token occurs |
| Features.WeekdayAbbreviationFeatures | lib/textract.ts:19-34 | the features of "LUN" are [3, 1, 1, 0, 0, 1, 1] |
| Features.HasRoomCodeFrom | lib/textract.ts:32 | the room-code test succeeds exactly when an upper-case letter followed by two digits, or two characters of `[A-Z\-]`, occur at some position |
| Features.UpperCount | lib/textract.ts:23 | the upper-case count is the number of positions holding an upper-case letter; it is at most the length, and is 0 exactly when no letter is upper-case |
| Features.DigitCount | lib/textract.ts:24 | the digit count is the number of positions holding a digit; it is at most the length, and is 0 exactly when no character is a digit |
| Features.UpperRatio | lib/textract.ts:29 | `upperCount / (len \|\| 1)` lies in [0, 1], is 0 exactly without upper-case letters, and times `len \|\| 1` gives back the number of upper-case positions |
| Features.HasTime | lib/textract.ts:31 | the time test succeeds exactly when two digits are adjacent, or separated by a single ':' or '-' |
| Blocks.IndexBlocks | lib/textract.ts:80-85 | the index's keys are exactly the non-empty ids; each maps to the last block carrying it |
| Blocks.ReferencedIds | lib/textract.ts:91-92 | the referenced ids are exactly the ids of the cell's relationships |
| Blocks.ReferencedIdsAppend | lib/textract.ts:91-92 | the ids of two relationship lists one after the other are the first list's ids followed by the second's |
| Blocks.ReferencedIdsOfOne | lib/textract.ts:91-92 | a single relationship contributes its own ids, in order |
| Blocks.Fragments | lib/textract.ts:93 | one fragment per referenced id, in order, each being the text of the indexed block or "" |
| Blocks.ResolveCell | lib/textract.ts:90-99 | the cell keeps the block's row and column, and its text is trimmed |
| Blocks.ResolveCells | lib/textract.ts:88-100 | one cell per CELL block, in block order, each resolved against the index of all blocks, with trimmed text |
| Blocks.FragmentIsLastBlockText | lib/textract.ts:83-93 | a referenced id reads the text of the last block carrying it, and "" when no block carries it |
| Blocks.DanglingReferencesGiveEmptyText | lib/textract.ts:91-98 | a cell whose references all resolve to "" has empty text |
| Blocks.CellTextListsFragments | lib/textract.ts:91-98 | with non-empty, whitespace-free fragments, splitting the cell text gives the fragments back in relationship order |
| Blocks.TrimmedJoinCollapses | lib/textract.ts:94-98 | for whitespace-free fragments, the trimmed space-joined text, with whitespace runs collapsed, is the non-empty fragments joined by single spaces |
| Blocks.CellTextJoinsNonEmptyFragments | lib/textract.ts:91-98 | with whitespace-free fragments, some possibly empty, the cell text with whitespace runs collapsed is the non-empty fragments joined by single spaces, in relationship order |
| Blocks.CellTextListsNonEmptyFragments | lib/textract.ts:91-98 | with whitespace-free fragments of which at least one is non-empty, splitting the cell text on whitespace gives exactly the non-empty fragments, in relationship order |
| Grid.GroupRows | lib/textract.ts:103-107 | a row array exists exactly for the rows that have cells, and the rows are created in first-occurrence order |
| Grid.RowsAreExpected | lib/textract.ts:104-106 | each row array is as long as its largest stored column, and holds at index `c - 1` the text of the last cell of column `c` |
| Grid.LastTextIsLastStored | lib/textract.ts:106 | a column's text is that of the last cell stored there |
| Grid.EmptyBeyondWidth | lib/textract.ts:106 | a column beyond the row's width reads as a hole |
| Grid.Store | lib/textract.ts:106 | storing at an array index sets that element, extends the array with holes, and leaves the rest unchanged; another key leaves the array unchanged |
| Grid.SortAscending | lib/textract.ts:110 | the sorted keys ascend strictly and are the same set as the input |
| Grid.RowKeys | lib/textract.ts:110 | the keys listed are exactly the rows with cells, with no repeats; array-index keys come first in ascending order, then the other keys in first-occurrence order |
| Grid.OtherKeysKeepOrder | lib/textract.ts:110 | keeping only the non-index keys preserves their order |
| Grid.IndexRowsAscend | lib/textract.ts:110 | when every row number is an array index, the rows come out in strictly ascending row order |
| Grid.AssembleGrid | lib/textract.ts:103-110 | the grid has one row per listed key, in that order, each being that row's expected array |
| Grid.GridIsTrimmed | lib/textract.ts:98-110 | when every cell text is trimmed, every grid string is trimmed |
| Schedule.FindRow | lib/textract.ts:168-171 | no row exactly when no row holds every label; otherwise the first row holding every label |
| Schedule.IndexOf | lib/textract.ts:188-189 | -1 exactly when the name is absent; otherwise its first position |
| Schedule.WeekdayColumns | lib/textract.ts:174-178 | one entry per header cell holding a weekday name, in column order, each with its name and index |
| Schedule.WeekdayColumnsAreComplete | lib/textract.ts:174-178 | every header cell holding a weekday name is listed |
| Schedule.Locate | lib/textract.ts:166-194 | the day-header error exactly when no row holds all weekdays; the content-header error exactly when one does but no row holds both labels; otherwise both first header rows, the weekday columns, the labels' first positions, and a start row within the table |
| Schedule.SlotMap | lib/textract.ts:205-214 | a day has a slot exactly when one of its entries parsed, and holds the last such parse |
| Schedule.SlotWarnings | lib/textract.ts:215-217 | one warning per unparsed entry, in column order, carrying the cell and the subject |
| Schedule.ExtractRows | lib/textract.ts:197-223 | one record per accepted data row, in grid order |
| Schedule.ClassifyFollowsParse | lib/textract.ts:208-217 | a weekday cell gives a slot exactly when it parses, and then holds its parse; it gives a warning exactly when it is worth parsing but does not parse |
| Schedule.SlotDaysAreParsedColumns | lib/textract.ts:208-213 | a day is in a record's slots exactly when one of its columns holds a cell that parses |
| Schedule.LastParsedColumnWins | lib/textract.ts:211-213 | when several columns name a day, the record holds the parse of the last one that parses |
| Schedule.SlotDaysAreWeekdays | lib/textract.ts:174-213 | the days of a record's slots are weekday names |
| Schedule.InSlotWarnings | lib/textract.ts:215-217 | a row logs a warning exactly for each of its unparsed entries |
| Schedule.RowWarningsAreUnparsedCells | lib/textract.ts:208-217 | a row's warnings are exactly its weekday cells that are worth parsing and do not parse, each with the trimmed subject |
| Schedule.WarningsAreUnparsedCells | lib/textract.ts:197-217 | the warnings logged are exactly those about weekday cells of accepted data rows that do not parse |
| Schedule.ExtractTable | lib/textract.ts:165-223 | fails exactly when either header row is missing |
| Schedule.ScanTable | lib/textract.ts:165-233 | a missing header gives the empty list |
| Schedule.ScanSchedule | lib/textract.ts:80-233 | from the blocks on, a missing header gives the empty list |
| Schedule.TableIsTrimmed | lib/textract.ts:98-110 | every grid cell built from blocks is trimmed |
| Schedule.TrimmedCellIsKept | lib/textract.ts:203-204 | in a trimmed grid, `.trim()` leaves a cell as it is |
| Schedule.ScannedRowsAreAcceptedDataRows | lib/textract.ts:192-223 | with both headers in a trimmed grid, there is one record per accepted data row after the headers, in grid order, holding its subject and instructor cells and the slots of its weekday cells |
| Schedule.ScannedRecordsAreFilled | lib/textract.ts:197-223 | every record has a non-empty, trimmed subject and instructor, and slots only under weekday names; there are no more records than rows after the headers |
| Schedule.ScheduleRecordsAreFilled | lib/textract.ts:80-233 | every record answered for any list of blocks is filled in that sense |

## Left out

- The Textract call, reading the uploaded image and the `Blocks || []` default (lines 60-77) are I/O. The model starts from the list of blocks.
- Training the decision-tree classifier (lines 8, 113-160) is left out. Its result is never used on the scan path, and `ml-cart` is foreign code.
- `console.warn`, `console.log`, `console.dir` and `console.error` (lines 215-217, 226-227, 231) are left out. The warnings are modelled as a returned list of `Warning` values.
- The catch of line 230 also catches I/O errors. Only the two header errors are modelled, since they are the only throws in the pure core.
- `Features.UpperRatio` is an exact real, not an IEEE double. `upperCount / len` can round in the source.
- A Dafny `char` is a Unicode scalar value, whereas a JavaScript string is a sequence of UTF-16 code units. Texts holding characters outside the Basic Multilingual Plane, or lone surrogates, are not modelled. An astral character is two units to the source and one character to the model, so `length`, positions in the text, and the upper-case share would differ.
- `RowIndex!` and `ColumnIndex!` (lines 96-97) are modelled as integers. A missing or non-integer index, whose property key would be `"undefined"` or a decimal string, is not modelled.
- Block ids that collide with properties of `Object.prototype` (for example `"__proto__"`) are not modelled. `blockMap` is treated as a plain dictionary.
- Schedule.SlotMap: the map states which days hold which slot. The insertion order of `horarios`' keys, which only shows when the object is printed or serialised, is not modelled.
- Schedule.WarningsAreUnparsedCells: states which warnings are logged. It does not state their order across rows. `Schedule.SlotWarnings` states the order within a row.
- Schedule.ScanSchedule: its own contract states only the missing-header cases. What the records hold is stated at grid level, by `Schedule.ScannedRowsAreAcceptedDataRows`, together with `Schedule.TableIsTrimmed` and `Schedule.ScheduleRecordsAreFilled`.
- Features.ExtractFeatures: its own contract states only the length and the first feature. The values of the second to fourth features are stated by `Features.WordCountFeature`, `Features.UpperShareFeature` and `Features.DigitCountFeature`, and their ranges by the three `…Bounds` lemmas. The last three are stated by `Features.FlagFeatures`.
- The rest of the repository (the API handlers, repositories, services and schemas) is not part of this model.
