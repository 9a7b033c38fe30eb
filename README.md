# Trip planner: the sheet parser and its helpers, in Dafny

The trip planner reads a Google Sheet laid out as a matrix and shows it as a day-by-day
itinerary. The first column, `時間`, holds the time slot. Every other column is a date, with a
header such as `12/28 (日)抵達`. This project models the logic between the sheet and the screen:

- `src/utils/csvParser.js`:
  - `parseSheetUrl` and `extractSheetId` (module `SheetUrl`);
  - `parseOptions`, the `[{A: x}, {B: y}]` choice syntax (module `OptionSyntax`);
  - `inferType`, the event kind taken from keywords (module `EventType`);
  - `parseDateHeader` (module `DateHeader`);
  - the time sort (module `TimeSort`);
  - the merge loop and `finalizeEvent` (module `Merge`);
  - `parseMatrixCSV` itself (module `Matrix`).
- `src/components/EventCard.jsx`: `extractMapLocations`, `removeMapEmoji` and `allMapLocations`
  (module `EventCard`).
- `src/App.jsx`: `calculateStats` and the `filteredItinerary` search filter (module `App`).
- `src/components/NotesModal.jsx`: the state transitions of the notes panel (class
  `Notes.NotesModal`).

`Common` holds the JavaScript string built-ins the code relies on: `trim` with the whitespace
set of `\s`, `split`, `toLowerCase` on the Latin-1, Greek and Cyrillic capitals and decimal rendering of row
indices. `Lists` holds
`Array.prototype.filter`. `Itinerary` holds the event, slot, day and trip records.

The code's shape is kept where it matters:

- The loops become methods with loop invariants: `parseMatrixCSV`'s bucket filling
  (`Matrix.FillBuckets`, `AddRow`, `AddCell`), its per-column loop (`Matrix.BuildDays`), the
  merge loop (`Merge.MergeEvents`), `extractMapLocations`' loop and `calculateStats`' nested
  loops.
- The in-place sort of each day's bucket is an insertion sort on an `array`
  (`TimeSort.SortInPlace`).
- The notes panel is a class whose methods replace its list fields.

Each method is proved equal to a functional reference: `ParseMatrix`, `Merged`, `SortBy`,
`MapLocations` and `StatsOf`. The properties the app relies on are then proved as lemmas about
those references.

The regular expressions become explicit scanners. Each scanner has three lemmas:

- a `...At` lemma: the leftmost match is the one found;
- a `...None` lemma: no match anywhere exactly when the scanner fails;
- a shape lemma for what a match looks like.

Round trips are proved where the code completes one:

- the CSV export URL keeps the sheet id and the gid, and re-parsing it changes nothing;
- a rendered option block parses back to its choices, with any inline white space after `[`,
  around `:` and `,`, and before `]`;
- joining the pieces of a split gives the text back.

## Model

| member | source | states |
|---|---|---|
| SheetUrl.ParseSheetUrl | src/utils/csvParser.js:8-25 | null exactly when the URL is empty, or when it has neither a CSV marker nor a `/d/<id>`. A URL holding `output=csv` or `format=csv` comes back unchanged. Otherwise the result is the export URL of some non-empty id, with the URL's gid. |
| SheetUrl.ExtractSheetId | src/utils/csvParser.js:32-36 | null exactly when the URL is empty or has no `/d/` followed by an id character; otherwise a non-empty id |
| SheetUrl.IdRun | src/utils/csvParser.js:15 | the greedy `[a-zA-Z0-9-_]+` capture: the longest prefix made of id characters |
| SheetUrl.FindSheetId | src/utils/csvParser.js:15 | a found sheet id is a non-empty run of id characters |
| SheetUrl.FindSheetIdNone | src/utils/csvParser.js:15-16 | the search fails exactly when no position holds `/d/` followed by an id character |
| SheetUrl.FindSheetIdAt | src/utils/csvParser.js:15 | the leftmost `/d/` match wins, and the id is the whole id-character run after it |
| SheetUrl.DigitRun | src/utils/csvParser.js:21 | the greedy `[0-9]+` capture: the longest prefix of digits |
| SheetUrl.FindGid | src/utils/csvParser.js:21 | a found gid is a non-empty run of digits |
| SheetUrl.FindGidNone | src/utils/csvParser.js:21-22 | the gid search fails exactly when no position holds one of `#&?` followed by `gid=` and a digit |
| SheetUrl.FindGidAt | src/utils/csvParser.js:21 | the leftmost `[#&?]gid=` match wins, and the gid is the digit run after it |
| SheetUrl.Gid | src/utils/csvParser.js:21-22 | the gid is always a non-empty digit string (the default is "0") |
| SheetUrl.ExportUrlIsCsv | src/utils/csvParser.js:12-24 | every export URL built is recognised as a CSV URL |
| SheetUrl.ParseSheetUrlIdempotent | src/utils/csvParser.js:12-24 | applying parseSheetUrl to its own non-null result gives that result again |
| SheetUrl.ExportUrlId | src/utils/csvParser.js:15-24 | the sheet id found in an export URL is the id it was built from |
| SheetUrl.ParseSheetUrlKeepsId | src/utils/csvParser.js:15-35 | extractSheetId of a non-null parseSheetUrl result equals extractSheetId of the input |
| SheetUrl.ExportUrlGid | src/utils/csvParser.js:21-24 | the gid found in an export URL is the gid it was built from |
| SheetUrl.ParseSheetUrlKeepsGid | src/utils/csvParser.js:21-24 | a rewritten URL carries the input's gid: its first `[#&?]gid=` digits, else "0" |
| OptionSyntax.SkipSpace | src/utils/csvParser.js:48 | the `\s*` of the block pattern stops at the end of the text or at a character that is not white space |
| OptionSyntax.SkipSpaceSkips | src/utils/csvParser.js:48 | every character the `\s*` passes over is white space |
| OptionSyntax.CloserAt | src/utils/csvParser.js:48 | a `}` followed by optional whitespace and `]` closes the block at that `]` |
| OptionSyntax.CloseFrom | src/utils/csvParser.js:48 | the lazy `.*?` scan ends on a `]`, after the start |
| OptionSyntax.BlockAt | src/utils/csvParser.js:48 | a block found at p starts with `[` there and ends on a later `]` |
| OptionSyntax.FindBlock | src/utils/csvParser.js:48 | a found block starts at or after the search start and is a block there |
| OptionSyntax.FindBlockNone | src/utils/csvParser.js:48-49 | the search fails exactly when no position holds a block |
| OptionSyntax.FindBlockFirst | src/utils/csvParser.js:48 | no block starts before the one found (leftmost match) |
| OptionSyntax.FindBlockAt | src/utils/csvParser.js:48 | the first position holding a block is the one found |
| OptionSyntax.SepLen | src/utils/csvParser.js:57 | a separator `}\s*,\s*{` starts with `}` and fits in the text |
| OptionSyntax.SplitStep | src/utils/csvParser.js:57 | text without `}` followed by a separator `}<gap>,<gap>{` splits into that text and the split of the rest |
| OptionSyntax.SplitAtSeparator | src/utils/csvParser.js:57 | a text that starts with a separator `}<gap>,<gap>{` (inline white space around the comma) splits off an empty piece, then splits the rest |
| OptionSyntax.SplitLast | src/utils/csvParser.js:57 | text without `}` ended by `}` and white space is one piece |
| OptionSyntax.SkipSpaceRun | src/utils/csvParser.js:48 | the greedy `\s*` stops exactly at the end of the white-space run |
| OptionSyntax.CloseFromSep | src/utils/csvParser.js:48 | the lazy scan does not stop at the `}` of a separator, because a `,` and not a `]` follows it |
| OptionSyntax.CloseFromChain | src/utils/csvParser.js:48 | the lazy scan over the rendered choices passes every separator and stops at the `}` that closes the block |
| OptionSyntax.IndexOfAt | src/utils/csvParser.js:66-67 | `indexOf` returns the first occurrence |
| OptionSyntax.SplitFieldAt | src/utils/csvParser.js:65-72 | a text whose first colon follows `u` splits into trimmed `u` and trimmed rest |
| OptionSyntax.IndexOf | src/utils/csvParser.js:66-67 | `indexOf(':')`: -1 (None) exactly when the colon is absent; otherwise the first colon |
| OptionSyntax.SplitField | src/utils/csvParser.js:65-72 | null exactly when there is no colon; otherwise a label without a colon and a value, both trimmed |
| OptionSyntax.ParseEntry | src/utils/csvParser.js:59-72 | an entry is dropped exactly when its unwrapped text has no colon; a kept entry is well formed |
| OptionSyntax.ParseAll | src/utils/csvParser.js:59-72 | the map: one parse result per raw piece, in order |
| OptionSyntax.SomesMembers | src/utils/csvParser.js:73 | the `filter(opt => opt !== null)`: the kept values are exactly the non-null results, and nothing is kept exactly when all are null |
| OptionSyntax.SomesAll | src/utils/csvParser.js:73 | when no result is null the filter keeps every one of them, in order |
| OptionSyntax.Entries | src/utils/csvParser.js:59-73 | no more entries than raw pieces, every one well formed |
| OptionSyntax.EntriesSound | src/utils/csvParser.js:59-73 | every entry comes from a raw piece |
| OptionSyntax.EntriesComplete | src/utils/csvParser.js:59-73 | every piece with a colon yields its entry |
| OptionSyntax.EntriesEmpty | src/utils/csvParser.js:59-75 | the list is empty exactly when no piece has a colon |
| OptionSyntax.ParseOptions | src/utils/csvParser.js:44-76 | null for empty text and for text with no block; a non-null result is a non-empty list of well-formed choices |
| OptionSyntax.ParseOptionsBlock | src/utils/csvParser.js:48-75 | with a leftmost block, the result is non-null exactly when one of the block's pieces has a colon once unwrapped, and then it is the entries of those pieces |
| OptionSyntax.NoColonCell | src/utils/csvParser.js:59-75 | `[{abc}]` has a block but gives null, since its only option has no colon |
| OptionSyntax.UnwrapPiece | src/utils/csvParser.js:61-63 | trimming and removing one `{` and one `}` gives back the trimmed text between them, whatever white space lies outside the braces |
| OptionSyntax.SplitInner | src/utils/csvParser.js:65-72 | `label<gap>:<gap>value` splits back into that label and value |
| OptionSyntax.ParsePiece | src/utils/csvParser.js:59-72 | a rendered piece, first, middle or last, parses back to its choice |
| OptionSyntax.RenderedEntries | src/utils/csvParser.js:57-73 | the content of a rendered block, with any inline spacing, splits and parses back to the choices rendered |
| OptionSyntax.RenderedBlock | src/utils/csvParser.js:48-54 | a rendered block preceded by no `[` is the block found, and its content is the rendered choices |
| OptionSyntax.ParseAt | src/utils/csvParser.js:44-76 | a text holding a rendered block, with no `[` before it, parses to the rendered choices |
| OptionSyntax.ParseRendered | src/utils/csvParser.js:44-76 | round trip: prefix (without `[`) + rendered choices + any suffix parses to those choices, for any inline white space after `[`, around `:` and `,` and before `]` (white space beside the colon only next to a non-empty label or value) |
| OptionSyntax.SampleCell | src/utils/csvParser.js:44-76 | `午餐 [{A:牛舌}, {B:拉麵}]` parses to the two choices A and B |
| OptionSyntax.DocumentedPair | src/utils/csvParser.js:39-76 | the documented form `[{A: Option1}, {B: Option2}]`, a space after each colon and comma, parses to its two choices for any labels and non-empty values |
| EventType.InferType | src/utils/csvParser.js:205-212 | the first keyword group present in the lower-cased text decides: food, then transport, then hotel, then shopping, each in both directions |
| EventType.SightseeingIffNoKeyword | src/utils/csvParser.js:211 | sightseeing exactly when no group's keyword occurs |
| EventType.FoodWins | src/utils/csvParser.js:207 | any food keyword makes the event food, whatever else the text holds |
| EventType.LowerKeepsAny | src/utils/csvParser.js:206 | keywords without capitals that occur in the text still occur after lower-casing |
| EventType.LowerIdempotent | src/utils/csvParser.js:206 | lower-casing twice is lower-casing once |
| EventType.InferTypeCaseInsensitive | src/utils/csvParser.js:206-211 | the kind does not change when the text is lower-cased first |
| EventType.UpperCheckInIsHotel | src/utils/csvParser.js:209 | `CHECK-IN` is a hotel event |
| DateHeader.DateMatchLen | src/utils/csvParser.js:218 | a match at p has 3 to 5 characters, fits in the text and is a `\d{1,2}/\d{1,2}` token |
| DateHeader.DateMatchLenComplete | src/utils/csvParser.js:218 | whenever a date token starts at p, a match is found there |
| DateHeader.FindDate | src/utils/csvParser.js:218 | a found date is a `\d{1,2}/\d{1,2}` token |
| DateHeader.FindDateAt | src/utils/csvParser.js:218 | the leftmost date token is the one found |
| DateHeader.FindDateNone | src/utils/csvParser.js:218-221 | the search fails exactly when no position starts a date token |
| DateHeader.FindWeekday | src/utils/csvParser.js:219 | a found weekday is one of the seven glyphs 一二三四五六日 |
| DateHeader.FindWeekdayAt | src/utils/csvParser.js:219 | the leftmost `(<glyph>)` is the one found |
| DateHeader.FindWeekdayNone | src/utils/csvParser.js:219-224 | the search fails exactly when no position holds `(<glyph>)` |
| DateHeader.ParseDateHeader | src/utils/csvParser.js:214-233 | the weekday is one of 週一…週日 or 未知, and 未知 exactly when there is no `(<glyph>)`. Without a date token the date is the whole header; with one, the date is a date token. |
| DateHeader.ParseDateHeaderDate | src/utils/csvParser.js:218-221 | the date is the leftmost date token of the header |
| DateHeader.ParseDateHeaderWeekday | src/utils/csvParser.js:219-229 | the weekday is 週 followed by the glyph of the leftmost `(<glyph>)` |
| DateHeader.NoDigitsWholeHeader | src/utils/csvParser.js:218-221 | a header without digits is its own date |
| DateHeader.PlainHeader | src/utils/csvParser.js:218-230 | a header of ASCII letters and spaces gives itself and 未知 |
| DateHeader.HeaderWithoutDate | src/utils/csvParser.js:218-230 | `No Date Here` gives itself and 未知 |
| DateHeader.SampleDate | src/utils/csvParser.js:218 | the date of `12/28 (日)抵達` is `12/28` |
| DateHeader.SampleWeekday | src/utils/csvParser.js:219 | the weekday glyph of `12/28 (日)抵達` is 日 |
| DateHeader.SampleHeader | src/utils/csvParser.js:214-233 | `12/28 (日)抵達` gives `12/28` and 週日 |
| TimeSort.LeadingDigits | src/utils/csvParser.js:137 | parseInt's digit run: the longest prefix of digits of the radix |
| TimeSort.ParseIntNoDigits | src/utils/csvParser.js:137 | a time without any digit has no leading integer (NaN) |
| TimeSort.ParseIntOfHour | src/utils/csvParser.js:137 | parseInt of `<n>` followed by a non-digit, such as `8:00` or `12:30`, is n |
| TimeSort.ParseIntDecimal | src/utils/csvParser.js:137 | a time starting with a decimal digit (and not `0x`) parses to the value of its leading digit run |
| TimeSort.InsertPermutes | src/utils/csvParser.js:135-138 | inserting adds exactly the one element |
| TimeSort.InsertMembers | src/utils/csvParser.js:135-138 | every element of an insertion is the new one or an old one |
| TimeSort.InsertSorted | src/utils/csvParser.js:135-138 | inserting a keyed element into a sorted keyed list keeps it sorted |
| TimeSort.SortPermutes | src/utils/csvParser.js:135-138 | the sort is a permutation of the bucket |
| TimeSort.SortSorts | src/utils/csvParser.js:135-138 | when every time has a leading integer, the result is in non-decreasing order of it |
| TimeSort.InsertStable | src/utils/csvParser.js:135-138 | insertion keeps the relative order of the elements with any one key |
| TimeSort.SortStable | src/utils/csvParser.js:135-138 | the sort is stable: elements with equal keys, including those without one, keep their order |
| TimeSort.SortInPlace | src/utils/csvParser.js:135-138 | the in-place sort leaves the array holding the reference sort of its old contents |
| TimeSort.InsertAt | src/utils/csvParser.js:135-138 | one pass inserts element i into the sorted prefix and leaves the rest of the array alone |
| TimeSort.SortByTime | src/utils/csvParser.js:135-138 | the sorted bucket has as many events as the bucket |
| Merge.Finalize | src/utils/csvParser.js:193-203 | finalizeEvent keeps the event and its display time begins with the event's time |
| Merge.Runs | src/utils/csvParser.js:141-167 | the runs are non-empty, no more than the events, and none exactly when there are no events |
| Merge.RunsSnoc | src/utils/csvParser.js:150-162 | an event with the last run's title joins it; any other event starts a run |
| Merge.RunsFlatten | src/utils/csvParser.js:141-167 | the runs, put back together, are the events |
| Merge.RunsSameTitle | src/utils/csvParser.js:151 | every event of a run has the run's title |
| Merge.RunsDiffer | src/utils/csvParser.js:151-162 | neighbouring runs have different titles (runs are maximal) |
| Merge.MergedSnoc | src/utils/csvParser.js:144-163 | one more event extends the last merged event when it has that title, and otherwise adds an event of its own |
| Merge.MergeEvents | src/utils/csvParser.js:141-167 | the merge loop's output is the reference merge: one summary per run |
| Merge.MergeStep | src/utils/csvParser.js:144-163 | one iteration keeps the loop invariant relating currentEvent and mergedEvents to the runs seen |
| Merge.StartState | src/utils/csvParser.js:145-147 | the first event opens the current run |
| Merge.AbsorbState | src/utils/csvParser.js:151-157 | an event with the current title extends the current run |
| Merge.CloseState | src/utils/csvParser.js:158-162 | an event with another title pushes the finalized current event and opens a new run |
| Merge.FinishState | src/utils/csvParser.js:165-167 | pushing the last current event completes the reference merge |
| Merge.AbsorbRun | src/utils/csvParser.js:151-157 | absorbing an event is summarising the run extended by it |
| Merge.MergedCount | src/utils/csvParser.js:141-167 | at most as many merged events as events, and none exactly when there are none |
| Merge.MergedAdjacentDiffer | src/utils/csvParser.js:151-162 | adjacent merged events have different titles |
| Merge.MergedEvent | src/utils/csvParser.js:141-203 | merged event i is the first event of run i, with the run's description. It shows `t1 - tN` when the run has two or more events and the last time is not empty, and `t1` otherwise. |
| Merge.RunDescriptionFirst | src/utils/csvParser.js:155-157 | the run's description is its first non-empty description, and empty exactly when all are empty |
| Merge.MergedDistinct | src/utils/csvParser.js:158-162 | when neighbours all differ in title, every event is kept as is, shown at its own time |
| Merge.MergedTimes | src/utils/csvParser.js:141-167 | every merged event starts at the time of one of the events |
| Merge.MergedSorted | src/utils/csvParser.js:135-167 | merging a time-sorted bucket gives merged events sorted by their start time |
| Matrix.DateKeys | src/utils/csvParser.js:90-91 | the date columns are exactly the header keys other than `時間` and the empty key |
| Matrix.DateKeysDistinct | src/utils/csvParser.js:91 | the date columns are distinct |
| Matrix.DateKeysOrder | src/utils/csvParser.js:90-91 | the date columns keep the header order |
| Matrix.CellOfSpec | src/utils/csvParser.js:100-121 | a cell yields no event exactly when the row's time is missing or empty, or the cell is missing or blank once trimmed. Otherwise the event has the trimmed title, the trimmed time, the inferred kind, the parsed options and the id `sheet-<row>-<column>`. |
| Matrix.ColumnStep | src/utils/csvParser.js:100-123 | each row adds its cell's event, if any, to the end of the column's bucket |
| Matrix.ColumnEventsSound | src/utils/csvParser.js:100-123 | every event in a bucket comes from a cell of that column |
| Matrix.ColumnEventsComplete | src/utils/csvParser.js:100-123 | every cell event of a column is in its bucket |
| Matrix.CellCases | src/utils/csvParser.js:104-121 | in a row with a time, a cell contributes its event when it is non-blank and nothing otherwise |
| Matrix.AddCell | src/utils/csvParser.js:104-121 | pushing one cell appends its event to its own column's bucket and leaves the other buckets alone |
| Matrix.AddRow | src/utils/csvParser.js:100-123 | after a row, every bucket holds its column's events up to and including that row |
| Matrix.FillBuckets | src/utils/csvParser.js:93-123 | after the rows loop, every date column's bucket holds that column's events in row order |
| Matrix.BuildDay | src/utils/csvParser.js:130-173 | a day is the header's date and weekday with the bucket sorted by time and merged |
| Matrix.BuildDays | src/utils/csvParser.js:127-174 | one day per date column, in column order |
| Matrix.DaysFromColumns | src/utils/csvParser.js:127-174 | buckets filled from the columns give the days of the sheet |
| Matrix.Days | src/utils/csvParser.js:127-174 | exactly one day per date column |
| Matrix.DaysAt | src/utils/csvParser.js:127-174 | day i is built from date column i |
| Matrix.ParseMatrixCSV | src/utils/csvParser.js:83-191 | the imperative parser returns the reference trip for every sheet |
| Matrix.ParseMatrixShape | src/utils/csvParser.js:84-188 | Without rows: no days and the default metadata `Trip Planner`. Otherwise: one day per date column. The metadata runs from the first day's date to the last day's date, titled `<start> - <end> Trip`. |
| Matrix.ParseMatrixDay | src/utils/csvParser.js:127-173 | day i carries column i's header date and weekday, and its events are the column's events sorted and merged |
| Matrix.DayCount | src/utils/csvParser.js:100-173 | a day has no more events than its column has non-blank cells, and none exactly when there are none |
| Matrix.DayTitlesDiffer | src/utils/csvParser.js:141-173 | adjacent events of a day have different titles |
| Matrix.DaySorted | src/utils/csvParser.js:135-173 | when every time has a leading integer, a day's events are in non-decreasing order of it |
| EventCard.FirstLineShape | src/components/EventCard.jsx:29 | `split('\n')[0]` is a prefix of the part and holds no newline |
| EventCard.ExtractMapLocations | src/components/EventCard.jsx:22-35 | the loop's output is the reference list of locations |
| EventCard.PlacesAfterFirst | src/components/EventCard.jsx:27-33 | the loop over parts 1.. collects the locations of those parts |
| EventCard.LocationsStep | src/components/EventCard.jsx:27-33 | each part adds its trimmed first line when that is non-empty |
| EventCard.LocationsAppend | src/components/EventCard.jsx:27-33 | locations of joined part lists are joined in order (marker order) |
| EventCard.MapLocationsNone | src/components/EventCard.jsx:23-27 | empty text, or text without the marker, has no locations |
| EventCard.SplitCount | src/components/EventCard.jsx:25 | splitting on the marker gives one more part than there are markers |
| EventCard.MapLocationsCount | src/components/EventCard.jsx:25-33 | there are no more locations than markers |
| EventCard.LocationAfterShape | src/components/EventCard.jsx:29 | a non-empty location is trimmed and holds neither a newline nor the marker |
| EventCard.LocationsShape | src/components/EventCard.jsx:27-33 | every location of marker-free parts has that shape |
| EventCard.MapLocationsShape | src/components/EventCard.jsx:22-35 | every extracted location is non-empty and trimmed, without newline or marker |
| EventCard.LocationsSound | src/components/EventCard.jsx:27-33 | every location is the trimmed first line of some part |
| EventCard.LocationsComplete | src/components/EventCard.jsx:27-33 | every part with a non-empty trimmed first line contributes it |
| EventCard.RemoveMapEmoji | src/components/EventCard.jsx:38-42 | the output is never longer than the input |
| EventCard.RemoveAtMarker | src/components/EventCard.jsx:41 | at a marker, the marker and the whitespace after it are deleted |
| EventCard.RemoveAtOther | src/components/EventCard.jsx:41 | any other character is kept, in order |
| EventCard.RemoveWithoutMarker | src/components/EventCard.jsx:41 | text without the marker is unchanged |
| EventCard.RemoveIsGlue | src/components/EventCard.jsx:41 | removal is the marker split re-joined with each later part's leading whitespace trimmed |
| EventCard.RemoveDropsGlyph | src/components/EventCard.jsx:41 | when U+1F5FA only occurs inside full markers, none is left after removal |
| EventCard.RemovedHasNoLocations | src/components/EventCard.jsx:25-41 | when U+1F5FA only occurs inside full markers, the cleaned text has no map locations |
| EventCard.RemoveCanLeaveMarker | src/components/EventCard.jsx:41 | a single pass can create a marker: U+1F5FA, marker, U+FE0F leaves exactly a marker |
| EventCard.AllMapLocationsShape | src/components/EventCard.jsx:45-49 | all locations of title, description and location have the location shape, and there are no more of them than markers in the three texts |
| App.CalculateStats | src/App.jsx:251-270 | the nested loops compute the reference counts, all zero for an empty itinerary |
| App.KindCount | src/App.jsx:263-266 | a kind count never exceeds the number of events |
| App.KindCountIsFilter | src/App.jsx:263-266 | a kind count is the number of events of that kind |
| App.AllSlotsCounts | src/App.jsx:261-267 | the per-day sums equal counts over all events taken together |
| App.StatsCountAllEvents | src/App.jsx:256-267 | totalEvents is the number of events, foodCount and transportCount the number of food and transport events |
| App.StatsBound | src/App.jsx:263-266 | foodCount + transportCount never exceeds totalEvents |
| App.Narrowed | src/App.jsx:282-288 | the map keeps one day per day |
| App.FilteredItinerary | src/App.jsx:278-290 | the filter never adds days |
| App.EmptyQueryKeepsAll | src/App.jsx:279 | an empty query returns the itinerary unchanged |
| App.FilteredCaseInsensitive | src/App.jsx:281-286 | the search ignores the case of the query |
| App.AccentedQueryMatches | src/App.jsx:281-286 | `é` and `É` both find a title `École` or `école` |
| App.TonosQueryMatches | src/App.jsx:281-286 | `ά` and `Ά` both find a title `Άθηνα` |
| App.CyrillicQueryMatches | src/App.jsx:281-286 | `ґ` and `Ґ` both find a title `Ґанок` |
| App.FilteredDaySound | src/App.jsx:282-289 | every day shown is a non-empty day of the itinerary, same date and weekday, holding that day's matching events |
| App.FilteredEventSound | src/App.jsx:284-288 | every event shown matches the lower-cased query in its title, description or location, and belongs to that day |
| App.FilteredComplete | src/App.jsx:282-289 | no matching event is dropped, and its day is shown |
| App.FilteredOrder | src/App.jsx:282-289 | days and the events within each day keep their order |
| Lists.FilterSound | src/App.jsx:284-289 | everything kept by a filter is in the list and satisfies the test |
| Lists.FilterComplete | src/App.jsx:284-289 | everything in the list that satisfies the test is kept |
| Lists.FilterOrder | src/App.jsx:284-289 | a filter keeps the order of what it keeps |
| Lists.FilterAll | src/App.jsx:284-289 | a filter that keeps everything returns the list |
| Lists.FilterAppend | src/App.jsx:284-289 | filtering distributes over concatenation |
| Common.Trim | src/utils/csvParser.js:106-107 | `trim()`: the result has no white space at either end and sits in the text with only white space before and after it; trimmed text is its own trim |
| Common.TrimUnique | src/utils/csvParser.js:106-107 | any trimmed slice with only white space around it is the trim of the text |
| Common.TrimPadded | src/utils/csvParser.js:106-107 | white space added around trimmed text is what trim removes |
| Common.TrimStart | src/components/EventCard.jsx:41 | the `\s*` after a marker: only whitespace is dropped, and the rest starts with a non-space |
| Common.Lower | src/utils/csvParser.js:206 | lower-casing keeps the length |
| Common.LowerCharIdempotent | src/utils/csvParser.js:206 | a lower-cased character lower-cases to itself |
| Common.NatToString | src/utils/csvParser.js:111 | a row index renders as a non-empty digit string |
| Common.Split | src/components/EventCard.jsx:25 | `split` always gives at least one part |
| Common.JoinSplit | src/components/EventCard.jsx:25 | joining the split parts with the separator gives the text back |
| Common.SplitPiecesFree | src/components/EventCard.jsx:25 | no part of a split holds the separator |
| Common.SplitFirstIsPrefix | src/components/EventCard.jsx:29 | the first part of a split is a prefix of the text |
| Common.SplitWithout | src/components/EventCard.jsx:25 | text without the separator splits into itself |
| Notes.Delete | src/components/NotesModal.jsx:59 | deleting never lengthens the list |
| Notes.DeleteExact | src/components/NotesModal.jsx:59 | deleting removes exactly the items with that id |
| Notes.DeleteOrder | src/components/NotesModal.jsx:59 | the remaining items keep their order |
| Notes.DeleteAbsent | src/components/NotesModal.jsx:59 | deleting an id no item has changes nothing |
| Notes.DeleteAfterAdd | src/components/NotesModal.jsx:49-61 | deleting the item just added under a fresh id restores the list |
| Notes.DeleteTwice | src/components/NotesModal.jsx:59 | deleting twice is deleting once |
| Notes.Toggled | src/components/NotesModal.jsx:87-89 | toggling keeps the length |
| Notes.ToggledChanges | src/components/NotesModal.jsx:87-89 | only the check mark changes, and it flips exactly on the items with that id |
| Notes.ToggleTwice | src/components/NotesModal.jsx:84-91 | toggling the same id twice restores the list |
| Notes.ToggleAbsent | src/components/NotesModal.jsx:87-89 | toggling an id no item has changes nothing |
| Notes.NotesModal.constructor | src/components/NotesModal.jsx:20-25 | a panel without saved notes: empty texts, empty lists, and empty input boxes |
| Notes.NotesModal.HandleTextChange | src/components/NotesModal.jsx:33-35 | the named note takes the value; every other field is unchanged |
| Notes.NotesModal.SetBudgetItemInput | src/components/NotesModal.jsx:179 | only the budget item box changes |
| Notes.NotesModal.SetBudgetAmountInput | src/components/NotesModal.jsx:186 | only the budget amount box changes |
| Notes.NotesModal.SetShoppingInput | src/components/NotesModal.jsx:225 | only the shopping box changes |
| Notes.NotesModal.AddBudgetItem | src/components/NotesModal.jsx:39-54 | With an empty item or amount box, nothing changes. Otherwise exactly one item, holding the boxes' contents under id `now`, is appended after the old items, and both boxes are cleared. |
| Notes.NotesModal.DeleteBudgetItem | src/components/NotesModal.jsx:56-61 | the budget becomes the old budget without the items with that id; everything else is unchanged |
| Notes.NotesModal.AddShoppingItem | src/components/NotesModal.jsx:67-82 | With input that is blank once trimmed, nothing changes. Otherwise an unchecked item holding the untrimmed input under id `now` is appended, and the box is cleared. |
| Notes.NotesModal.ToggleShoppingItem | src/components/NotesModal.jsx:84-91 | the shopping list becomes the toggled list; everything else is unchanged |
| Notes.NotesModal.DeleteShoppingItem | src/components/NotesModal.jsx:93-98 | the shopping list loses the items with that id; everything else is unchanged |

## Left out

- Fetching the sheet, running PapaParse, localStorage persistence and all rendering are I/O or UI. They are not part of this model.
- `parseMatrixCSV` takes the header order and the rows directly, with each row a map from column name to cell text. The header order stands for `Object.keys` of the first row: JavaScript puts integer-like keys first, and the model takes the order as given.
- Absent values (`null`, `undefined`, missing keys, optional chaining in the search filter) are modelled as empty strings or lists, which the code treats the same way as falsy.
- `Date.now()` for new note ids is the parameter `now`.
- Notes.NotesModal.AddBudgetItem: keeps the amount as the typed text. The `parseFloat` conversion and the `budgetTotal` sum are floating point and are not modelled.
- Notes.NotesModal.HandleTextChange: the field is limited to the two text areas the panel wires to it (`transport` and `general`). Computed keys naming other fields are not modelled.
- Strings are sequences of Unicode code points, while JavaScript uses UTF-16 code units. This changes nothing for the code paths here except text with unpaired surrogates.
- Common.Lower: models `toLowerCase` only on the one-character case pairs of U+0000–U+00FF (Basic Latin and Latin-1), U+0370–U+03FF (Greek and Coptic, tonos capitals and `Ϊ`, `Ϋ` included), U+0400–U+052F (Cyrillic and Cyrillic Supplement) and the full-width Latin capitals U+FF21–U+FF3A. Capital sigma `Σ` (whose lower case depends on its neighbours) and every capital outside those ranges are kept as written: the Latin Extended letters such as `Ā` and `İ`, Greek Extended (U+1F00–U+1FFF), the Kelvin and Ångström signs, and the Armenian, Georgian and Cherokee capitals. `inferType` and the search differ from JavaScript exactly on text holding such letters.
- App.FilteredItinerary: lower-cases the query and the title, description and location with Common.Lower. A query and a field that differ only in the case of a letter outside the ranges above, or capital sigma (`ā` against `Ā`, `σ` against `Σ`, `ἀ` against `Ἀ`, `k` against the Kelvin sign) do not match in the model, where JavaScript matches them.
- TimeSort.SortSorts: sortedness is proved only when every time has a leading integer. When `parseInt` gives NaN, the comparator returns NaN and the engine's order is implementation-defined. The model keeps such events in place relative to each other (a stable insertion sort that moves an event only past events with a larger hour). Stability itself (TimeSort.SortStable) is proved for all inputs.
- TimeSort.SortByTime: compares the hours as exact integers, where the comparator subtracts two floating-point numbers. Hours above 2^53 can round to the same number and compare equal, and a digit run long enough to parse to Infinity makes the difference of two such hours NaN. The model's order differs from the engine's only for such times.
- The merged event's `endTime: null` field is never read by the app and is not modelled. The deleted `lastTimeBlock` field exists only in the loop state (`Merge.Pending`).
- Merge.Finalize: states the event and the start of the display time. The full display time is stated per run by Merge.MergedEvent.
- The `forEach` callbacks are written as methods of their own: Merge.MergeStep, EventCard.PlacesAfterFirst, Matrix.AddRow and Matrix.AddCell.
- Geocoding, the map view, date navigation and the other components lie outside this model.
