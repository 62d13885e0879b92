# Late-arrival sheet ingestion, modelled in Dafny

The model covers `services/sheetService.ts` of the discipline-unit dashboard. That is the code that turns what a Google Apps Script web app returns into the dashboard's list of late-arrival records. It has four parts:

- **Response check.** A login page (an HTML content type) or a failed status rejects the fetch.
- **Decoding.** The JSON shapes are a bare array, `{data: [...]}`, `{records: [...]}`, a lone object, or an array of arrays whose first row is the header. Text that is not JSON is parsed as CSV instead.
- **`mapRowToRecord`.**
  - `getIndex` and `findKey` resolve the roles (timestamp, id, name, class, reason) by a case-insensitive substring search against Malay and English synonyms.
  - Rows that name no student are dropped.
  - Missing cells get their defaults. The name and the class are trimmed and upper-cased.
  - `parseDate` reads the timestamp.
  - The lateness is counted in minutes past 07:30.
- **Duplicate filter and sort.** Only the first scan of a student on a calendar day is kept, keyed by the cleaned name and the day. The survivors are then sorted newest first by a stable sort.

The JavaScript built-ins the service relies on are modelled explicitly:

- `trim`, the ASCII case mappings, `includes`, `split` and `parseInt`
- integer rendering, truthiness, `String(v)` and `Object.keys`
- `new Date(y, m, d)`, whose month and day carry over, and `setHours`
- `getTime` with the ECMA-262 day arithmetic and the time-value range of TimeClip

Modules:

- `JsText`, `JsValue` and `JsDate` model those built-ins. `JsDate.DateObject` is the mutable `Date` that `parseDate` reassigns and changes with `setHours`.
- `Roles` holds `findKey` and `getIndex`.
- `DateParsing` holds `parseDate`. It is written both as a method in the source's own steps and as layered functions (`BaseDate`, `WithTime`, `ParsedDate`), and the method is proved equal to `ParsedDate`.
- `Defaults` and `Normaliser` hold `mapRowToRecord`.
- `Decoder` holds the response check and the decoding.
- `KeepFirst` holds the duplicate loop, generic in its key and proved equal to the first-per-key filter `FirstPerKey`.
- `Dedup` holds the name-and-day key.
- `StableSort` holds the sort, an in-place insertion sort on an array proved equal to the stable insertion order `NewestFirst`.
- `Pipeline` holds `fetchSheetData` as a method, proved equal to the function `Ingest`, together with the end-to-end properties.

Calls the code makes into things not shown in this file are parameters:

- `JSON.parse` and `parseCSV` (`Decoder.Parsers`)
- the engine's `new Date(string)`, plus the clock's `new Date()` and its `toISOString()` (`Normaliser.Env`)

Where the code and the behaviour its comments describe disagree, the model follows the code:

- A name cell that is only white space is truthy. It becomes the empty name, not "UNKNOWN" (`BlankNameStaysEmpty`).
- A resolved but empty class cell becomes "-". The "UMUM" default applies only when there is no class column (`ClassDefault`, `FalsyClassDash`).
- The `HH:MM` overwrite also applies to a date the engine parsed itself (`TimeOverwrite`).
- The day key uses the 0-based month of `getMonth()`.
- A `null` row in array mode throws when it is indexed, and the whole fetch fails (`ThrowsIff`, `Failures`).
- A JSON text that is `null` makes `json.data` throw inside the JSON `try`. The text then goes to the CSV parser (`JsonNullFallsBackToCsv`).

## Model

| member | source | states |
|---|---|---|
| JsText.Trim | services/sheetService.ts:20 | the result is a slice of the input whose ends are not white space, everything cut away being white space |
| JsText.TrimOfWhiteSpace | services/sheetService.ts:106 | text made only of white space trims to nothing |
| JsText.Includes | services/sheetService.ts:8 | true exactly when the needle occurs at some position of the text |
| JsText.SplitCount | services/sheetService.ts:20-21 | splitting yields one more piece than there are separator characters |
| JsText.SplitJoin | services/sheetService.ts:48-49 | joining the pieces of a split back with the separator gives the original text |
| JsText.SplitWithoutSeparator | services/sheetService.ts:46 | text holding no separator splits into one piece, itself |
| JsText.ParseIntOfIntToString | services/sheetService.ts:24-26 | `parseInt` of the decimal rendering of an integer gives the integer back |
| JsText.ParseInt | services/sheetService.ts:24-26 | a number is read only from text holding a decimal digit; anything else is NaN |
| JsText.ParseIntOfDigits | services/sheetService.ts:24-26 | a run of decimal digits, leading zeros allowed, reads as the number it denotes |
| JsText.IntToStringInjective | services/sheetService.ts:199 | distinct integers render as distinct texts |
| JsValue.FieldValue | services/sheetService.ts:153-156 | the value under a key is that of the first field with the key, and `undefined` when no field has the key |
| JsValue.ToStr | services/sheetService.ts:119-123 | `String` of a string is the string itself; `String` of a number is text that `parseInt` reads back as that number; only the empty string and arrays render as empty text |
| JsValue.CellsValue | services/sheetService.ts:174-178 | a CSV row becomes an array of the same length whose items are its cells as strings |
| Roles.IncludesAny | services/sheetService.ts:8 | true exactly when the text contains one of the candidates |
| Roles.GetIndex | services/sheetService.ts:71 | -1 exactly when no label matches; otherwise the position of the first matching label |
| Roles.FindKey | services/sheetService.ts:5-9 | nothing exactly when the row is falsy or none of its keys matches; otherwise the first matching key |
| Roles.IndexKeyMatchesNoRole | services/sheetService.ts:6-8 | an index key "0", "1", … matches no synonym of any role |
| Roles.FindKeyOnlyOnObjects | services/sheetService.ts:5-8 | a row that is not an object resolves no role in object mode |
| JsDate.Checked | services/sheetService.ts:16 | a date passes the `isNaN(getTime())` test unchanged exactly when it is valid; nothing invalid passes |
| JsDate.NormaliseDay | services/sheetService.ts:36 | a day outside its month carries into the neighbouring months and lands within a month; an in-range day is kept |
| JsDate.NormaliseDayKeepsDay | services/sheetService.ts:36 | the carried date is the same day as the given day counted from the first of the given month |
| JsDate.CarriedMidnight | services/sheetService.ts:31-36 | after the month carries into the year and the day into the month, the date is well formed and its midnight is the instant of the date as given |
| JsDate.MakeDate | services/sheetService.ts:31-36 | a NaN argument gives an Invalid Date; otherwise the result is valid exactly when midnight of the given year, month and day, carried as the constructor does, lies in the time-value range, and that midnight is its instant |
| JsDate.MakeDateExact | services/sheetService.ts:31 | an existing in-range date with a year outside 0..99 comes back unchanged |
| JsDate.SetHoursValue | services/sheetService.ts:50 | a NaN hour or minute gives an Invalid Date; otherwise the result is valid exactly when the day's midnight plus those hours and minutes, seconds and milliseconds kept, lies in range, and that is its instant |
| JsDate.MinutesInto | services/sheetService.ts:50 | moving to a count of minutes from the day's start gives a well-formed date whose instant is the day's midnight plus those minutes |
| JsDate.SetHoursWithinDay | services/sheetService.ts:50 | an hour and minute of the day change only those two fields |
| JsDate.FourDigitYearsInRange | services/sheetService.ts:13-16 | every calendar date of the years 1 to 9999 is a valid instant |
| JsDate.DateObject.constructor | services/sheetService.ts:13 | the object holds the given value and is a valid Date object |
| JsDate.DateObject.SetHours | services/sheetService.ts:50 | the object now holds `setHours` of its old value; an Invalid Date stays invalid |
| DateParsing.BaseDate | services/sheetService.ts:13-42 | the date before any time is applied is, when present, a valid instant |
| DateParsing.WithTime | services/sheetService.ts:45-53 | applying the requested time keeps the date valid |
| DateParsing.ParsedDate | services/sheetService.ts:12-61 | the result is valid whenever the clock is; any result other than "now" is the base date with the time applied |
| DateParsing.ReadFallback | services/sheetService.ts:17-41 | the `try` block yields exactly the fallback reading of the date text |
| DateParsing.ReadThree | services/sheetService.ts:29-37 | the year-first or day-first branch yields exactly `ReadFields` of the three parsed fields |
| DateParsing.ParseDate | services/sheetService.ts:12-61 | the step-by-step parse returns exactly `ParsedDate` |
| DateParsing.ParseIntWithoutMinus | services/sheetService.ts:21-26 | a field without a minus sign never parses to a negative number |
| DateParsing.StandardParseFirst | services/sheetService.ts:13-16 | a valid standard parse is the base date, and the fallback is not tried |
| DateParsing.ReadYearFirst | services/sheetService.ts:29-31 | a first field above 1900 is read as year, 1-based month, day |
| DateParsing.ReadDayFirst | services/sheetService.ts:32-36 | otherwise the fields are day, 1-based month, year, a year below 100 meaning 2000 plus it |
| DateParsing.FallbackReadsFields | services/sheetService.ts:20-38 | a date the engine rejects is read from its three fields, and the parsed year field is never negative |
| DateParsing.FallbackNeedsThreeFields | services/sheetService.ts:23 | without exactly three fields the fallback yields nothing |
| DateParsing.TimeOverwrite | services/sheetService.ts:45-53 | with `HH:MM` after the date, the result is the base date with that hour and minute |
| DateParsing.NoTimeKeepsBase | services/sheetService.ts:45-53 | without a time request the base date is returned |
| DateParsing.NoSpaceNoTime | services/sheetService.ts:45-47 | text without a space has no second token and asks for no time |
| DateParsing.FallsBackToNow | services/sheetService.ts:56-58 | when no reading gives a valid date, the result is "now" |
| Defaults.DefaultsCleaned | services/sheetService.ts:106-107 | the fallback name and classes clean to "UNKNOWN", "UMUM" and "-" |
| Normaliser.Lateness | services/sheetService.ts:112-115 | zero exactly when the arrival is at or before 07:30; otherwise the minutes past 07:30, at most 989 for a well-formed time |
| Normaliser.Cell | services/sheetService.ts:82-102 | a role's cell is absent exactly when the role is not resolved |
| Normaliser.RejectedIff | services/sheetService.ts:69-96 | a row is dropped exactly when array mode has no headers or neither a name nor an id resolves |
| Normaliser.ThrowsIff | services/sheetService.ts:80-86 | a row throws exactly when an identifiable array-mode row is `null` or `undefined` |
| Normaliser.NonObjectRowRejected | services/sheetService.ts:90-96 | in object mode every non-object row is dropped |
| Normaliser.Cleaned | services/sheetService.ts:106-107 | a cleaned name or class is upper case and neither starts nor ends with white space |
| Normaliser.UpperOfTrimmed | services/sheetService.ts:106-107 | upper-casing a trimmed text keeps it trimmed and is idempotent |
| Normaliser.RecordIdIsPositional | services/sheetService.ts:118 | the record id is `REC-` followed by the row position |
| Normaliser.StudentIdText | services/sheetService.ts:83 | without an id column the id is `S-` and 1000 plus the position; otherwise the cell's text |
| Normaliser.ReasonText | services/sheetService.ts:86 | without a reason column the reason is "Tiada Rekod"; otherwise the cell's text |
| Normaliser.NameDefault | services/sheetService.ts:84 | a missing or falsy name becomes "UNKNOWN" |
| Normaliser.ClassDefault | services/sheetService.ts:85 | without a class column the class is "UMUM" |
| Normaliser.FalsyClassDash | services/sheetService.ts:107 | a resolved but falsy class becomes "-" |
| Normaliser.BlankNameStaysEmpty | services/sheetService.ts:106 | a name made only of white space becomes the empty name |
| Normaliser.CleanedBlank | services/sheetService.ts:106 | a non-empty text of white space is truthy and cleans to the empty text |
| Normaliser.RecordTiming | services/sheetService.ts:108-115 | with a valid clock the timestamp is valid and the lateness is the arrival's minutes past 07:30, within 0..989, zero exactly when on time |
| Normaliser.AcceptedIsTimed | services/sheetService.ts:108-115 | with a valid clock the record of an accepted row has a valid timestamp and the arrival's minutes past 07:30 as its lateness |
| Normaliser.RecordDate | services/sheetService.ts:108-110 | the row's instant is valid whenever the clock is, and any instant other than "now" was read from the date cell's text with its time applied |
| Normaliser.MissingDateIsNow | services/sheetService.ts:108-110 | with a clock whose ISO text the engine reads back, a row whose date is missing or falsy is stamped with the clock's own instant |
| Decoder.Admit | services/sheetService.ts:134-140 | the login-page error exactly for an HTML content type; the unreachable error exactly for a non-HTML failed status; otherwise the body |
| Decoder.JsonRows | services/sheetService.ts:151-160 | a top-level array is its own rows; `null` gives no JSON rows, so the text goes to CSV; any other scalar gives no rows |
| Decoder.AuthCheckedFirst | services/sheetService.ts:136-140 | a login page is reported as such even when the status failed |
| Decoder.HtmlAnywhereInContentType | services/sheetService.ts:136 | any content type containing `text/html` is a login page |
| Decoder.DataBeforeRecords | services/sheetService.ts:153-156 | a `data` array wins over a `records` array |
| Decoder.RecordsWhenDataNotArray | services/sheetService.ts:153-156 | when `data` is not an array and `records` is, the rows are `records` |
| Decoder.LoneObjectIsOneRow | services/sheetService.ts:157-159 | an object with neither array is the single row |
| Decoder.JsonNullFallsBackToCsv | services/sheetService.ts:149-175 | a JSON `null` sends the text to the CSV parser |
| Decoder.SplitHeader | services/sheetService.ts:164-169 | array mode exactly when the first row is an array; then the headers are the `String` of its items and the data are the rows after it; otherwise the rows are kept and there are no headers |
| Decoder.HeaderRowRoundTrip | services/sheetService.ts:164-168 | a header row of strings comes back as the column names, and the data rows follow unchanged |
| Decoder.ObjectModeKeepsRows | services/sheetService.ts:164 | without a leading array the rows are kept whole in object mode |
| Decoder.CsvPayload | services/sheetService.ts:174-179 | array mode exactly when the CSV has two rows or more, with one data row fewer than CSV rows; no rows otherwise |
| Decoder.Grid | services/sheetService.ts:174-178 | each CSV row becomes the array value of its cells |
| Decoder.JsonGridMatchesCsv | services/sheetService.ts:164-179 | a JSON array of string rows and the same rows as CSV decode to the same payload |
| KeepFirst.KeySet | services/sheetService.ts:193-205 | the `seen` set holds exactly the keys of the elements |
| KeepFirst.FirstPerKey | services/sheetService.ts:193-208 | the filter never yields more elements than it was given |
| KeepFirst.Deduplicate | services/sheetService.ts:193-208 | the loop returns exactly the first element of every key, in order |
| KeepFirst.Extend | services/sheetService.ts:204-207 | one more element adds its key to `seen` and survives exactly when its key is new |
| KeepFirst.SurvivorsAt | services/sheetService.ts:196-207 | the survivors are the input elements at the kept positions, in order |
| KeepFirst.KeptAreFirsts | services/sheetService.ts:204-207 | a position is kept exactly when no earlier element has its key |
| KeepFirst.SurvivorsDistinct | services/sheetService.ts:204-207 | no two survivors share a key |
| KeepFirst.SurvivorKeys | services/sheetService.ts:204-207 | every key of the input keeps a survivor |
| KeepFirst.SurvivorsFromInput | services/sheetService.ts:196-207 | the survivors are a sub-multiset of the input |
| KeepFirst.SurvivorsKeepDistinct | services/sheetService.ts:196-207 | any other key that was distinct stays distinct |
| KeepFirst.DistinctSurvives | services/sheetService.ts:204-207 | input whose keys are already distinct passes unchanged |
| KeepFirst.FilterIdempotent | services/sheetService.ts:193-208 | filtering twice is filtering once |
| Dedup.DayKeyIdentifiesDay | services/sheetService.ts:199 | two dates have equal day keys exactly when year, month and day agree |
| Dedup.DayKeyHasNoUnderscore | services/sheetService.ts:199-202 | the day key never contains the `_` separator |
| Dedup.KeyIsNameAndDay | services/sheetService.ts:198-202 | two records share a key exactly when their cleaned names agree and they fall on the same day |
| Dedup.DedupKey | services/sheetService.ts:199-202 | for a well-formed date the key ends with `_` and the day key, that `_` being the last one, so the day is read back from the key |
| StableSort.SortNewestFirst | services/sheetService.ts:211 | the array ends up holding exactly the stable newest-first order of its old contents |
| StableSort.InsertInto | services/sheetService.ts:211 | one insertion step places the element into the sorted prefix and leaves the rest alone |
| StableSort.InsertSplit | services/sheetService.ts:211 | an element is inserted after those at least as recent and before the strictly older ones |
| StableSort.InsertPermutes | services/sheetService.ts:211 | insertion adds exactly the element |
| StableSort.NewestFirstPermutes | services/sheetService.ts:211 | the sort is a permutation of its input |
| StableSort.InsertDescending | services/sheetService.ts:211 | insertion into a descending sequence keeps it descending |
| StableSort.NewestFirstDescending | services/sheetService.ts:211 | the sorted result is newest first |
| StableSort.InsertStable | services/sheetService.ts:211 | insertion puts the element after every element of its time |
| StableSort.NewestFirstStable | services/sheetService.ts:211 | elements of equal time keep their input order |
| StableSort.SortedUnchanged | services/sheetService.ts:211 | sorting an already newest-first sequence changes nothing |
| StableSort.InsertDistinct | services/sheetService.ts:211 | insertion of a new key keeps keys distinct |
| StableSort.NewestFirstDistinct | services/sheetService.ts:211 | sorting keeps keys distinct |
| Pipeline.Outcomes | services/sheetService.ts:186-187 | one outcome per data row, the row's `mapRowToRecord` at its position |
| Pipeline.AcceptedAt | services/sheetService.ts:186-188 | the positions of the accepted rows: each one listed, in increasing order, and nothing else |
| Pipeline.RecordsOf | services/sheetService.ts:188 | the records are those of the accepted rows, one per accepted row, in increasing row order, and never more than the rows |
| Pipeline.Collect | services/sheetService.ts:186-188 | the fetch fails with the row error exactly when some row throws |
| Pipeline.Ingest | services/sheetService.ts:131-211 | a fetch succeeds only for a non-HTML response with an ok status, and yields at most one record per data row |
| Pipeline.FetchSheetData | services/sheetService.ts:131-211 | the fetch as performed returns exactly `Ingest` of the response |
| Pipeline.DeduplicateAndSort | services/sheetService.ts:193-211 | the duplicate loop and the in-place sort give the newest-first order of the first record per name and day |
| Pipeline.AcceptedFromRows | services/sheetService.ts:186-188 | every record comes from an accepted row, and every accepted row's record is kept |
| Pipeline.IdsDistinct | services/sheetService.ts:118 | positional ids of the kept records are pairwise distinct, and each is the id of some row position |
| Pipeline.RowIds | services/sheetService.ts:118 | each accepted row's record carries the id of its position |
| Pipeline.RecordsTimed | services/sheetService.ts:108-115 | with a valid clock every record has a valid timestamp and a lateness that is its arrival's minutes past 07:30, within 0..989 |
| Pipeline.FinalOrder | services/sheetService.ts:193-211 | the result is newest first, one record per name and day, every name and day kept, nothing new added |
| Pipeline.FinalTiesStable | services/sheetService.ts:211 | records of equal time keep the order the filter left them in |
| Pipeline.FinalIdsDistinct | services/sheetService.ts:193-211 | the filter and the sort keep record ids distinct |
| Pipeline.Failures | services/sheetService.ts:134-140 | each error is returned exactly in its case: login page, failed status, throwing row |
| Pipeline.Delivered | services/sheetService.ts:186-211 | the records of a payload come out newest first, one per name and day, with distinct ids, valid timestamps and each lateness the arrival's minutes past 07:30 |
| Pipeline.Success | services/sheetService.ts:131-211 | every successful fetch has the properties of `Delivered` |
| Pipeline.JsonAndCsvAgree | services/sheetService.ts:147-180 | a sheet sent as JSON string rows and the same sheet sent as CSV give the same result |

## Left out

- The network request and its URL, `response.text()`, the console messages and the wording of the thrown errors are left out. The response is a value (`Decoder.Response`), and the errors are the three cases of `Decoder.IngestError`.
- `JSON.parse` and `parseCSV` are parameters. `utils/csvParser.ts` is not part of this model, and neither is the JSON grammar.
- The engine's `new Date(string)` for ISO and other formats is a parameter (`Env.stdParse`). Only its validity is checked, via `Checked`.
- The clock is read once per fetch (`Env.now` and its ISO text `Env.nowIso`). The source reads it for each row that lacks a date (`new Date().toISOString()` at services/sheetService.ts:108), and again inside `parseDate` whenever no reading gives a valid date (`new Date()` at services/sheetService.ts:57). All these readings are taken to be the same instant.
- Normaliser.MissingDateIsNow assumes the engine reads the clock's ISO text back as the clock's instant, and that the text holds no space (`Normaliser.ClockCoherent`), as `toISOString()` output does.
- Local time is taken to be UTC. A timestamp is kept as its calendar fields, not as the ISO string. The `toISOString()` and `new Date(iso)` round trip in the duplicate filter and the sort is taken to be exact.
- Numbers decoded from JSON are integers. Fractional numbers, `NaN` and exponent rendering in `String(v)` are left out.
- `toUpperCase` and `toLowerCase` map ASCII letters only. Unicode case mapping is left out.
- `Object.keys` returns an object's keys in field order. The engine's rule that integer-like keys come first, and duplicate JSON keys, are left out.
- The `try`/`catch` around the date fallback is left out, because nothing in that block can throw in the model.
- KeepFirst.Deduplicate and StableSort.SortNewestFirst are generic in the key and the time function. The service instantiates them with `Dedup.DedupKey` and `Pipeline.Time`.
- Decoder.Decode: its own contract says only that object mode carries no headers. It composes `JsonRows`, `SplitHeader` and `CsvPayload`, whose contracts say what each step yields. `DataBeforeRecords`, `RecordsWhenDataNotArray` and `LoneObjectIsOneRow` state what `JsonRows` yields for an object. `HeaderRowRoundTrip` and `ObjectModeKeepsRows` state what `SplitHeader` yields. Only `JsonNullFallsBackToCsv` states what `Decode` itself yields.
- Normaliser.MapRowToRecord carries no contract of its own. What it promises is stated by RejectedIff, ThrowsIff, NonObjectRowRejected and the record lemmas.
- The mock data service, the React components and the types file are outside the modelled core.
