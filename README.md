# Dispatch lookups: on-call rotation, availability, Canadian nearest technician, and the table backends

This project models, in Dafny, the core of a small dispatch tool set:

- **The on-call web page** (`oncall_webapp_v8/app.js`). It reads three things:
  - the on-call rotation workbook: Start/End rows, week columns, and market rows with their ZIP codes and the New Jersey sub-row;
  - the daily availability sheet, in both its weekly layout and its month layout;
  - the technician and US ZIP tables.
  
  It then picks the week for a date and detects the market and technician for a ZIP code:
  - state filter;
  - first pass over the markets;
  - fallback to neighbouring weeks;
  - ranking by distance;
  - confidence and coverage.
  
  The page's global tables are fields of a class, `App.AppState`, and its loading and lookup functions are that class's methods.
- **The Canadian dispatch page** (`canada_dispatch_w2/app.js`):
  - postal-code normalisation and extraction from a ticket;
  - province and coordinates of a postal code;
  - the effective drive factor and the ETA text;
  - the ranking of technicians by distance that `findClosest` shows.
- **The Express backend and its seeding script** (`backend/src/server.js`, `backend/tools/seed_local_files.js`):
  - safe SQL names;
  - sheet-to-rows conversion with de-duplicated column names;
  - chunked `INSERT` statements with numbered placeholders;
  - the upload route's table plan (drop in replace mode, create, insert);
  - the export route and the two routes feeding the on-call page.
- **The Supabase edge function** (`supabase_edge_functions/api/index.ts`):
  - `pick` over field aliases;
  - path normalisation and routing;
  - the technician, ZIP, Canadian technician and postal-to-province routes;
  - the allow-listed export.

Conventions:
- Dates are day numbers counted from 1970-01-01 (`Calendar`).
- Spreadsheet cells are `Cells.Cell`.
- A JavaScript object is a `Records.Record`, an ordered list of key/value pairs.
- SQL statements are the values the backend would send (`TableImport.Statement`); the database is not modelled.

Where the source loops or updates state, the model is a method with loop invariants, proved equal to a specification function. Lemmas then state what that function guarantees.

## Model

| member | source | states |
|---|---|---|
| `Cells.NormalizeZip` | oncall_webapp_v8/app.js:216-229 | a normalised ZIP is exactly five digits, or there is none |
| `Cells.NormalizeZipOfZip` | oncall_webapp_v8/app.js:216-222 | a five-digit text is its own ZIP |
| `Cells.NormalizeZipIdempotent` | oncall_webapp_v8/app.js:216-229 | normalising a normalised ZIP gives it back |
| `Cells.NormalizeZipOfNumber` | oncall_webapp_v8/app.js:224-228 | a number below 100000 (a ZIP whose leading zeros the spreadsheet dropped) normalises to five digits of the same value |
| `Cells.NormalizeZipNone` | oncall_webapp_v8/app.js:216-229 | there is no ZIP exactly when the cell is empty, the empty text, or its trimmed text has no digit |
| `Cells.NormalizeZipFirstRun` | oncall_webapp_v8/app.js:220-222 | the leftmost run of five digits anywhere in the trimmed text is the ZIP |
| `Cells.NormalizeZipFirstFive` | oncall_webapp_v8/app.js:224-227 | with no run of five, five or more digits scattered in the text give their first five |
| `Cells.NormalizeZipPadded` | oncall_webapp_v8/app.js:224-228 | with no run of five, one to four digits are zero-padded on the left to five, which keeps their numeric value |
| `Cells.ParseExcelDateRaw` | oncall_webapp_v8/app.js:274-309 | a parsed date is a day the page's `Date` can hold; an empty cell has no date |
| `Cells.ParseExcelDateShifted` | oncall_webapp_v8/app.js:231-272 | `parseExcelDate` is `parseExcelDateRaw` plus one day, and fails exactly when it fails |
| `Cells.ExcelSerialLandmarks` | oncall_webapp_v8/app.js:237-241 | serial 1 is 1900-01-01, 59 is 1900-02-28, 60 (the phantom 29 February) falls on the same day as 59, 61 is 1900-03-01, 25569 is 1970-01-01 |
| `Cells.ParseExcelDateRawMdy` | oncall_webapp_v8/app.js:289-298 | an `M/D/YYYY` text naming a real day parses to that calendar date |
| `Cells.ParseExcelDateRawMdyYear` | oncall_webapp_v8/app.js:287-297 | an `M/D/YY` to `M/D/YYYY` text naming a real day parses to that date, a two-digit year read as 2000 plus it |
| `Cells.ParseExcelDateRawFallback` | oncall_webapp_v8/app.js:287-305 | a text that does not match `M/D/Y`, or whose month is outside 1-12 or day outside 1-31, is what the generic `Date` parse makes of it, or nothing |
| `Cells.ParseExcelDateRawSerial` | oncall_webapp_v8/app.js:280-284 | a serial counts days from 1899-12-31 below 60 and one day fewer from 60 on (the 1900 leap-year bug), so serial 61 is 1900-03-01 |
| `Cells.ParseTechCell` | oncall_webapp_v8/app.js:1208-1214 | no cell exactly when the trimmed text is blank; `raw` is the trimmed text; reserved exactly when it contains "reserve" in any case |
| `Cells.ParseTechCellId` | oncall_webapp_v8/app.js:1212 | the tech id is the leftmost whole-word run of four to six digits; none exactly when there is no such run |
| `Calendar.CivilSpec` | oncall_webapp_v8/app.js:559-565 | the UTC calendar fields of any day number are a valid date with that day number |
| `Calendar.CivilOfDayNumber` | oncall_webapp_v8/app.js:513 | `Date.UTC` followed by the `getUTC*` fields gives back any valid date |
| `Calendar.DayNumberInjective` | oncall_webapp_v8/app.js:513 | two valid dates with the same day number are the same date |
| `Calendar.WeekdayAfterSunday` | oncall_webapp_v8/app.js:421-432 | `i` days after a Sunday (0 ≤ i < 7) is weekday `i` |
| `Calendar.YmdOrder` | oncall_webapp_v8/app.js:1197-1203 | for years 1000 to 9999, `YYYY-MM-DD` texts compare as strings exactly as their days compare |
| `Calendar.YmdInjective` | oncall_webapp_v8/app.js:559-565 | different days have different `YYYY-MM-DD` texts |
| `Calendar.ParseYmdOfYmd` | oncall_webapp_v8/app.js:582-594 | `shiftYmd`'s parse reads the text of a day back to that day |
| `Calendar.ShiftYmdOfYmd` | oncall_webapp_v8/app.js:582-601 | shifting the text of day `n` by `k` days gives the text of day `n + k` |
| `Markets.NormStateIdempotent` | oncall_webapp_v8/app.js:6 | normalising a state twice is normalising it once |
| `Markets.AltEndIsMatch` | oncall_webapp_v8/app.js:10-38 | the matcher for a market pattern's space-separated words finds a match end exactly where the pattern's alternative matches |
| `Markets.MarketAcceptsStateSpec` | oncall_webapp_v8/app.js:135-146 | a blank state is accepted; a name no state group matches accepts every state; otherwise the first group whose pattern matches decides, accepting exactly its states |
| `Markets.MarketAcceptsStateForMarketSpec` | oncall_webapp_v8/app.js:126-133 | a market's own state hint, when set, accepts exactly that state (case-insensitively); without a hint the display-name rule decides |
| `Markets.ZipToNameInverse` | oncall_webapp_v8/app.js:728-732 | the ZIP-to-name table maps each market ZIP to its name and has no other keys |
| `Markets.DisplayNameOfMarketZip` | oncall_webapp_v8/app.js:728-732 | every market ZIP displays as its market's name |
| `Markets.ReplaceAllWhole` | oncall_webapp_v8/app.js:734-742 | a cell holding exactly a market's name becomes that market's ZIP |
| `Markets.ReplaceNamesNoMatch` | oncall_webapp_v8/app.js:734-742 | a cell naming no market is left unchanged |
| `Markets.ReplaceMarketNamesToZips` | oncall_webapp_v8/app.js:734-742 | only text cells are rewritten, and they stay text |
| `Markets.CleanGrid` | oncall_webapp_v8/app.js:926-927 | the cleaned sheet has the same shape, each cell being the replacement of the cell at that place |
| `Rotation.FindRowIndexContains` | oncall_webapp_v8/app.js:816-825 | the loop returns the specification's first row containing the lower-cased needle, or -1 |
| `Rotation.FindRowSpec` | oncall_webapp_v8/app.js:816-825 | -1 exactly when no row contains the needle; otherwise the first row that contains it |
| `Rotation.StartEndRowsSpec` | oncall_webapp_v8/app.js:827-829 | the Start and End rows are the first rows containing "start" and "end"; missing exactly when one of them is absent |
| `Rotation.FindFirstDateCol` | oncall_webapp_v8/app.js:831-835 | the first column of the Start row holding a date, -1 exactly when there is none |
| `Rotation.CollectWeeks` | oncall_webapp_v8/app.js:837-843 | the loop collects the weeks of the columns where both Start and End hold dates |
| `Rotation.MakeContiguous` | oncall_webapp_v8/app.js:848-852 | in place on the array, each week's end becomes the day before the next week's start |
| `Rotation.ContiguousShape` | oncall_webapp_v8/app.js:848-860 | same columns and starts; each end is the next start minus one; the last week is unchanged |
| `Rotation.RowErrors` | oncall_webapp_v8/app.js:831-846 | no date column exactly when no Start cell parses; no weeks exactly when some does but no column has both Start and End dates |
| `Rotation.OncallErrors` | oncall_webapp_v8/app.js:826-898 | no Start/End rows, no date columns, no weeks and no markets, each exactly in its case (stated on the sheet's cells) |
| `Rotation.OncallNoMarkets` | oncall_webapp_v8/app.js:866-898 | "No markets found." is thrown exactly when the weeks parse but no row has both a ZIP and a filled first-week cell |
| `Rotation.ContiguousWeeks` | oncall_webapp_v8/app.js:837-860 | every week comes from a dated Start column, columns ascend, every column with both dates has a week, the weeks are contiguous and the last ends on its End date |
| `Rotation.OncallWeeks` | oncall_webapp_v8/app.js:837-860 | a parsed rotation's weeks are the contiguous weeks of the Start/End rows |
| `Rotation.CollectMarkets` | oncall_webapp_v8/app.js:862-897 | the loop over the rows yields the specification's market list |
| `Rotation.MarketsOfRows` | oncall_webapp_v8/app.js:862-897 | every market is a sampled ZIP row or a New Jersey sub-row, in row order; each sub-row follows its NY/NJ parent; every sampled ZIP row is a market |
| `Rotation.MarketsFromCompleteNj` | oncall_webapp_v8/app.js:891-896 | every sampled row without ZIP right after a sampled NY/NJ row becomes sub-market 1 |
| `Rotation.MarketsOfNjRows` | oncall_webapp_v8/app.js:891-896 | on the sheet: every sampled ZIP-less row after a sampled NY/NJ ZIP row is a market with sub-index 1 |
| `Rotation.OncallMarkets` | oncall_webapp_v8/app.js:862-898 | a parsed rotation has markets, each a sampled ZIP row or an NJ sub-row, in row order, sub-rows paired with their parent, and every sampled ZIP row and every such NJ row is a market |
| `Rotation.ParseOncall` | oncall_webapp_v8/app.js:826-900 | the parse returns the specification's rotation or error |
| `Availability.RealDate` | oncall_webapp_v8/app.js:340-343 | a date exactly when the cell is a real date, and then the raw parse |
| `Availability.DayIndicator` | oncall_webapp_v8/app.js:345-364 | a day indicator is a day of the month, 1 to 31; an empty cell has none |
| `Availability.ParseState` | oncall_webapp_v8/app.js:366-370 | a state is two upper-case letters, the normalised text of the cell |
| `Availability.ParseTech` | oncall_webapp_v8/app.js:372-376 | a name exactly when the cleaned text is non-empty, and then that text |
| `Availability.HeaderRowsSpec` | oncall_webapp_v8/app.js:378-396 | header rows are exactly the rows passing the header test, ascending, never row 0 |
| `Availability.FindHeaderRows` | oncall_webapp_v8/app.js:398-401 | the loop collects the specification's header rows |
| `Availability.AnchorSpec` | oncall_webapp_v8/app.js:410-419 | the anchor is the first weekday column from `i` holding a real date, or there is none |
| `Availability.AnchorsKeepSundays` | oncall_webapp_v8/app.js:421-432 | when each anchor sits in its weekday's column, the week start computed is a Sunday |
| `Availability.ScanSundays` | oncall_webapp_v8/app.js:421-432 | a rule that keeps Sundays makes every carried week start a Sunday |
| `Availability.ScanOrigin` | oncall_webapp_v8/app.js:436-453 | every record comes from a data row of some header's week, at the day of its column |
| `Availability.BlockRecsComplete` | oncall_webapp_v8/app.js:436-452 | every state and name pair of a data row in a week's block is a record dated Sunday plus its column's weekday |
| `Availability.ScanComplete` | oncall_webapp_v8/app.js:412-453 | a record of any header's week stays a record of the whole walk over the headers |
| `Availability.ScanCellComplete` | oncall_webapp_v8/app.js:412-453 | every state and name pair in a data row of a week that got a Sunday is a record of the walk, dated that Sunday plus the column's weekday |
| `Availability.SheetRecordWeekday` | oncall_webapp_v8/app.js:436-453 | with anchors on their weekdays, every record falls on the weekday of its column |
| `Availability.FileRow` | oncall_webapp_v8/app.js:441-452 | one row's entries are filed under the days of their columns |
| `Availability.DedupSpec` | oncall_webapp_v8/app.js:456-470 | after deduplication no two entries share (state, lower-cased name); every usable entry's key survives; each kept entry is an entry of the list, normalised |
| `Availability.DedupFirsts` | oncall_webapp_v8/app.js:456-470 | the deduplicated list is the first usable entry of each (state, lower-cased name), normalised, in input order |
| `Availability.DedupEntries` | oncall_webapp_v8/app.js:456-470 | the loop computes the specification's deduplicated list |
| `Availability.DedupAll` | oncall_webapp_v8/app.js:456-470 | every date's list is deduplicated, and no date is added or lost |
| `Availability.ParseDailyAvailabilityWorksheet` | oncall_webapp_v8/app.js:318-477 | the parse returns the specification's availability map |
| `Availability.DailyAvailabilitySpec` | oncall_webapp_v8/app.js:318-477 | under each date keys are distinct; every entry is a normalised record of that date; every usable record of the sheet is kept under its date |
| `Availability.DailyAvailabilityComplete` | oncall_webapp_v8/app.js:436-470 | every usable state and name pair in a data row of a dated week reaches the parsed availability: its key is kept under Sunday plus the column's weekday |
| `MonthSheet.MonthNameToIndex` | oncall_webapp_v8/app.js:311-315 | a month index exactly when the trimmed lower-cased name is one of the twelve month names, and then that name's index |
| `MonthSheet.MonthNameRoundTrip` | oncall_webapp_v8/app.js:311-315 | each month name reads back to its index |
| `MonthSheet.MonthNameToIndexAsWritten` | oncall_webapp_v8/app.js:311-315 | the `in` test agrees with the intended lookup on every name except inherited object properties |
| `MonthSheet.ConstructorIsNoMonth` | oncall_webapp_v8/app.js:313-314 | "constructor" passes the `in` test as written, but is no month |
| `MonthSheet.HeaderText` | oncall_webapp_v8/app.js:496 | a header is a run of letters and a four-digit year |
| `MonthSheet.HeaderTextOf` | oncall_webapp_v8/app.js:496 | a word, white space, four digits and anything after read as that word and year |
| `MonthSheet.DayColAt` | oncall_webapp_v8/app.js:500-516 | a day column needs a month and a year, sits at the pair of columns `2j+1` and `2j+2`, and holds a parseable date |
| `MonthSheet.DayColDate` | oncall_webapp_v8/app.js:513-514 | the column's date text is the header's year and month with the cell's day |
| `MonthSheet.ConstructorHeaderAsWritten` | oncall_webapp_v8/app.js:496-516 | as written, a "Constructor YYYY" header files its day columns under "NaN-NaN-NaN"; with the intended lookup it has none |
| `MonthSheet.DayColAsWrittenAgrees` | oncall_webapp_v8/app.js:495-518 | away from inherited properties, the header reads the same as written and as intended |
| `MonthSheet.RecordAt` | oncall_webapp_v8/app.js:524-533 | a record has a non-empty name and a state, both trimmed |
| `MonthSheet.ReaderIsHeader` | oncall_webapp_v8/app.js:495-518 | a row reads as a header exactly when its first cell is a month header, and then gives its day columns |
| `MonthSheet.ReadHeader` | oncall_webapp_v8/app.js:502-517 | the loop collects the specification's day columns of the header row |
| `MonthSheet.FileRecords` | oncall_webapp_v8/app.js:521-536 | the loop files the row's records under the specification's dates |
| `MonthSheet.ParseDailyAvailabilityAoa` | oncall_webapp_v8/app.js:482-539 | the parse returns the specification's availability map |
| `MonthSheet.MonthAvailabilityComplete` | oncall_webapp_v8/app.js:521-536 | every record of a data row under the last header is filed under its column's date |
| `MonthSheet.MonthAvailabilitySound` | oncall_webapp_v8/app.js:482-539 | every filed entry is clean and comes from a data row under a header, at that header's date |
| `WeekPick.IndexOf` | oncall_webapp_v8/app.js:1191 | `indexOf`: the first position of the text, or -1 when it is absent |
| `WeekPick.PickWeekIndex` | oncall_webapp_v8/app.js:1180-1206 | the loop's answer meets the week-choice specification |
| `WeekPick.PickWeekIndexForDate` | oncall_webapp_v8/app.js:1180-1206 | the same on the rotation's weeks, through their `YYYY-MM-DD` start texts |
| `WeekPick.InWeekUnique` | oncall_webapp_v8/app.js:1197-1203 | with ascending starts, a date lies in at most one week |
| `WeekPick.OutsideIffBeforeFirst` | oncall_webapp_v8/app.js:1197-1205 | a date is in no week exactly when there are no weeks or it precedes the first start |
| `WeekPick.StartTextsAscending` | oncall_webapp_v8/app.js:1184 | ascending four-digit-year starts give ascending start texts |
| `WeekPick.PickedOfDay` | oncall_webapp_v8/app.js:1180-1206 | a shared boundary day picks by AM/PM; otherwise the week with start ≤ day < next start, and an error exactly when the day precedes every week |
| `WeekPick.EffectiveDateOfYmd` | oncall_webapp_v8/app.js:603-610 | at UTC-5 the entered date and today are moved one day on, otherwise they are kept |
| `Lookups.KeyedSpec` | oncall_webapp_v8/app.js:172-191 | a key is in a loaded table exactly when some row yields it, and then holds the last such row's value |
| `Lookups.FillTable` | oncall_webapp_v8/app.js:178-189 | the loop over the rows builds the specification's table |
| `Lookups.TechMapSpec` | oncall_webapp_v8/app.js:172-191 | a tech id is loaded exactly when it is non-empty and some row has it in column 0; its record carries that id, a five-digit or absent ZIP, and comes from the last such row |
| `Lookups.SheetTechMapSpec` | oncall_webapp_v8/app.js:695-711 | reading the workbook by header names, a tech id is loaded exactly when it is non-empty and some row whose Country is blank or US carries it; the record has that id, a five-digit or absent ZIP, and comes from the last such row |
| `Lookups.ZipDbSpec` | oncall_webapp_v8/app.js:652-665 | every loaded ZIP is five digits, with a lower-case city and an upper-case state |
| `Lookups.MedianOfMatches` | oncall_webapp_v8/app.js:668-680 | the middle element of the sorted matches is a match with exactly half the matches below it by value |
| `Lookups.MedianRank` | oncall_webapp_v8/app.js:668-680 | the same, stated on the ZIP table's matches of a city and state |
| `Lookups.ShortNameOf` | oncall_webapp_v8/app.js:541-558 | "F. Surname", "F Surname", "F.Surname" and "FSurname" read as the upper-cased initial and surname |
| `Sorting.InsertionSort` | oncall_webapp_v8/app.js:1126-1128 | the sorted list keeps every element as often as it occurs (a permutation of the input) |
| `Sorting.InsertionSortSorted` | oncall_webapp_v8/app.js:1126-1128 | with a total, transitive comparator the sorted list is in order |
| `Detection.EtaThresholds` | oncall_webapp_v8/app.js:43-49 | the estimated drive exceeds 3.5 hours exactly past 266 km, and 3 hours exactly past 228 km |
| `Detection.CoverageBuckets` | oncall_webapp_v8/app.js:84-102 | supported exactly for an unknown or ≤ 228 km distance; verify exactly for 228 to 266 km; possibly unsupported exactly beyond 266 km |
| `Detection.ConfidenceSpec` | oncall_webapp_v8/app.js:1130-1150 | high exactly when the best is within 228 km and the gap is unknown or ≥ 150 km; low exactly when the best is beyond 266 km or the gap is under 75 km |
| `Detection.ProbeOfSpec` | oncall_webapp_v8/app.js:977-1021 | a candidate is for the probed market, has a distance exactly when its tech's ZIP is located, and its tech is in the database |
| `Detection.TallySpec` | oncall_webapp_v8/app.js:977-1021 | the first pass's candidates and reserved candidates are exactly the seen probes, split by reservation; the four counts add up to the markets probed |
| `Detection.SplitSpec` | oncall_webapp_v8/app.js:1037-1063 | `collectForWeek` keeps exactly the located probes, reserved ones apart |
| `Detection.AcceptedMarkets` | oncall_webapp_v8/app.js:960-968 | exactly the markets accepting the selected state |
| `Detection.WeekIndex` | oncall_webapp_v8/app.js:1030-1031 | the first week with the chosen column, or none |
| `Detection.TryWeeksSpec` | oncall_webapp_v8/app.js:1030-1035 | every fallback week is the one after or before the first week with the chosen column |
| `Detection.FirstNonEmptySpec` | oncall_webapp_v8/app.js:1064-1080 | the first tried week whose pool is non-empty; none exactly when every tried pool is empty |
| `Detection.FallbackSpec` | oncall_webapp_v8/app.js:1027-1116 | a non-empty first pool is kept as it is; the search fails exactly when the first pool, the neighbouring weeks and (with a state filter) all markets in those weeks are empty |
| `Detection.FallbackWeek` | oncall_webapp_v8/app.js:1027-1116 | the week used is the chosen one or a neighbour |
| `Detection.RankedFirst` | oncall_webapp_v8/app.js:1126-1128 | the first of the ranking is a nearest candidate of the pool |
| `Detection.RankedAlternatives` | oncall_webapp_v8/app.js:1126-1128 | the second is no nearer than the first, and nearest among the others unless the first occurs twice |
| `Detection.FinishSpec` | oncall_webapp_v8/app.js:1126-1175 | one or two alternatives from the pool, the first being the market shown and a nearest one; the gap is non-negative; "all reserved" exactly when there are no free candidates |
| `Detection.DetectionConfidence` | oncall_webapp_v8/app.js:1130-1150 | the confidence of a detection by its distance and gap, both directions; high implies supported coverage |
| `Detection.SearchSpec` | oncall_webapp_v8/app.js:1023-1175 | the only failure is no candidates; a result is for the ZIP, with one or two alternatives headed by the market |
| `Detection.DetectSpec` | oncall_webapp_v8/app.js:942-1176 | invalid ZIP, ZIP not found and no week, each exactly in its case; a result is for the normalised ZIP and its table entry |
| `Detection.ChooseMarketAgrees` | oncall_webapp_v8/app.js:1341-1384 | choosing a market that probed as located gives that probe's distance, ZIP and reservation |
| `Detection.ChooseMarketSpec` | oncall_webapp_v8/app.js:1341-1384 | blocked exactly when not today and the cell or the market says reserved; no issue exactly when there is no tech id or the tech is known with a ZIP; a shown tech is the cell's |
| `App.FirstPass` | oncall_webapp_v8/app.js:977-1021 | the loop's counters are the specification's tally of the probes |
| `App.CountProbe` | oncall_webapp_v8/app.js:980-1020 | one probe updates the tally as the specification counts it |
| `App.CollectForWeek` | oncall_webapp_v8/app.js:1037-1063 | the loop's split is the specification's split of the probes |
| `App.SwitchWeek` | oncall_webapp_v8/app.js:1064-1080 | the loop finds the specification's first week with a non-empty pool |
| `App.FallbackSearch` | oncall_webapp_v8/app.js:1027-1116 | the fallback steps give the specification's result |
| `App.SearchMarkets` | oncall_webapp_v8/app.js:960-1175 | the search from the state filter to the ranking gives the specification's detection |
| `App.UniqueMatch` | oncall_webapp_v8/app.js:546-557 | a tech exactly when one id matches the initial and surname, and then that id |
| `App.AppState.LoadBuiltInTechDb` | oncall_webapp_v8/app.js:172-191 | no rows: nothing loaded; otherwise the tech table is the rows' table and the count its size; the other tables are kept |
| `App.AppState.LoadTechDb` | oncall_webapp_v8/app.js:683-714 | the tech table is replaced by the workbook rows' table and the count is its size; the other tables are kept |
| `App.AppState.LoadZipRows` | oncall_webapp_v8/app.js:652-665 | no rows: an error and the ZIP table kept; otherwise the rows' ZIP table and its size |
| `App.AppState.LoadDailyAvailability` | oncall_webapp_v8/app.js:907-919 | the availability is the daily sheet's, or empty without one |
| `App.AppState.LoadRotation` | oncall_webapp_v8/app.js:926-938 | the grid is the cleaned first sheet, and the rotation is replaced only when it parses |
| `App.AppState.FindZipByCityState` | oncall_webapp_v8/app.js:668-680 | none exactly when city or state is blank or nothing matches; otherwise the middle match by numeric value |
| `App.AppState.MatchTechByInitialAndLast` | oncall_webapp_v8/app.js:541-558 | a tech exactly when the name reads as initial and surname and exactly one tech matches, and then that tech |
| `App.AppState.DetectMarketForZip` | oncall_webapp_v8/app.js:942-1176 | the detection computed on the page's tables is the specification's |
| `Canada.NormalizePostalShape` | canada_dispatch_w2/app.js:39-47 | a normalised code is empty or letter-digit-letter-digit-letter-digit, upper case |
| `Canada.NormalizePostalIdempotent` | canada_dispatch_w2/app.js:39-47 | normalising twice is normalising once |
| `Canada.FormatPostal` | canada_dispatch_w2/app.js:49-53 | empty exactly when the code does not normalise; otherwise seven characters with a space in the middle |
| `Canada.FormatRoundTrip` | canada_dispatch_w2/app.js:49-53 | a formatted code normalises back to the code |
| `Canada.FirstMatchSpec` | canada_dispatch_w2/app.js:55-60 | the regular expression's search stops at the leftmost position that matches, and finds nothing exactly when no position of the text matches |
| `Canada.ExtractPostalSpec` | canada_dispatch_w2/app.js:55-60 | empty exactly when the text holds no postal code; otherwise the upper-cased groups of the leftmost match, with no match at any earlier position |
| `Canada.ProvFromFirstLetterSpec` | canada_dispatch_w2/app.js:63-79 | a province exactly for a postal first letter, and one with a centre |
| `Canada.ProvForPostalSpec` | canada_dispatch_w2/app.js:141-148 | the mapping's province (upper-cased) when set, else the first letter's; empty without a code |
| `Canada.OverrideSpec` | canada_dispatch_w2/app.js:131-139 | a code has an override exactly when a technician with coordinates has it, and the last such technician's point is used |
| `Canada.LoadPage` | canada_dispatch_w2/app.js:131-139 | the page's override table is built from the technicians |
| `Canada.LatLonForPostalSpec` | canada_dispatch_w2/app.js:150-179 | no code gives no location; an overridden code is placed by postal code at its override, and only then |
| `Canada.LatLonFallbackSpec` | canada_dispatch_w2/app.js:160-178 | past the override the city table is tried before the province centre, and a location by province has no city |
| `Canada.TicketAlwaysPlaced` | canada_dispatch_w2/app.js:150-179 | a valid ticket code is always placed |
| `Canada.Clamp` | canada_dispatch_w2/app.js:194-198 | the value clamped to the range, the low end for no value |
| `Canada.EffectiveDriveFactor` | canada_dispatch_w2/app.js:205-218 | the factor lies in [1, 12] |
| `Canada.DriveFactorSpec` | canada_dispatch_w2/app.js:205-218 | base factor when both are placed precisely; times 1.8 for a technician placed by province; times 6 for a ticket placed by a province without a penalty |
| `Canada.EtaShowsSixtyMinutes` | canada_dispatch_w2/app.js:220-227 | as written, 119.99 km at 60 km/h shows "1h 60m" and 59.99 km shows "60 min" |
| `Canada.EtaFromKm` | canada_dispatch_w2/app.js:220-227 | minutes shown are always 0 to 59, hours positive |
| `Canada.EtaFromKmSpec` | canada_dispatch_w2/app.js:220-227 | a dash exactly when distance or speed is missing or speed is not positive; otherwise the trip's length rounded to the minute |
| `Canada.BaseFactor` | canada_dispatch_w2/app.js:286 | within [0.8, 5], 1.25 when unset or zero, the input when in range |
| `Canada.Speed` | canada_dispatch_w2/app.js:287 | within [20, 130], 80 when unset or zero, the input when in range |
| `Canada.TicketPostalSpec` | canada_dispatch_w2/app.js:289-295 | the ticket's code is the field's when it holds one, else the text's first; empty exactly when neither has one |
| `Canada.PostalFieldSpec` | canada_dispatch_w2/app.js:289-295 | the postal field left on the page reads back as the ticket's code |
| `Canada.ScoredOfSpec` | canada_dispatch_w2/app.js:312-319 | exactly the technicians that can be placed are scored, each by the distance to the ticket |
| `Canada.ScoreTechs` | canada_dispatch_w2/app.js:312-319 | the loop scores the specification's technicians |
| `Canada.NearestSpec` | canada_dispatch_w2/app.js:321-333 | an error exactly when nobody is scored; the best is a nearest one; the list holds the first eight (or all), nearest first; the drive is the best's distance times a factor in [1, 12] |
| `Canada.NearestTop` | canada_dispatch_w2/app.js:260-261 | the list shown takes no technician more often than scored, and every one left out is no nearer than the last shown |
| `Canada.KmTop` | canada_dispatch_w2/app.js:260-261 | a prefix of a sorted permutation of the scored list is such a top list |
| `Canada.ClosestSpec` | canada_dispatch_w2/app.js:285-333 | no code and no ticket location, each exactly in its case; otherwise the best of every placeable technician, with the speed in range |
| `Canada.FindClosest` | canada_dispatch_w2/app.js:285-359 | the result shown and the postal field left behind are the specification's |
| `TableImport.SafeNameShape` | backend/src/server.js:23-31 | a safe name is a SQL identifier: at most 60 characters of `a-z0-9_`, not starting with a digit |
| `TableImport.SafeNameIdempotent` | backend/src/server.js:23-31 | a safe name is its own safe name |
| `TableImport.SafeNameOfIdentifier` | backend/src/server.js:23-31 | an identifier is kept unchanged |
| `TableImport.ColumnsShape` | backend/src/server.js:78-84 | every column name is non-empty, safe and starts with no digit |
| `TableImport.SameBaseDistinct` | backend/src/server.js:78-84 | two headers with the same base name get different column names |
| `TableImport.HeadersMayCollide` | backend/src/server.js:78-84 | the numbering can still collide: headers "a", "a_2", "a" give "a", "a_2", "a_2" |
| `TableImport.NumberColumns` | backend/src/server.js:80-82 | the loop numbers repeated names as the specification does |
| `TableImport.SheetColumns` | backend/src/server.js:76-84 | the column names of the raw headers |
| `TableImport.RowOfSpec` | backend/src/server.js:86-92 | a row's keys are exactly the columns, each holding the value under the last raw header of that name |
| `TableImport.RowOfDistinct` | backend/src/server.js:86-92 | with distinct columns, each column holds its own header's value |
| `TableImport.SheetToRows` | backend/src/server.js:71-95 | the conversion returns the specification's columns and rows |
| `TableImport.SheetRowSpec` | backend/src/server.js:71-95 | each row has every column, holding the value of the matching header of that record when the columns are distinct |
| `TableImport.ChunksSpec` | backend/src/server.js:53-54 | the chunks concatenate back to the rows, each chunk holds 1 to 500 rows, and all but the last are full |
| `TableImport.ValuesOfSpec` | backend/src/server.js:56-58 | value `idx * width + j` of a chunk is column `j` of row `idx` |
| `TableImport.PlaceholdersSpec` | backend/src/server.js:56-61 | the placeholders number `$1` to `$n` in order |
| `TableImport.BuildBatch` | backend/src/server.js:55-64 | the loop builds the specification's statement of one chunk |
| `TableImport.InsertRows` | backend/src/server.js:51-69 | every row is inserted and the statements are the chunks' batches |
| `TableImport.InsertSpec` | backend/src/server.js:51-69 | each batch has 1 to 500 rows, as many values as cells, and placeholders `$1` to `$n`; the chunks cover the rows in order |
| `TableImport.EnsureTable` | backend/src/server.js:38-44 | no columns is an error, otherwise the create statement |
| `TableImport.TableNameShape` | backend/src/server.js:122 | a table name is the prefix, two underscores and an identifier |
| `TableImport.LoadTable` | backend/src/server.js:124-135 | the steps for one sheet are the specification's plan |
| `TableImport.TablePlanSpec` | backend/src/server.js:124-135 | an empty sheet issues nothing; otherwise a drop exactly in replace mode, then the create, then the inserts, all on the sheet's table |
| `TableImport.SheetPlanSpec` | backend/src/server.js:118-135 | a sheet's result names its table, is empty exactly for a sheet without rows or columns, and counts the rows and columns |
| `TableImport.ImportSheets` | backend/src/server.js:118-136 | the loop over the sheets gives the specification's results and statements |
| `TableImport.ImportResults` | backend/src/server.js:118-136 | one result per sheet, in order, each the sheet's own plan |
| `TableImport.AppendNeverDrops` | backend/src/server.js:129-131 | outside replace mode no table is dropped |
| `Server.Upload` | backend/src/server.js:108-143 | the route's reply and statements are the specification's |
| `Server.UploadSpec` | backend/src/server.js:108-143 | an error exactly when no file comes, with nothing issued; otherwise the reply names the uploaded file, the prefix is safe, there is one result per sheet named prefix__sheet, and no drop unless in replace mode |
| `Server.UploadModeIgnoresCase` | backend/src/server.js:113 | the mode is compared lower-cased: "REPLACE" replaces |
| `Server.ExportQuerySpec` | backend/src/server.js:153-156 | a safe table and a limit within [1, 300000], by default 200000 for `aoa` and 500 otherwise |
| `Server.ExportReplySpec` | backend/src/server.js:160-167 | `aoa` exactly for that format: every field but `_id` as columns, one array per row with each column's value; otherwise the rows as they are |
| `Server.CoalesceSpec` | backend/src/server.js:182-190 | `??` gives the first alias whose value is set, even a blank one, and none when none is set |
| `Server.OncallTableQuery` | backend/src/server.js:177-178 | the table named in the query, else in the environment, else the route's default, made safe (kept as is when already an identifier); the limit 200000 when absent, otherwise clamped to [1, 300000], and none when not a number; the same reading serves backend/src/server.js:201-202 |
| `Server.DefaultTablesRead` | backend/src/server.js:177 | with no table named, the technician and ZIP routes read `ars_technician__01_21_2026_ars_technician` and `uszips__sheet1` unchanged (the ZIP default is at backend/src/server.js:201) |
| `Server.TechdbRow` | backend/src/server.js:181-191 | nine text cells per row |
| `Server.ServedRowLoads` | backend/src/server.js:181-191 | a served row loads on the on-call page as the tech of its trimmed cells, skipped exactly when the id is blank |
| `Server.UszipsRowSpec` | backend/src/server.js:205-211 | every served ZIP row is case-folded; a row with none of the latitude fields reads latitude 0 |
| `Records.FirstSet` | backend/src/server.js:112 | `a || b || fallback`: the first non-empty text |
| `Records.LimitOf` | backend/src/server.js:155-156 | no limit exactly when the text is not a number; otherwise within [1, max], the default when absent and the input when in range |
| `Records.WithoutId` | backend/src/server.js:162 | every name but `_id`, and only those |
| `Records.AoaRows` | backend/src/server.js:163 | one array per row, as long as the column list |
| `Records.ZipRowCaseFolded` | backend/src/server.js:209-210 | a row built from any city and state has a trimmed lower-case city and a trimmed upper-case state |
| `Seed.ImportExcel` | backend/tools/seed_local_files.js:79-101 | the import's results and statements are the specification's |
| `Seed.ImportExcelSpec` | backend/tools/seed_local_files.js:79-101 | one result per sheet, named safe(prefix)__sheet, empty exactly for an empty sheet; no drop unless in replace mode |
| `Seed.SeedAll` | backend/tools/seed_local_files.js:103-122 | the three workbooks are imported in replace mode, in order |
| `Seed.TablesKeepPrefix` | backend/tools/seed_local_files.js:89 | every table of an identifier prefix starts with that prefix and two underscores |
| `EdgeApi.PickSpec` | supabase_edge_functions/api/index.ts:32-37 | the value of the first alias holding a non-blank value, else the fallback |
| `EdgeApi.PickTextNeverBlank` | supabase_edge_functions/api/index.ts:32-37 | a picked text is empty or not blank |
| `EdgeApi.NormalizePath` | supabase_edge_functions/api/index.ts:47-49 | a normalised path starts with `/` |
| `EdgeApi.NormalizePathMount` | supabase_edge_functions/api/index.ts:47-49 | a path behind the function's mount prefix normalises as the path itself |
| `EdgeApi.RouteOfMount` | supabase_edge_functions/api/index.ts:47-184 | requests behind the mount prefix route as those without it |
| `EdgeApi.RouteOfExport` | supabase_edge_functions/api/index.ts:152-153 | `/export/<t>` exports the table named by `t` up to its first `/` |
| `EdgeApi.OncallQuery` | supabase_edge_functions/api/index.ts:54-55 | a limit within [1, 200000], 200000 by default |
| `EdgeApi.TechdbRow` | supabase_edge_functions/api/index.ts:60-70 | nine text cells per row |
| `EdgeApi.TechdbRowSpec` | supabase_edge_functions/api/index.ts:60-70 | every cell is empty or not blank; the row loads on the on-call page under its trimmed id, skipped exactly when the id is blank |
| `EdgeApi.BlankIdDiffers` | supabase_edge_functions/api/index.ts:61 | a blank `tech_id` is kept by the backend but skipped for the next alias here |
| `EdgeApi.UszipsRowSpec` | supabase_edge_functions/api/index.ts:85-91 | every served ZIP row is case-folded; a row with no usable latitude reads latitude 0 |
| `EdgeApi.W2Query` | supabase_edge_functions/api/index.ts:100-108 | a 400 exactly when no table is given or configured; a limit within [1, 50000], 5000 by default |
| `EdgeApi.W2TechSpec` | supabase_edge_functions/api/index.ts:112-118 | a served technician's id is empty or not blank, and its postal code has no white space and normalises as the stored value does |
| `EdgeApi.CleanPostalSpec` | supabase_edge_functions/api/index.ts:117 | the cleaned code has no white space or lower-case letter and normalises as the raw value |
| `EdgeApi.PostalProvQuery` | supabase_edge_functions/api/index.ts:128-135 | the disabled answer exactly when no table is given or configured; a limit within [1, 200000], 50000 by default |
| `EdgeApi.PostalProvMapping` | supabase_edge_functions/api/index.ts:139-144 | the loop builds the specification's mapping |
| `EdgeApi.PostalProvSpec` | supabase_edge_functions/api/index.ts:139-144 | a code is mapped exactly when some row yields it; codes have no white space; provinces are non-empty; the last such row wins |
| `EdgeApi.AllowedTables` | supabase_edge_functions/api/index.ts:18 | exactly the configured tables that are set |
| `EdgeApi.ExportTableOf` | supabase_edge_functions/api/index.ts:153-159 | the decoded segment when it decodes and the allow-list is empty or has it; a 403 when the list lacks it |
| `EdgeApi.ExportQueryOf` | supabase_edge_functions/api/index.ts:161-162 | the export's table, and a limit within [1, 200000], by default 200000 for `aoa` and 500 otherwise |
| `EdgeApi.ExportReplySpec` | supabase_edge_functions/api/index.ts:167-176 | `aoa` exactly for that format: the first row's keys but `_id` as columns, one array per row; otherwise the rows as they are |

## Left out

- Network, file and database I/O are not modelled. This covers Express, multer, `pg`, the Supabase client, `Deno.serve`, `fetch`, `XLSX.read`/`sheet_to_json`, the DOM and the HTML rendering. Sheets are given as grids of cells. Database results are given as lists of records. SQL is given as `TableImport.Statement` values, not text.
- The edge function's CORS headers and its `OPTIONS` answer (supabase_edge_functions/api/index.ts:24-30, 43-45) are not modelled. Neither are the 404 for an unknown path (181-184) or the 500 replies of either backend. They carry no data logic.
- The upload size limit (backend/src/server.js:20) is not modelled: multer enforces it before the route runs.
- The seeding script's own `ensureTable` (backend/tools/seed_local_files.js:26-30) is modelled by the backend's `TableImport.EnsureTable`. The script's console output is left out.
- `Strings.UpperChar` and `Strings.LowerChar` map ASCII letters only. JavaScript's full Unicode mapping is not modelled: "ß" upper-cases to "SS", "İ" lower-cases to "i̇", the Kelvin sign lower-cases to "k", and dotless "ı" upper-cases to "I". `TableImport.SafeName`, `Availability.ParseState`, `Markets.NormState`, `Lookups.ShortName` (technician matching), `Canada.NormalizePostal`, `Records.CityKey` and `Records.StateKey` (the served ZIP rows), `EdgeApi.CleanPostal`, the province of `EdgeApi.W2Tech`, `Server.UploadMode`, and the export `format` of `Server.ExportQueryOf` and `EdgeApi.ExportQueryOf` therefore differ from the source on such text.
- `Calendar.JsNumber` reads plain decimal digits only. `Number("1e3")` (1000), `Number("0x1F")` (31), signs and fractions are not read. This affects `Calendar.ParseYmd` (`shiftYmd`). The backend's and the edge function's `Number`/`parseFloat` are parameters (`num`, `factorIn`, `speedIn`).
- `Cells.Num` holds integers only. A fractional Excel serial (a date with a time of day) or a fractional number cell is not represented. `Cells.ParseExcelDateRaw` and `Cells.NormalizeZip` are stated for whole numbers.
- `Records.Keys` keeps a record's keys in the order given. JavaScript's `Object.keys` lists integer-like keys first, in ascending order. So `TableImport.SheetToRows` (backend/src/server.js:76) and `EdgeApi.ExportReplyOf` (supabase_edge_functions/api/index.ts:169) take the columns of a sheet or row with numeric headers in a different order than the source does.
- `App.AppState.FindZipByCityState` and `App.AppState.MatchTechByInitialAndLast` go over the key set of their table, not over a `Map` in insertion order. Their results do not depend on that order: the median of the sorted matches, and the single match.
- `Rotation.OncallOf` leaves out the local-time normalisation of the last week's end (oncall_webapp_v8/app.js:859), because it depends on the host's time zone. The `start + 6` fallback beside it is unreachable: a week exists only when its End cell parses.
- The generic `new Date(text)` fallback of `parseExcelDate` is the parameter `generic`. The host's `String(date)` text of a date cell is carried in the cell (`Cells.DateCell`).
- The great-circle distance (`haversineKm`) is a parameter of the distance functions (`dist`).
- `extractMarketInfoFromRow` (oncall_webapp_v8/app.js:743-815), the text heuristic that names a market's info line, is the parameter `info`.
- Distances, factors and speeds are exact reals, not IEEE doubles. `Infinity` and `NaN` limits in `Records.LimitOf` are not modelled.
- `decodeURIComponent` is the parameter `decode`. `isUtcMinus5` and today's date are parameters (`utcMinus5`, `today`).
- `Detection.ChooseMarket` is given the week chosen, rather than reading `oncallMeta` again.
- `App.AppState.LoadTechDb` takes the first sheet's rows already read by header name. Reading the file, choosing the first sheet, the progress bar and the returned sheet name are not modelled.
- The technician-name fallback of the result card, the render functions and every other piece of UI are left out.

## Findings

| source | as written | input that shows it | evidently intended | confidence | as-written member | corrected member |
|---|---|---|---|---|---|---|
| canada_dispatch_w2/app.js:220-227 | `etaFromKm` floors the hours, then rounds the leftover minutes without carrying 60 into the hours | 119.99 km at 60 km/h shows "1h 60m"; 59.99 km shows "60 min" | round the whole trip to the minute, then split it into hours and minutes ("2h 0m", "1h 0m") | high; not executed | `Canada.EtaFromKmAsWritten`, exhibited by `Canada.EtaShowsSixtyMinutes` | `Canada.EtaFromKm`, proved by `Canada.EtaFromKmSpec` |
| oncall_webapp_v8/app.js:311-315, 496-516 | `monthNameToIndex` tests `n in map` on a plain object, so inherited properties such as `constructor` pass, and `map[n]` is then a function | a month-layout header cell "Constructor 2024" passes the header pattern (line 496); `Date.UTC` is then NaN, and every record of that block is filed under "NaN-NaN-NaN" | only the twelve month names are months, so such a header gives no day columns and the rows under it are filed nowhere | high; not executed | `MonthSheet.MonthNameToIndexAsWritten`, exhibited by `MonthSheet.ConstructorIsNoMonth` and `MonthSheet.ConstructorHeaderAsWritten` | `MonthSheet.MonthNameToIndex`, proved by `MonthSheet.MonthNameRoundTrip` and `MonthSheet.DayColAsWrittenAgrees` |

The rest of the model uses the corrected definitions:
- `Canada.Nearest`, `Canada.ClosestOf` and `Canada.FindClosest` compute the ETA with `Canada.EtaFromKm`. Their ETA is therefore the intended one, not the page's "1h 60m".
- `MonthSheet.ParseDailyAvailabilityAoa`, `MonthSheet.ReadHeader` and `MonthSheet.ColsOf` read headers with `MonthSheet.MonthNameToIndex`. A "Constructor YYYY" row stays a header, but it gives no day columns, so the rows under it are filed nowhere instead of under "NaN-NaN-NaN".
