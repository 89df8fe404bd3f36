# Habit Pulse core, modelled in Dafny

Habit Pulse is an Android habit tracker. It keeps habits per month in memory and mirrors them to
a Google Sheet that the user owns.

The sheet has two kinds of tab:

- **The "MasterHabits" sheet.** It has one habit per row, written as `"name | icon"` in column A.
- **One sheet per month, titled `"month-year"`.** Column A holds the habit name. Columns B..AF hold
  days 1..31. A cell holds `"1"` when the habit is done that day and `"2"` when it is hidden that
  day.

Locally, a habit's `completedDays` set uses the same two codes:

- `d` means done on day `d`.
- `100 + d` means hidden on day `d`.

A row-index cache maps `"title-name"` to the sheet row last seen for that name, so that status
writes can skip a read.

The repository keeps every month's list in `habitsStore`. It publishes the displayed month's list
twice: filtered for the selected day as `currentMonthData`, and unfiltered as
`currentMonthAllHabits`, which the heatmap draws. The model keeps the second one as the store's
`allHabits` field, because the two can differ (see "## Findings").

The model covers the following, as pure functions over immutable values:

- **The in-memory store of `HabitRepository`** (`Store`):
  - each mutex-protected block as one transition: toggle, add, hide, permanent delete, reset, and
    the merge of remote data on load;
  - day and month navigation;
  - the daily, monthly and streak statistics.
- **The spreadsheet side of `GoogleSheetsRepository`**, with each sheet given as the list of its
  string rows:
  - `MasterSheet` covers reading the master sheet, the value `addHabit` appends, the master filter
    of a permanent delete, and `syncToMaster`;
  - `Sheets` covers reading a month sheet into day codes and the cache, `updateHabitStatus` and
    `getColLetter`, the sheet headers, and the month filter and cache update of a permanent delete.
- **How the two sides agree** (`Sync`): what a toggle or a hide sends, and what a reload then reads
  back.
- **Smaller pieces:**
  - the Room `Converters` between a set of day codes and its comma-separated text (`Converters`);
  - `MonthData.getFormattedMonth` and `filterHidden` (`Habits`);
  - the spreadsheet-id extraction and submit decision of the setup screen (`Setup`);
  - the integer part of the month heatmap (`Heatmap`).
- **Library behaviour the code relies on**, written out:
  - `java.util.Calendar`, as the proleptic Gregorian calendar (`Gregorian`);
  - Kotlin's `split`, `joinToString`, `isBlank`, `lowercase`, `equals(ignoreCase)`, `filter`,
    `count` and `chunked` (`Text`, `Seqs`);
  - `Int.toString` and `toIntOrNull` (`Decimal`).

A month sheet that does not exist makes `fetchMonthData` return an empty map. The model gives the
same result by reading an empty list of rows.

## Model

| member | source | states |
|---|---|---|
| Habits.FilterHidden | app/src/main/java/com/habittracker/data/repository/HabitRepository.kt:73-76 | the kept habits are exactly those without the hidden code `100 + day` |
| Habits.FilterHiddenConcat | app/src/main/java/com/habittracker/data/repository/HabitRepository.kt:73-76 | filtering keeps the original order (it distributes over concatenation) |
| Habits.FilterHiddenNoneHidden | app/src/main/java/com/habittracker/data/repository/HabitRepository.kt:73-76 | the filter is the identity exactly when no habit is hidden that day |
| Habits.FormattedMonth | app/src/main/java/com/habittracker/data/model/MonthData.kt:18-24 | the text is the month's name, one space, then the decimal year |
| Habits.FormattedMonthInjective | app/src/main/java/com/habittracker/data/model/MonthData.kt:18-24 | two months with the same formatted text have the same month and year |
| Gregorian.DaysInMonth | app/src/main/java/com/habittracker/data/repository/HabitRepository.kt:221 | `getActualMaximum(DAY_OF_MONTH)`: 31 exactly for the seven long months, 30 exactly for April, June, September and November, 29 exactly for a leap February, so 28 for any other February |
| Gregorian.NextPrevInverse | app/src/main/java/com/habittracker/data/repository/HabitRepository.kt:201-202 | stepping one day forward and one back (or back then forward) returns to the same valid date |
| Gregorian.AddDaysInverse | app/src/main/java/com/habittracker/data/repository/HabitRepository.kt:201-202 | `add(DAY_OF_MONTH, delta)` followed by `-delta` returns to the same date |
| Store.IndexOfName | app/src/main/java/com/habittracker/data/repository/HabitRepository.kt:84 | the first habit whose name equals the given name exactly, or none when no habit has that name |
| Store.ToggleDay | app/src/main/java/com/habittracker/data/repository/HabitRepository.kt:86-89 | the day's completion flips, its hidden code is removed, and no other code changes |
| Store.ToggleDayTwice | app/src/main/java/com/habittracker/data/repository/HabitRepository.kt:86-89 | toggling twice restores the original codes, minus the hidden marker |
| Store.ToggleHabitCompletion | app/src/main/java/com/habittracker/data/repository/HabitRepository.kt:78-102 | only the first matching habit of the displayed month changes, and the new list is published to `currentMonthAllHabits`; the status sent is `""` iff it was done, else `"1"`; other months are untouched and no month is added |
| Store.AddHabit | app/src/main/java/com/habittracker/data/repository/HabitRepository.kt:112-122 | a blank name or a name present up to case changes nothing; otherwise exactly one habit without codes is appended at the end and the list is published; no other month changes or appears |
| Store.AddHabitKeepsNamesUnique | app/src/main/java/com/habittracker/data/repository/HabitRepository.kt:117 | adding keeps the names of a month unique up to case |
| Store.AddHabitIsVisible | app/src/main/java/com/habittracker/data/repository/HabitRepository.kt:118-122 | the new habit is shown on the selected day, after the habits already shown |
| Store.RemoveHabit | app/src/main/java/com/habittracker/data/repository/HabitRepository.kt:140-153 | only the first matching habit gains the code `100 + selectedDay` and the list is published; an unknown name or month changes nothing; no other month changes or appears |
| Store.RemoveHabitHidesIt | app/src/main/java/com/habittracker/data/repository/HabitRepository.kt:147-152 | the hidden habit stays in the month's list but is no longer visible that day |
| Store.DeleteHabitPermanently | app/src/main/java/com/habittracker/data/repository/HabitRepository.kt:170-181 | exactly the first matching habit is removed, the rest keep their order, and the list is published; no other month changes or appears |
| Store.DeleteRemovesName | app/src/main/java/com/habittracker/data/repository/HabitRepository.kt:175-177 | with names unique up to case, no habit of the deleted name remains |
| Store.ResetCurrentMonth | app/src/main/java/com/habittracker/data/repository/HabitRepository.kt:225-233 | as written: every habit of the month keeps its name and icon but loses all codes; `currentMonthAllHabits` is left as it was; no other month changes or appears |
| Store.ResetShowsEverything | app/src/main/java/com/habittracker/data/repository/HabitRepository.kt:229-230 | after a reset, showing the unfiltered list (as the code does) equals `filterHidden`, and the day's progress is 0 |
| Store.ResetCurrentMonthFixed | app/src/main/java/com/habittracker/data/repository/HabitRepository.kt:228-231 | corrected: the same reset of `habitsStore`, also published to `currentMonthAllHabits`, which then holds no code |
| Store.LoadRemote | app/src/main/java/com/habittracker/data/repository/HabitRepository.kt:54-62 | the month's list becomes the master list in order, and is published; each habit carries the codes read under its exact name, or none; no other month changes or appears |
| Store.LoadRemoteFailedMaster | app/src/main/java/com/habittracker/data/repository/HabitRepository.kt:51-62 | a failed master read (`null`, so `emptyList()`) empties the displayed month |
| Store.LoadRemoteFailedMonth | app/src/main/java/com/habittracker/data/repository/GoogleSheetsRepository.kt:71-73 | a failed month read (`emptyMap()`) leaves every habit of the month without codes |
| Store.LoadLocal | app/src/main/java/com/habittracker/data/repository/HabitRepository.kt:39-43 | the first block of `loadCurrentMonth` publishes the month's stored list, or an empty one, to `currentMonthAllHabits` |
| Store.TransitionsKeepInStep | app/src/main/java/com/habittracker/data/repository/HabitRepository.kt:41-179 | toggle, add, hide, delete and the remote merge all leave `currentMonthAllHabits` equal to the stored list, as does the corrected reset |
| Store.ModifyDay | app/src/main/java/com/habittracker/data/repository/HabitRepository.kt:200-216 | a valid date stays valid; +1 and -1 move to the next and previous calendar day across month and year ends |
| Store.ModifyDayInverse | app/src/main/java/com/habittracker/data/repository/HabitRepository.kt:200-203 | moving by `delta` and then by `-delta` restores the store |
| Store.ModifyMonth | app/src/main/java/com/habittracker/data/repository/HabitRepository.kt:219-224 | the month wraps into 1..12 with a year change; the selected day is clamped to the month's length exactly when it exceeds it, and kept otherwise |
| Store.ModifyMonthIsAdjacent | app/src/main/java/com/habittracker/data/repository/HabitRepository.kt:220 | for +1 and -1 the move lands on the adjacent calendar month, and the two moves undo each other |
| Store.DoneCount | app/src/main/java/com/habittracker/data/repository/HabitRepository.kt:234 | the count is 0 iff no habit is done, and equals the list length iff every habit is done |
| Store.DailyProgress | app/src/main/java/com/habittracker/data/repository/HabitRepository.kt:234 | the integer percentage rounded down (0..100); 0 for an empty list |
| Store.DailyProgressExtremes | app/src/main/java/com/habittracker/data/repository/HabitRepository.kt:234 | 100 iff every habit is done that day; 0 when none is |
| Store.MonthlyProgress | app/src/main/java/com/habittracker/data/repository/HabitRepository.kt:235-238 | completions (codes up to 31) over habits x days, as an integer percentage rounded down |
| Store.MonthlyProgressAtMost100 | app/src/main/java/com/habittracker/data/repository/HabitRepository.kt:237 | never above 100 while every completion code names a day of that month |
| Store.CalculateStreak | app/src/main/java/com/habittracker/data/repository/HabitRepository.kt:239-243 | the length of the run of done days ending today (or yesterday if today is not done), stopped by a gap or by day 1, so never more than that start day |
| Text.EqualsIgnoreCaseIffLowerEqual | app/src/main/java/com/habittracker/data/repository/HabitRepository.kt:117 | the duplicate test of `addHabit` agrees with the lower-cased comparison of `syncToMaster` |
| Decimal.ParseIntToString | app/src/main/java/com/habittracker/data/local/HabitEntity.kt:21 | `toIntOrNull` reads back every 32-bit integer that `toString` writes |
| Converters.FromSet | app/src/main/java/com/habittracker/data/local/HabitEntity.kt:17 | the text is empty exactly when the set is |
| Converters.ToSet | app/src/main/java/com/habittracker/data/local/HabitEntity.kt:19-22 | empty text gives the empty set; every element read is a 32-bit integer |
| Converters.ParsedTokens | app/src/main/java/com/habittracker/data/local/HabitEntity.kt:21 | `mapNotNull { toIntOrNull() }`: exactly the values of the tokens that parse |
| Converters.ToSetFromSet | app/src/main/java/com/habittracker/data/local/HabitEntity.kt:15-23 | storing a set and loading it back gives the same set |
| Converters.ToSetOneToken | app/src/main/java/com/habittracker/data/local/HabitEntity.kt:19-22 | a single token yields its value, or nothing when it is malformed |
| Sheets.ColLetter | app/src/main/java/com/habittracker/data/repository/GoogleSheetsRepository.kt:122-130 | a one- or two-letter A1 label, with one letter exactly below 26 |
| Sheets.ColLetterIndex | app/src/main/java/com/habittracker/data/repository/GoogleSheetsRepository.kt:122-130 | reading the label back as a column number gives the day it was made from |
| Sheets.ColLetterInjective | app/src/main/java/com/habittracker/data/repository/GoogleSheetsRepository.kt:122-130 | distinct days go to distinct columns |
| Sheets.DayColumns | app/src/main/java/com/habittracker/data/repository/GoogleSheetsRepository.kt:122-130 | days 1..25 go to "B".."Z", and 26..31 to "AA".."AF" |
| Sheets.CellCodes | app/src/main/java/com/habittracker/data/repository/GoogleSheetsRepository.kt:63-65 | a cell gives `d` for "1", `100 + d` for "2", and nothing otherwise |
| Sheets.DecodeMonthRowCodes | app/src/main/java/com/habittracker/data/repository/GoogleSheetsRepository.kt:62-66 | day d is read iff column d holds "1"; `100 + d` iff it holds "2"; nothing outside 1..31 and 101..131 |
| Sheets.CacheKeyInjective | app/src/main/java/com/habittracker/data/repository/GoogleSheetsRepository.kt:58 | within one sheet, distinct names have distinct cache keys |
| Sheets.MonthDataUpToNames | app/src/main/java/com/habittracker/data/repository/GoogleSheetsRepository.kt:52-69 | after any prefix of rows, the map holds exactly the non-blank names seen |
| Sheets.MonthDataUpToLast | app/src/main/java/com/habittracker/data/repository/GoogleSheetsRepository.kt:52-69 | after any prefix, each name maps to the codes of its last row, and the cache holds that row's number (index + 2) |
| Sheets.MonthDataUpToCache | app/src/main/java/com/habittracker/data/repository/GoogleSheetsRepository.kt:52-69 | after any prefix, the cache has changed only at the keys of recorded names |
| Sheets.MonthDataUpToCoherent | app/src/main/java/com/habittracker/data/repository/GoogleSheetsRepository.kt:54-59 | every row number the read caches points at a row of that name, so a cache with no stale key of that sheet comes out coherent |
| Sheets.FetchMonthData | app/src/main/java/com/habittracker/data/repository/GoogleSheetsRepository.kt:43-76 | the names read are exactly the non-blank ones; the last row of a repeated name wins in the map and the cache; other cache entries are kept; a coherent cache stays coherent |
| Sheets.FindRow | app/src/main/java/com/habittracker/data/repository/GoogleSheetsRepository.kt:92-93 | the first row whose name cell equals the name exactly, or none |
| Sheets.NewRow | app/src/main/java/com/habittracker/data/repository/GoogleSheetsRepository.kt:100-105 | 32 cells: the name, then the status in the day's column and empty cells elsewhere |
| Sheets.UpdateHabitStatus | app/src/main/java/com/habittracker/data/repository/GoogleSheetsRepository.kt:78-120 | a cache hit writes the cached row; a found row (index + 2) is cached and written; otherwise a new row is appended and nothing is cached |
| Sheets.StatusWriteLands | app/src/main/java/com/habittracker/data/repository/GoogleSheetsRepository.kt:85-117 | with a coherent cache, some row of that name holds the status under the day's column; every other cell is unchanged, and the cache stays coherent |
| Sheets.MonthHeader | app/src/main/java/com/habittracker/data/repository/GoogleSheetsRepository.kt:212-214 | 32 header cells: "Habit Name", then the day numbers 1..31 |
| Sheets.HeaderLabelsDayColumns | app/src/main/java/com/habittracker/data/repository/GoogleSheetsRepository.kt:212-214 | each day's status column sits under the header cell with that day's number |
| Sheets.DeleteFromMonth | app/src/main/java/com/habittracker/data/repository/GoogleSheetsRepository.kt:187-189 | the rows kept are exactly those whose name cell differs |
| Sheets.DeleteFromMonthKeepsOrder | app/src/main/java/com/habittracker/data/repository/GoogleSheetsRepository.kt:187-189 | the kept rows keep their relative order |
| Sheets.DeleteFromCache | app/src/main/java/com/habittracker/data/repository/GoogleSheetsRepository.kt:197 | as written: only the deleted name's key is removed |
| Sheets.StaleCacheAfterDelete | app/src/main/java/com/habittracker/data/repository/GoogleSheetsRepository.kt:187-197 | a concrete sheet where, after the delete, the cache points at a wrong row and the next write misses the habit's row |
| Sheets.DeleteFromCacheFixed | app/src/main/java/com/habittracker/data/repository/GoogleSheetsRepository.kt:197 | corrected: every key of that sheet is removed, and other sheets' keys are kept |
| Sheets.DeleteKeepsCacheCoherent | app/src/main/java/com/habittracker/data/repository/GoogleSheetsRepository.kt:187-197 | after the corrected delete, the cache points only at rows of the right names |
| MasterSheet.MasterName | app/src/main/java/com/habittracker/data/repository/GoogleSheetsRepository.kt:169 | the text before the first " \| ", or the whole cell without one |
| MasterSheet.ParseMasterRow | app/src/main/java/com/habittracker/data/repository/GoogleSheetsRepository.kt:29-35 | a blank cell is skipped; the name is before the first " \| "; the icon is the next piece, or "Check" |
| MasterSheet.MasterRoundTrip | app/src/main/java/com/habittracker/data/repository/GoogleSheetsRepository.kt:29-35 | the `"name \| icon"` value `addHabit` writes reads back as the same habit when the name has no " \| " and does not end in " \|" |
| MasterSheet.NameEndingInBarMisparsed | app/src/main/java/com/habittracker/data/repository/GoogleSheetsRepository.kt:29-35 | "Read \|" with icon "Book" reads back as "Read" with icon "\| Book" |
| MasterSheet.ParseMasterRowFixed | app/src/main/java/com/habittracker/data/repository/GoogleSheetsRepository.kt:29-35 | corrected: the cell is exactly name + " \| " + icon, with no " \| " after the name |
| MasterSheet.MasterRoundTripFixed | app/src/main/java/com/habittracker/data/repository/GoogleSheetsRepository.kt:29-35 | under the corrected parser every name round-trips |
| MasterSheet.ParsersAgreeOnOneSeparator | app/src/main/java/com/habittracker/data/repository/GoogleSheetsRepository.kt:29-35 | on cells with a single " \| " the two parsers agree |
| MasterSheet.FetchWithAppend | app/src/main/java/com/habittracker/data/repository/GoogleSheetsRepository.kt:29-36 | rows are read in order, so appended rows are read after the existing ones |
| MasterSheet.FetchWithMember | app/src/main/java/com/habittracker/data/repository/GoogleSheetsRepository.kt:29-36 | a habit is read iff some row parses to it |
| MasterSheet.FetchWithNames | app/src/main/java/com/habittracker/data/repository/GoogleSheetsRepository.kt:29-36 | a name is read iff some row parses to a habit of that name |
| MasterSheet.DeleteFromMaster | app/src/main/java/com/habittracker/data/repository/GoogleSheetsRepository.kt:167-171 | the rows kept are exactly those whose name part differs |
| MasterSheet.DeleteFromMasterKeepsOrder | app/src/main/java/com/habittracker/data/repository/GoogleSheetsRepository.kt:167-171 | the kept rows keep their relative order |
| MasterSheet.DeletedNameIsGone | app/src/main/java/com/habittracker/data/repository/GoogleSheetsRepository.kt:167-177 | after the master filter, no habit of that name is read back |
| MasterSheet.LowerNames | app/src/main/java/com/habittracker/data/repository/GoogleSheetsRepository.kt:149 | exactly the lower-cased remote names |
| MasterSheet.SyncToMaster | app/src/main/java/com/habittracker/data/repository/GoogleSheetsRepository.kt:144-158 | appends exactly the local habits whose lower-cased name is not among the remote ones, in local order |
| MasterSheet.SyncAfterFailedRead | app/src/main/java/com/habittracker/data/repository/GoogleSheetsRepository.kt:148-155 | a failed master read (`emptyList()`) makes the sync append every local habit |
| MasterSheet.RawRows | app/src/main/java/com/habittracker/data/repository/GoogleSheetsRepository.kt:137 | one `"name \| icon"` row per habit, in order |
| MasterSheet.FetchRawRows | app/src/main/java/com/habittracker/data/repository/GoogleSheetsRepository.kt:29-36 | rows written for round-tripping habits read back as their names, in order |
| MasterSheet.SyncSettles | app/src/main/java/com/habittracker/data/repository/GoogleSheetsRepository.kt:144-158 | when every local habit round-trips, a second sync run appends nothing |
| MasterSheet.SyncSettlesAsWritten | app/src/main/java/com/habittracker/data/repository/GoogleSheetsRepository.kt:144-158 | as written, sync settles for names that satisfy `SeparatorFreeName` |
| MasterSheet.FirstSyncAppendsReadBar | app/src/main/java/com/habittracker/data/repository/GoogleSheetsRepository.kt:144-158 | on an empty master sheet, "Read \|" is appended as "Read \| \| Book" |
| MasterSheet.SyncNeverSettles | app/src/main/java/com/habittracker/data/repository/GoogleSheetsRepository.kt:144-158 | as written, every later run appends "Read \| \| Book" again |
| MasterSheet.SyncSettlesFixed | app/src/main/java/com/habittracker/data/repository/GoogleSheetsRepository.kt:144-158 | with the corrected parser, sync settles for every name |
| Sync.ToggleStatusAgrees | app/src/main/java/com/habittracker/data/repository/HabitRepository.kt:86-102 | the status a toggle sends is what the toggled habit now records for the day |
| Sync.HideStatusAgreesIffNotDone | app/src/main/java/com/habittracker/data/repository/HabitRepository.kt:147-160 | the "2" a hide sends agrees with the local habit iff it was not done that day |
| Sync.ReloadReadsCell | app/src/main/java/com/habittracker/data/repository/GoogleSheetsRepository.kt:62-66 | reloading a cell that agreed with a habit gives back that habit's done and hidden codes for the day |
| Sync.ToggleReadsBack | app/src/main/java/com/habittracker/data/repository/HabitRepository.kt:101-102 | after a toggle is written, a row of that name reads back exactly what the store now records for the day |
| Sync.HideAfterCompleteLosesDay | app/src/main/java/com/habittracker/data/repository/HabitRepository.kt:148-160 | a day completed and then hidden stays done locally, but the sheet reads it back as hidden and not done |
| Setup.FindMatchFrom | app/src/main/java/com/habittracker/ui/screens/SetupScreen.kt:38-39 | the leftmost position where the prefix is followed by an id character |
| Setup.ExtractId | app/src/main/java/com/habittracker/ui/screens/SetupScreen.kt:35-41 | a returned id is non-empty and contains no '/' |
| Setup.ExtractIdMatched | app/src/main/java/com/habittracker/ui/screens/SetupScreen.kt:38-40 | with a match, the id is the longest run of `[A-Za-z0-9-_]` right after the first match's prefix |
| Setup.ExtractIdUnmatched | app/src/main/java/com/habittracker/ui/screens/SetupScreen.kt:40 | without a match, the input comes back unchanged iff it is longer than 20 characters and has no '/'; otherwise nothing |
| Setup.ExtractIdFromLink | app/src/main/java/com/habittracker/ui/screens/SetupScreen.kt:38-40 | a link `base + "/spreadsheets/d/" + id + rest` gives back exactly `id` |
| Setup.Submit | app/src/main/java/com/habittracker/ui/screens/SetupScreen.kt:43-51 | an id is stored and setup finishes iff one was extracted; otherwise the error is set and the stored id is kept |
| Heatmap.Weeks | app/src/main/java/com/habittracker/ui/components/VibrancyHeatmap.kt:30 | the weeks glue back to days 1..maxDays; each has 1..7 days, and all but the last have 7 |
| Heatmap.WeeksPlaceDays | app/src/main/java/com/habittracker/ui/components/VibrancyHeatmap.kt:30 | day `7k + j + 1` is cell `j` of week `k` |
| Heatmap.WeeksHoldEachDayOnce | app/src/main/java/com/habittracker/ui/components/VibrancyHeatmap.kt:30 | each day of the month appears exactly once |
| Heatmap.WeekCount | app/src/main/java/com/habittracker/ui/components/VibrancyHeatmap.kt:21-30 | a month of 28 days has 4 weeks; 29 to 31 days have 5 |
| Heatmap.CellFor | app/src/main/java/com/habittracker/ui/components/VibrancyHeatmap.kt:33-35 | the done count is at most the effective total, which is at most the number of habits |
| Heatmap.CellForCounts | app/src/main/java/com/habittracker/ui/components/VibrancyHeatmap.kt:33-35 | the total counts the habits without the code `100 + day`; the count is 0 iff none of them is done |
| Heatmap.Intensity | app/src/main/java/com/habittracker/ui/components/VibrancyHeatmap.kt:37 | a fraction in [0, 1]: 0 iff nothing counts or nothing is done, and 1 iff all that count are done |
| Heatmap.RowSlots | app/src/main/java/com/habittracker/ui/components/VibrancyHeatmap.kt:32-64 | every row has exactly 7 slots: the week's days, then spacers |
| Heatmap.Grid | app/src/main/java/com/habittracker/ui/components/VibrancyHeatmap.kt:30-65 | one 7-slot row per week |
| Heatmap.GridPlacesDay | app/src/main/java/com/habittracker/ui/components/VibrancyHeatmap.kt:30-32 | day `7k + j + 1` is drawn in column `j` of row `k` |
| Heatmap.GridPadsLastRow | app/src/main/java/com/habittracker/ui/components/VibrancyHeatmap.kt:64 | a slot is a spacer iff it lies past the last day, so only the last row is padded |
| Heatmap.SquareMatchesDailyProgress | app/src/main/java/com/habittracker/ui/components/VibrancyHeatmap.kt:33-35 | while `currentMonthAllHabits` is in step with the store, the selected day's square counts the visible habits and the done ones, as the daily progress does; intensity 1 iff progress 100 |
| Heatmap.ResetLeavesHeatmapStale | app/src/main/java/com/habittracker/data/repository/HabitRepository.kt:228-231 | as written: after resetting a month whose habit was done that day, the progress is 0 but the square still counts one done habit |
| Heatmap.ResetFixedClearsHeatmap | app/src/main/java/com/habittracker/data/repository/HabitRepository.kt:228-231 | with the corrected reset, the selected day's square agrees with the progress again and no square counts a done habit |

## Left out

- Network calls (Retrofit `GoogleSheetsService`), `getSheetId`, `createSheetNamed` and `ensureSheetExists`'s request. The sheets are given as lists of string rows. A failed read is modelled by what the code substitutes for it: an empty master list (Store.LoadRemoteFailedMaster, MasterSheet.SyncAfterFailedRead) or an empty month map (Store.LoadRemoteFailedMonth). A failed write is not modelled; the code only logs it and sets a status message.
- Coroutines, the `Mutex`, `StateFlow`, `ConcurrentHashMap` and the `SupervisorJob` scope. Each locked block is one atomic transition, and the interleaving of the launched jobs is not modelled.
- The session and token checks around each remote call: they decide whether the remote step happens at all, and the model shows each step separately.
- `java.util.Calendar` is replaced by the proleptic Gregorian calendar. The Julian calendar before 1582 and Calendar's leniency for out-of-range fields are not modelled. The clock ("today", the initial month) is a parameter.
- Text is `seq<char>`. Case folding is ASCII only. Whitespace follows Java's `isWhitespace`/`isSpaceChar` for the characters listed in `Text`. String lengths count characters, not UTF-16 units (this matters for the 20-character test of `extractId`).
- Floating point: the heatmap's colour thresholds and the label colour are left out. The intensity is kept as an exact fraction.
- Store.DailyProgress: the product `count * 100` is not wrapped to 32 bits, because that would need over 21 million habits.
- Store.MonthlyProgress: likewise, `sumOf * 100` and `size * days` are not wrapped to 32 bits.
- Sheets.ColLetter: only columns 0..701 (one or two letters). The source is called with days 1..31 only.
- Sheets.FetchMonthData: the contract describes the day map and the cache through predicates (names present, the last row per name, the cache changed only at recorded keys). It does not give a single equation for the result.
- Sheets.ApplyWrite: the sheet's own handling of a write is stated only as needed to follow a status write. Row numbers above the data rows are ignored.
- `rowIndexCache` belongs to each `GoogleSheetsRepository` instance. The model passes it explicitly and does not model two instances with separate caches.
- Decimal.ParseInt: accepts only the ASCII digits '0'..'9', where `toIntOrNull` accepts any Unicode decimal digit. The stored text only ever comes from `fromSet`, which writes ASCII.
- ParsedTokens (Converters.ParsedTokens): for the same reason, a token of non-ASCII decimal digits is dropped rather than read.
- Store.ModifyDay and Store.ModifyMonth: the `loadCurrentMonth` they start is a separate transition (Store.LoadLocal, then Store.LoadRemote). Until it runs, `currentMonthAllHabits` still shows the previous month, as in the app, and `currentMonthData` holds the new month with an empty list (ModifyDay does this only when the move crosses into another month), so the day's list and both progress values read empty or 0; the model's `Visible` already shows what Store.LoadLocal will publish.
- Converters.FromSet: a Kotlin `Set` is iterated in insertion order, so the set is given as the sequence of its elements in that order.
- The drawing code of the screens, `SimpleDateFormat` date strings and the workers are not part of this model.

## Findings

| source | as written | input that shows it | evidently intended | confidence | as-written member | corrected member |
|---|---|---|---|---|---|---|
| app/src/main/java/com/habittracker/data/repository/GoogleSheetsRepository.kt:29-35 | `addHabit` writes `"name \| icon"`, and `fetchMasterHabits` splits at the FIRST " \| ", so a name ending in " \|" is read back wrongly, and `syncToMaster` appends it again on every run | habit "Read \|" with icon "Book": the row "Read \| \| Book" reads back as "Read" with icon "\| Book" | every name written reads back as itself, so one sync run settles | not executed | MasterSheet.ParseMasterRow, MasterSheet.NameEndingInBarMisparsed, MasterSheet.SyncNeverSettles | MasterSheet.ParseMasterRowFixed, MasterSheet.MasterRoundTripFixed, MasterSheet.SyncSettlesFixed |
| app/src/main/java/com/habittracker/data/repository/GoogleSheetsRepository.kt:187-197 | a permanent delete rewrites the month sheet without the row, which moves every later row up, but only the deleted name's cache key is removed | "A" in row 2 and "B" in row 3, both cached; delete "A": "B" moves to row 2 but stays cached at row 3, so toggling "B" on day 1 writes into a new nameless row | the cache points only at rows that carry the cached name | not executed | Sheets.DeleteFromCache, Sheets.StaleCacheAfterDelete | Sheets.DeleteFromCacheFixed, Sheets.DeleteKeepsCacheCoherent |
| app/src/main/java/com/habittracker/data/repository/HabitRepository.kt:228-231 | `resetCurrentMonth` clears `habitsStore` and `currentMonthData` but, unlike every other locked block that writes the month's list, does not assign `currentMonthAllHabits`, from which the heatmap is drawn | one habit "Run" done on day 1, selected day 1; after the reset the day's progress is 0 while the heatmap square still counts one done habit | the reset list is published to `currentMonthAllHabits` too, so the heatmap and the progress agree | not executed | Store.ResetCurrentMonth, Heatmap.ResetLeavesHeatmapStale | Store.ResetCurrentMonthFixed, Heatmap.ResetFixedClearsHeatmap |
