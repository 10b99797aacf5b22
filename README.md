# hui-calendar month view, in Dafny

hui-calendar is a small month calendar widget. These files model its core:
- the helpers of `src/helper.ts`;
- the task index and the `Calendar` class of `src/Calendar.ts`;
- the older `Calendar` class of `src/main.ts`.

The model covers the grid of dates shown for a month and the cells made from it. It also covers the `year.MM` header, the `prev`/`next` navigation, and the lookup of tasks by date.

Dates follow the JavaScript `Date` object, which uses the proleptic Gregorian calendar of ECMA-262, section 21.4.1.

| file | module | contents |
|---|---|---|
| `js_date.dfy` | `JsDate` | Calendar arithmetic and `new Date(year, month, day)`. The two-digit-year rule is included, and the month and day carry as MakeDay defines. Day numbers count from 1970-01-01, and `Weekday` is WeekDay. |
| `decimal.dfy` | `Decimal` | The decimal rendering of an integer, as `${n}` and `n.toString()` produce it. |
| `helper.dfy` | `Helper` | `getNumberOfDaysInAMonth`, `getDate`, `fillZero` and `formatDate`. |
| `types.dfy` | `Types` | `STATUS`, `MODE` and `Task` from `src/type.ts`, plus an `Option` for the optional query date. |
| `tasks.dfy` | `Tasks`, `TaskLemmas` | The `Tasks` class: `getTasks`, `haveTask`, `haveEmergency`, and the sample list. |
| `month_view.dfy` | `MonthView`, `MonthViewLemmas` | The leading, current and trailing dates of a month as specification functions, the header label, and what they contain. |
| `cells.dfy` | `GridCells`, `GridCellLemmas` | The cells `#buildDateCells` renders: text, date, `prev-month` flag and task tag. |
| `navigation.dfy` | `Navigation` | `prev`/`next` as steps on (year, month). |
| `calendar.dfy` | `CalendarView` | The `Calendar` class of `src/Calendar.ts`. It has fields, loop builders proved against `MonthView`, and `prev`/`next`, which change `year` and `month` in place. |
| `legacy_calendar.dfy` | `LegacyCells`, `LegacyCellLemmas`, `LegacyView` | The `Calendar` class of `src/main.ts`. Its grid has leading and current dates only, rendered as bare day texts. |

Representation:
- A date is a triple `Date(year, month, day)` with a zero-based month.
- The ISO strings that the source passes around (`toISOString()`, then `new Date(string)`) are represented by the date they denote. Building a date in local time and reading it back in local time is the identity.
- The query date of the task index is `Option<Date>`. `None` stands for the absent or empty string.
- `src/main.ts` repeats `getNumberOfDaysInAMonth` and `getDate` verbatim from `src/helper.ts`, so each is modelled once, in `Helper`.
- `src/main.ts` also repeats the builders verbatim. `LegacyView.LegacyCalendar` repeats them too, so that each class stands on its own.
- The rendering methods return the cells and the heading instead of writing them into the page.
- `Render` has no `modifies` clause. It reads the state and changes nothing, so rendering twice gives the same grid and label.

The leading cells disagree with the intended behaviour. The widget is meant to show the last days of the previous month before the 1st, e.g. May 29–31 before June 1, 2022. The code instead emits day `prevMonthDays - i`, which gives May 28–30. The model follows the code; see "Findings".

## Model

| member | source | states |
|---|---|---|
| `Helper.GetNumberOfDaysInAMonth` | src/helper.ts:1-3 | For any integer month, day 0 of `month + 1` is the last day of the month that `month` normalises to (after the two-digit-year rule), so the result is the length of that month. |
| `Helper.DaysInAMonthBounds` | src/main.ts:18-20 | The result lies in 28..31. For a month in 0..11 it is the Gregorian length of that month. February has 29 days exactly in a leap year, and months -1 and 12 (December before, January after) give 31. |
| `JsDate.MonthLengths` | src/helper.ts:2 | A month has 29 days exactly for February of a leap year and 28 for February otherwise. It has 30 exactly for April, June, September and November, and 31 for the rest. |
| `Helper.FillZero` | src/helper.ts:9-15 | The result is as long as `s` but at least 2 characters, ends with `s`, and every prepended character is `'0'`. |
| `Helper.FillZeroIdempotent` | src/helper.ts:14 | Padding an already padded string changes nothing. |
| `Helper.FillZeroTwoDigits` | src/helper.ts:9-15 | A number in 0..99 becomes exactly its two decimal digits, so the months 1..12 become "01".."12". |
| `Helper.FillZeroExamples` | src/helper.ts:14 | "7" becomes "07"; "12" and "123" are left alone. |
| `Helper.FillZeroNumber` | src/helper.ts:9-15 | The number branch of `fillZero`: `${n}`, then padded. It has no `ensures` of its own; `Helper.FillZeroTwoDigits` states that 0..99 become exactly their two digits. |
| `Helper.GetDate` | src/helper.ts:5-7 | For a valid date, the day text is one or two decimal digits with no leading zero, and its value is the day of the month. |
| `Helper.FormatDate` | src/helper.ts:17-25 | `Y-MM-DD` of the date. It has no `ensures` of its own; `Helper.FormatDateShape` and `Helper.FormatDateInjective` state its meaning. |
| `Helper.FormatDateShape` | src/helper.ts:17-25 | For a valid date the string is the year, then `-MM-DD` with the month and the day as two digits each. |
| `Helper.FormatDateInjective` | src/helper.ts:17-25 | Two valid dates have the same `Y-MM-DD` string if and only if they are the same date. The string depends on the calendar date alone. |
| `Decimal.NatToString` | src/helper.ts:11 | `${n}` of a natural number is a non-empty string of digits with no leading zero. It has one digit exactly when n < 10. |
| `Decimal.IntToString` | src/helper.ts:24 | `${year}` and `toString()` of an integer (also src/helper.ts:6 and src/Calendar.ts:149): a non-empty string whose first character is a digit exactly when the number is not negative (a negative one starts with '-'). |
| `Decimal.ValueOfNatToString` | src/helper.ts:11 | Reading the decimal digits back gives the number, so the rendering is invertible. |
| `Decimal.IntToStringInjective` | src/Calendar.ts:149 | Different integers (a negative year included) have different decimal renderings. |
| `JsDate.NormalizeDayNumber` | src/Calendar.ts:59-63 | `new Date(year, month, day)` lands `day - 1` days after the 1st of the normalised month, for any integer month and day. This is the MakeDay overflow rule. |
| `JsDate.NormalizeCharacterised` | src/Calendar.ts:59-63 | The constructed date is the unique valid date with that day number. |
| `JsDate.Carry` | src/Calendar.ts:59-63 | Whatever day is passed, the carried date exists in the calendar, and a day inside the month is kept as it is. `JsDate.CarryDayNumber` gives its day number. |
| `JsDate.Normalize` | src/Calendar.ts:59-63 | MakeDay: a day inside the normalised month is kept as it is. For other days, `JsDate.NormalizeDayNumber` and `JsDate.NormalizeCharacterised` fix the result. |
| `JsDate.CivilYear` | src/Calendar.ts:47 | A year in 0..99 becomes a year in 1900..1999 with the same last two digits. Any other year is kept. |
| `JsDate.Weekday` | src/Calendar.ts:47 | `getDay()` lies in 0..6, Sunday to Saturday. The column lemmas below say which weekday each grid cell has. |
| `JsDate.NewDate` | src/Calendar.ts:77 | `new Date(year, month, day)`: after the two-digit-year rule and the month carry, a day inside the normalised month is kept as it is. |
| `Tasks.DatedOn` | src/Calendar.ts:19-21 | The filter returns at most as many tasks as are listed. A task is in the result if and only if it is listed and carries the date string. |
| `Tasks.TaskIndex.GetTasks` | src/Calendar.ts:14-22 | An absent date gives no tasks. Otherwise the result holds exactly the listed tasks whose date string is `formatDate` of the date. |
| `Tasks.TaskIndex.HaveTask` | src/Calendar.ts:24-26 | True if and only if the date is present and some listed task carries its date string. |
| `Tasks.Emergencies` | src/Calendar.ts:30-32 | The inner filter of `haveEmergency` returns at most as many tasks as it is given. A task is in the result if and only if it is among them and has status EMERGENCY. |
| `Tasks.TaskIndex.HaveEmergency` | src/Calendar.ts:28-34 | True if and only if the date is present and some task dated on it has status EMERGENCY. It implies `HaveTask`. |
| `TaskLemmas.GetTasksIsOrderedFilter` | src/Calendar.ts:19-21 | `getTasks` returns the matching tasks at ascending positions, in the list's own order. |
| `TaskLemmas.DatedOnAppend` | src/Calendar.ts:19-21 | Filtering a concatenation gives the concatenation of the filtered parts. |
| `TaskLemmas.MatchesCalendarDate` | src/Calendar.ts:20 | A task dated by a valid date is returned for a valid date if and only if the two dates are equal. |
| `Tasks.SampleTasks` | src/Calendar.ts:183-206 | The sample list has four tasks, and exactly the second one is an emergency. |
| `TaskLemmas.SampleTwelfth` | src/Calendar.ts:183-206 | In the sample list, 2022-06-12 has exactly the first task. That task exists, and it is not an emergency. |
| `TaskLemmas.SampleThirteenth` | src/Calendar.ts:190-194 | In the sample list, 2022-06-13 has an emergency. |
| `TaskLemmas.SampleFourteenth` | src/Calendar.ts:183-206 | In the sample list, 2022-06-14 has no task. |
| `MonthView.FirstDay` | src/Calendar.ts:46-48 | A weekday in 0..6. `MonthViewLemmas.FirstDayOfMonth` says it is that of the 1st. |
| `MonthView.PrevMonthDays` | src/Calendar.ts:53-54 | The length of the month that `month - 1` normalises to. |
| `MonthView.Leading` | src/Calendar.ts:50-69 | As many leading dates as the weekday of the 1st. `MonthViewLemmas.LeadingCells` gives the dates. |
| `MonthView.Current` | src/Calendar.ts:71-83 | As many current dates as the normalised month has days. `MonthViewLemmas.CurrentCells` gives the dates. |
| `MonthView.WeekPadding` | src/Calendar.ts:93-94 | The padding lies in 0..6, and the cell count plus the padding is a multiple of 7. |
| `MonthView.TrailingCount` | src/Calendar.ts:91-94 | The padding lies in 0..6, and with it the FirstDay leading and the current dates fill whole weeks. |
| `MonthView.Trailing` | src/Calendar.ts:85-105 | Fewer than 7 trailing dates. `MonthViewLemmas.TrailingCells` gives the dates. |
| `MonthView.Grid` | src/Calendar.ts:110-114 | The grid is a multiple of 7 long, between 28 and 42. |
| `MonthView.LegacyGrid` | src/main.ts:73-84 | The older grid has FirstDay plus the days of the month, between 28 and 37. |
| `MonthView.IntendedLeading` | src/Calendar.ts:58-66 | The corrected leading dates are as many as the code's. `MonthViewLemmas.IntendedLeadingCells` gives the dates. |
| `MonthView.IntendedGrid` | src/Calendar.ts:110-114 | The corrected grid has the same length as the grid as written. |
| `MonthViewLemmas.FirstDayOfMonth` | src/Calendar.ts:46-48 | `new Date(year, month, 1).getDay()` is the weekday of the 1st of the month shown, with the two-digit-year rule applied. |
| `MonthViewLemmas.PrevMonthDaysIs` | src/Calendar.ts:53-54 | `getNumberOfDaysInAMonth(year, month - 1)` is the length of the preceding month, including December of the year before for January. |
| `MonthViewLemmas.LeadingCells` | src/Calendar.ts:50-69 | There are as many leading cells as the weekday of the 1st (at most 6). They are consecutive valid days of the preceding month, each outside the month shown, and they end on the day before its last day. |
| `MonthViewLemmas.LeadingConsecutive` | src/Calendar.ts:58-66 | Each leading cell is the day after the one before it. |
| `MonthViewLemmas.CurrentCells` | src/Calendar.ts:71-83 | There are as many current cells as the month has days, and they are days 1..n of the month shown, in order. |
| `MonthViewLemmas.TrailingCells` | src/Calendar.ts:85-105 | There are at most 6 trailing cells. They are days 1, 2, .. of the following month, including January of the next year for December, and each is outside the month shown. |
| `MonthViewLemmas.GridLength` | src/Calendar.ts:110-114 | The grid is whole weeks: 28, 35 or 42 cells, never fewer than the days of the month. |
| `MonthViewLemmas.GridMonthFlags` | src/Calendar.ts:125-127 | A grid date is in the month shown if and only if it is one of the current cells. The others are exactly the cells flagged `prev-month`. |
| `MonthViewLemmas.GridValid` | src/Calendar.ts:110-114 | Every grid date exists in the calendar. |
| `MonthViewLemmas.LegacyGridLength` | src/main.ts:73-84 | The older grid has FirstDay + days cells, between 28 and 37, with no trailing padding. |
| `MonthView.HeroLabel` | src/Calendar.ts:146-150 | For a month in 0..11 the label is the year, a '.', and the month number as exactly two digits. |
| `MonthViewLemmas.HeroLabelInjective` | src/Calendar.ts:146-150 | Two months get the same label if and only if they have the same year and month. |
| `MonthViewLemmas.June2022Leading` | src/Calendar.ts:58-66 | As written, June 2022 starts its grid with May 28, 29 and 30. |
| `MonthViewLemmas.June2022Trailing` | src/Calendar.ts:93-102 | June 2022 ends its grid with July 1 and 2. |
| `MonthViewLemmas.June2022Size` | src/Calendar.ts:110-114 | June 2022 has 3 + 30 + 2 = 35 cells. The grid of `src/main.ts` has 33. |
| `MonthViewLemmas.LeadingColumns` | src/Calendar.ts:62 | As written, leading cell k has weekday (k + 6) mod 7, one column before its own weekday. |
| `MonthViewLemmas.CurrentColumns` | src/Calendar.ts:76-80 | Current cell j falls on weekday (FirstDay + j) mod 7, the column it is shown in. |
| `MonthViewLemmas.TrailingColumns` | src/Calendar.ts:98-102 | Trailing cell j falls on weekday (FirstDay + days + j) mod 7, the column it is shown in. |
| `MonthViewLemmas.GridColumnsAsWritten` | src/Calendar.ts:110-114 | In the grid as written, the leading cells are one weekday early. Every later cell sits in the column of its weekday. |
| `MonthViewLemmas.FirstColumn` | src/Calendar.ts:58-66 | When the month does not start on a Sunday, the grid as written opens with a Saturday in the Sunday column, and the intended grid opens with a Sunday. |
| `MonthViewLemmas.IntendedLeadingCells` | src/Calendar.ts:58-66 | The corrected leading cells (`prevMonthDays - i + 1`) are the last FirstDay days of the preceding month, ending on its last day. |
| `MonthViewLemmas.IntendedLeadingColumns` | src/Calendar.ts:58-66 | Corrected leading cell k falls on weekday k. |
| `MonthViewLemmas.IntendedGridAligned` | src/Calendar.ts:110-114 | With the corrected leading cells, every grid date k falls on weekday k mod 7. |
| `MonthViewLemmas.June2022Intended` | src/Calendar.ts:58-66 | The corrected grid for June 2022 starts with May 29, 30 and 31, and begins with a Sunday where the code's grid begins with a Saturday. |
| `Navigation.Prev` | src/Calendar.ts:152-162 | From any month up to 0 (negative ones included) it goes to (year - 1, 11); from any month above 0 to month - 1 in the same year. A month in 0..11 stays in 0..11. |
| `Navigation.Next` | src/Calendar.ts:164-175 | From any month from 11 on (12 and above included) it goes to (year + 1, 0); from any month below 11 to month + 1 in the same year. A month in 0..11 stays in 0..11. |
| `Navigation.PrevNextInverse` | src/main.ts:92-115 | On a month in 0..11, `next` after `prev` and `prev` after `next` restore (year, month). |
| `Navigation.NavigationIsMonthCarry` | src/Calendar.ts:153-160 | The wrap-around reaches the same month as the carry that `new Date(year, month ∓ 1, ..)` performs: the preceding or the following month. |
| `GridCells.Decorate` | src/Calendar.ts:116-143 | The cell keeps its date and its `getDate` text. It is flagged exactly outside the month shown. It is tagged exactly when `haveTask` holds: emergency exactly when `haveEmergency` holds, normal otherwise. |
| `GridCells.Cells` | src/Calendar.ts:116 | One cell per date. |
| `GridCells.DateCells` | src/Calendar.ts:110-116 | One cell per grid date, and cell k holds grid date k. |
| `GridCellLemmas.DecorateMeaning` | src/Calendar.ts:116-143 | The cell of a valid date shows its day unpadded. It is flagged exactly when the date's month differs from the month shown. It is tagged exactly when a task is dated on it, and the tag is emergency exactly when one of those tasks is an emergency. |
| `GridCellLemmas.DateCellsLength` | src/Calendar.ts:110-116 | There is one cell per grid date: 28, 35 or 42 cells. |
| `GridCellLemmas.DateCellAt` | src/Calendar.ts:116-143 | Cell k holds the k-th grid date, a valid date, and its text is the day. It is flagged exactly outside the current cells. Its tag is present exactly when `haveTask` holds, and the tag is emergency exactly when `haveEmergency` holds. |
| `GridCellLemmas.CurrentDateCell` | src/Calendar.ts:122-127 | The cell FirstDay + j is day j + 1 of the month shown, reads j + 1, and is not flagged. |
| `GridCellLemmas.June2022SampleCells` | src/Calendar.ts:129-137 | With the sample tasks, June 2022 has 35 cells. June 12 has a normal tag, June 13 an emergency tag, and June 14 no tag. |
| `CalendarView.Calendar.constructor` | src/Calendar.ts:38-44 | The fields take the given values. The clock-dependent defaults are left out. |
| `CalendarView.Calendar.FirstDayInCurrentMonth` | src/Calendar.ts:46-48 | A weekday in 0..6. For a month in 0..11 it is that of the 1st of the month shown. |
| `CalendarView.Calendar.BuildPrevDates` | src/Calendar.ts:50-69 | The count-down loop builds exactly the leading dates. |
| `CalendarView.Calendar.BuildCurrentDates` | src/Calendar.ts:71-83 | The loop builds exactly the current dates. |
| `CalendarView.Calendar.BuildRemainingDates` | src/Calendar.ts:85-105 | The loop builds exactly the trailing dates that round the grid up to whole weeks. |
| `CalendarView.Calendar.BuildDateCells` | src/Calendar.ts:107-144 | The `forEach` produces exactly the decorated cells of leading, current and trailing dates, in order. |
| `CalendarView.Calendar.RenderHero` | src/Calendar.ts:146-150 | The heading is the label `year.MM` of the displayed month. |
| `CalendarView.Calendar.Render` | src/Calendar.ts:177-180 | Returns the heading and the cells of the displayed month, and changes nothing. |
| `CalendarView.Calendar.Prev` | src/Calendar.ts:152-162 | The position becomes `Navigation.Prev` of the old one, and a month in 0..11 stays in range. Tasks, active date and mode are unchanged. The new month is rendered. |
| `CalendarView.Calendar.Next` | src/Calendar.ts:164-175 | The position becomes `Navigation.Next` of the old one, and a month in 0..11 stays in range. Tasks, active date and mode are unchanged. The new month is rendered. |
| `LegacyCells.Texts` | src/main.ts:75-83 | One text per date. The text of a valid date is decimal digits whose value is the day. |
| `LegacyCells.LegacyTexts` | src/main.ts:73-84 | One text per date of the older grid, between 28 and 37. |
| `LegacyCellLemmas.LegacyTextsContent` | src/main.ts:73-84 | The older grid shows FirstDay + days texts (28 to 37). Each is the unpadded decimal day of its date (`getDate`, src/main.ts:22-24), and the current ones read 1..days. |
| `LegacyCellLemmas.June2022LegacyTexts` | src/main.ts:75 | June 2022 shows 33 texts, which is not a whole number of weeks. |
| `LegacyView.LegacyCalendar.constructor` | src/main.ts:27-32 | The fields take the given values. The clock-dependent defaults are left out. |
| `LegacyView.LegacyCalendar.FirstDayInCurrentMonth` | src/main.ts:34-36 | A weekday in 0..6. For a month in 0..11 it is that of the 1st of the month shown. |
| `LegacyView.LegacyCalendar.BuildPrevDates` | src/main.ts:38-57 | The count-down loop builds exactly the leading dates, with the same day `prevMonthDays - i`. |
| `LegacyView.LegacyCalendar.BuildCurrentDates` | src/main.ts:59-71 | The loop builds exactly the current dates. |
| `LegacyView.LegacyCalendar.BuildDateCells` | src/main.ts:73-84 | The texts are `getDate` of the leading and current dates, in order, with no trailing padding. |
| `LegacyView.LegacyCalendar.RenderHero` | src/main.ts:86-90 | The heading is `year.` followed by `${month + 1}` padded to two characters with '0'. This is the same label as `HeroLabel`. |
| `LegacyView.LegacyCalendar.Render` | src/main.ts:117-120 | Returns the heading and the texts of the displayed month, and changes nothing. |
| `LegacyView.LegacyCalendar.Prev` | src/main.ts:92-102 | The position becomes `Navigation.Prev` of the old one. The active date and mode are unchanged. The new month is rendered. |
| `LegacyView.LegacyCalendar.Next` | src/main.ts:104-115 | The position becomes `Navigation.Next` of the old one. The active date and mode are unchanged. The new month is rendered. |

## Left out

- DOM work is left out: clearing `days`, creating `time` and `div` elements, class names, `innerText`, `dataset`, and appending (src/Calendar.ts:108, 116-143, 149; src/main.ts:74-83, 89). The cells and the heading are returned as values instead.
- The cell's `data-date` attribute holds the ISO string; the cell holds the date it denotes.
- `toISOString()` and `new Date(string)` are host behaviour and are left out, and so are time zones. This includes the UTC reading of date-only strings (src/Calendar.ts:63, 77, 99; src/helper.ts:6, 18). Dates are calendar triples, and reading back a local construction is the identity.
- The `date ? getDate(date) : ''` guard (src/Calendar.ts:122) has no modelled empty case. The dates of the grid are never empty strings.
- A task query string that does not parse (an Invalid Date) is not modelled. The optional date is either absent/empty (`None`) or a date.
- The time-value range of ECMA-262 (±8.64e15 ms) and IEEE double arithmetic are left out. Years and days are unbounded integers, so no date becomes Invalid Date.
- The constructors' clock-dependent defaults (`new Date()` for year, month and active date; src/Calendar.ts:40-42, src/main.ts:28-30) are not modelled. They are parameters of the constructors.
- The `activeDate` and `mode` fields are never read by the core. They are carried, and navigation is shown to leave them unchanged.
- From the module-level sample, only the task list is kept (`Tasks.SampleTasks`, used in witness lemmas). The singleton `calendar` and its export (src/Calendar.ts:183-208) are not modelled.
- The listeners and the initial `calendar.render()` (src/main.ts:123-133) and the style import (src/main.ts:1) are not modelled.
- `src/dom.ts` is not part of this model; it only looks up page elements. `src/type.ts` declares `STATUS`, `MODE` and `Task`; `Types` models them as datatypes.
- Helper.FillZero: `padStart` counts UTF-16 code units, while a Dafny string counts Unicode scalar values. A string with a character outside the Basic Multilingual Plane is therefore padded differently: `fillZero` leaves the one-character string U+1F600 alone (it is two code units long), while the model prepends a '0'. The widget only ever pads decimal digits (src/helper.ts:21-22, src/Calendar.ts:147), and for those the two counts agree.
- CalendarView.Calendar.FirstDayInCurrentMonth: the weekday is characterised as that of the 1st only for a month in 0..11. For other month values the result is the weekday of the normalised `new Date(year, month, 1)`, but the contract states only that it lies in 0..6.
- LegacyView.LegacyCalendar.FirstDayInCurrentMonth: the same weaker statement for the older class.

## Findings

| source | as written | input that shows it | evidently intended | confidence | as-written member | corrected member |
|---|---|---|---|---|---|---|
| src/Calendar.ts:58-66 (also src/main.ts:46-54) | leading cell for i = firstDay..1 is day `prevMonthDays - i` of the previous month, so the last day of that month is never shown and each leading cell is a weekday early | June 2022 (year 2022, month 5): the grid opens with May 28, 29, 30 and shows a Saturday under Sunday | day `prevMonthDays - i + 1`: the last firstDay days of the previous month, ending on its last day, each in the column of its weekday | not executed | `MonthViewLemmas.June2022Leading`, `MonthViewLemmas.GridColumnsAsWritten`, `MonthViewLemmas.FirstColumn` | `MonthViewLemmas.IntendedGridAligned`, `MonthViewLemmas.IntendedLeadingCells`, `MonthViewLemmas.June2022Intended` |

The builder methods of both classes model the code as written. The corrected grid is `MonthView.IntendedGrid`. For it, the column lemmas prove the alignment that the week layout (Sunday first) relies on.
