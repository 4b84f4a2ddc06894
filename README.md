# Weekly report archive: week window and edit path

This project models the `ArchiveManager` class of the archive page in
`archive/archive.js`. The page keeps a list of weekly reports in the
browser's storage area and seeds five sample reports on first use. It
shows the list newest first. A report may be edited only while its ISO
week is the current week or the week before.

The model has four modules:

- **Calendar** (`calendar.dfy`): whole-day arithmetic in the proleptic
  Gregorian calendar.
  - A date is a day number; day 0 is 2001-01-01, a Monday.
  - An instant is milliseconds since 1970-01-01, as a `Date` holds it.
  - `DayOf` strips the time of day (`setHours(0, 0, 0, 0)`).
  - `Year`, `DayOfYear`, `JsDay` (`getDay`) and `IsoWeekday` (`getDay() || 7`)
    give the rest of what the page reads from a `Date`.
- **Text** (`text.dfy`): what the page takes from the host language.
  - `Trim` is `String.prototype.trim` over the ECMAScript whitespace characters.
  - `NatToDecimal` is the decimal rendering `${n}` in the label text.
- **Weeks** (`weeks.dfy`): `getWeekInfo`, the week distance, `isEditable` and
  `getWeekLabel`, as pure functions of a day number and an instant `now`.
  - The page computes the week by moving to the Thursday of the date's
    Monday-to-Sunday week. The model's `WeekOfDay` is the ISO 8601 week, as
    defined in section 4.1.4 of ISO 8601:2004. `WeekOfDayIsIso` and
    `IsoWeekRoundTrip` prove that in both directions.
  - The page's own week agrees with this in every year except 0 to 99, where
    `new Date(y, 0, 1)` starts counting in the year 1900 + y (see Findings).
  - The week distance is `(yNow - yRep) * 52 + (wNow - wRep)`. It is kept as
    written. `ApproximationError` proves how far it is from the true number of
    weeks: one week short for every 53-week ISO year between the two weeks.
  - Inside one ISO year the edit window is exact (`EditableSameIsoYear`).
  - Across a 53-week year it is not. `NextWeekEditableAfterLongYear` and
    `TwoWeeksAgoEditableAfterLongYear` exhibit a report dated a week in the
    future, and one dated two weeks back, that the page still lets the user
    edit.
- **Archive** (`archive.dfy`): the report list and its edit path.
  - `Report` is a class whose fields `saveReport` sets in place.
  - `Storage` holds the `afet_reports` entry as an abstract value: absent, or
    the list of report values it encodes.
  - `ArchiveManager` holds the list of report objects and the store.
  - Each method is proved against a function on values. `EditReports` is
    `saveReport`, `Loaded` is what a page load makes of the store, and
    `SortNewestFirst` is the display order.
  - The lemmas beside those functions state the guards, the frame of an edit,
    the seeding, and that the display order is a stable newest-first
    permutation.

Where the page reads the clock (`new Date()`), the model takes the instant
`now` as a parameter.

The code does not reseed when the stored entry cannot be parsed:
`JSON.parse` at line 69 throws. In the model the stored entry is always a
well-formed list.

The page's comments expect two things that the 52-week distance does not
give next to 53-week ISO years:

- the edit window "current week + 1 week back" (lines 28 and 40) leaves out
  every later week, yet a report dated seven days ahead can be editable;
- the seed report of fourteen days ago is marked "not editable" (line 109),
  yet it can be editable.

The two long-year lemmas above give the dates. The other two seed comments
hold. `OldReportNotEditable` proves that a report dated 21 or more days back
is never editable, at any instant. `SamplesNotEditable` applies it to the
reports of lines 121 and 133. `SamplesInEarlierWeeks` proves that every seed
report but the first lies in an earlier ISO week than today.

## Model

| member | source | states |
|---|---|---|
| Calendar.MidnightOf | archive/archive.js:31 | the instant `new Date` gives a report's date string: that day's midnight, which DayOfTimeOfDay reads back as the day |
| Calendar.DayOf | archive/archive.js:16-17 | the day an instant falls in: the instant lies between that day's midnight and the next |
| Calendar.DayOfTimeOfDay | archive/archive.js:17 | stripping the time of day from any instant of day d gives d |
| Calendar.YearLength | archive/archive.js:19-20 | a Gregorian year has 365 or 366 days |
| Calendar.YearStart | archive/archive.js:19 | `new Date(y, 0, 1)` as a day: year 2001 starts on day 0 and each year starts where the one before ends; YearStartClosedForm gives its closed form |
| Calendar.NextYearStart | archive/archive.js:19 | year y + 1 starts where year y ends |
| Calendar.QuotientStep | archive/archive.js:19 | the leap-year counts by 4, 100 and 400 step by one exactly at a multiple |
| Calendar.LeapCountedStep | archive/archive.js:19 | the closed form of a year's start grows by that year's length |
| Calendar.YearStartClosedForm | archive/archive.js:19 | the recursive start of a year equals 365 a year plus the Gregorian leap days |
| Calendar.YearStartMonotone | archive/archive.js:19 | years start at least 365 days apart per year |
| Calendar.YearUp | archive/archive.js:19 | the search up from a year that starts on or before d finds the year holding d |
| Calendar.YearDown | archive/archive.js:19 | the search down from a year that ends after d finds the year holding d |
| Calendar.Year | archive/archive.js:19 | `getFullYear`: the year whose first day is on or before d and whose successor's first day is after d |
| Calendar.YearUnique | archive/archive.js:19 | a day belongs to exactly one year |
| Calendar.YearsApart | archive/archive.js:19 | two days less than 365 days apart lie in the same year or in consecutive years |
| Calendar.DayOfYear | archive/archive.js:20 | the 1-based position of a day in its year, between 1 and the year's length |
| Calendar.EpochIsYear1970 | archive/archive.js:16 | instants count from the first day of 1970 |
| Calendar.EpochWeekdays | archive/archive.js:18 | 1970-01-01 is a Thursday (`getDay` 4) and day 0, 2001-01-01, is a Monday (`getDay` 1) |
| Calendar.JsDay | archive/archive.js:18 | `getDay` is between 0 and 6 |
| Calendar.IsoWeekday | archive/archive.js:18 | the ISO day of the week is between 1 and 7 |
| Calendar.GetDayOrSeven | archive/archive.js:18 | `getDay() \|\| 7` is the ISO day of the week; Sunday is the day `getDay` gives 0 |
| Calendar.MondayOf | archive/archive.js:18 | the Monday of a day's week is on or before it, less than 7 days back, and is a Monday |
| Calendar.MondayOfSameWeek | archive/archive.js:18 | two days share a Monday exactly when one lies in the seven days from the other's Monday |
| Text.TrimStart | archive/archive.js:284-286 | the leading whitespace is removed and nothing else; the result starts with a non-whitespace character or is empty |
| Text.TrimEnd | archive/archive.js:284-286 | the trailing whitespace is removed and nothing else; the result ends with a non-whitespace character or is empty |
| Text.Trim | archive/archive.js:284-286 | the trimmed input neither starts nor ends with whitespace |
| Text.TrimIsInfix | archive/archive.js:284-286 | the trimmed input is a contiguous part of the input with only whitespace on either side |
| Text.TrimStartAllWhitespace | archive/archive.js:284-286 | an all-whitespace input loses everything to the leading trim |
| Text.TrimEmptyIff | archive/archive.js:288 | an input trims to the empty (falsy) string exactly when it is all whitespace |
| Text.TrimIdempotent | archive/archive.js:284-286 | trimming a trimmed input changes nothing |
| Text.DigitChar | archive/archive.js:59 | a digit renders as a character between '0' and '9' |
| Text.DigitValue | archive/archive.js:59 | a digit character reads back as the digit that renders it |
| Text.NatToDecimal | archive/archive.js:59 | `${n}` is a non-empty decimal numeral with no leading zero |
| Text.DecimalRoundTrip | archive/archive.js:59 | the numeral `${n}` reads back as n |
| Weeks.CeilDiv7 | archive/archive.js:20 | `Math.ceil(n / 7)` is the q with 7(q - 1) < n <= 7q |
| Weeks.WeekOfThursday | archive/archive.js:19-23 | a Thursday's week is between 1 and 53, and its year is the Thursday's calendar year |
| Weeks.WeekOfDay | archive/archive.js:18-23 | the week of a day is carried by the Thursday of its Monday-to-Sunday week: a week from 1 to 53 in that Thursday's year |
| Weeks.GetWeekInfo | archive/archive.js:15-26 | `getWeekInfo` of an instant: the week of its day, from 1 to 53, in the year of that week's Thursday |
| Weeks.ThursdayFrom | archive/archive.js:18 | the first Thursday on or after a day is less than a week after it |
| Weeks.FirstThursday | archive/archive.js:18-20 | a year's first Thursday is a Thursday within its first seven days |
| Weeks.ThursdaysApart | archive/archive.js:18-20 | two Thursdays lie a whole number of weeks apart |
| Weeks.WeeksInYear | archive/archive.js:20 | an ISO year has 52 or 53 weeks: the gap from its first Thursday to the next year's |
| Weeks.ThursdayAfterFirst | archive/archive.js:19-20 | a Thursday in or after year y lies whole weeks after y's first Thursday |
| Weeks.WeekOfDayIsIso | archive/archive.js:15-26 | the computed (year, week) is an ISO week that exists in that year, and the day's Monday is that ISO week's Monday |
| Weeks.ThursdayWeek | archive/archive.js:18-23 | the Thursday of ISO week w of year y is numbered (y, w) |
| Weeks.IsoWeekMondayOf | archive/archive.js:18 | the seven days from an ISO week's Monday all have that Monday |
| Weeks.IsoWeekRoundTrip | archive/archive.js:15-26 | every day of ISO week w of year y is numbered (y, w): the converse of WeekOfDayIsIso |
| Weeks.IsoWeekMondayWeek | archive/archive.js:15-26 | the Monday of ISO week w of year y is numbered (y, w) |
| Weeks.Jan4InWeekOne | archive/archive.js:15-26 | January 4 is always in week 1 of its own year |
| Weeks.SameWeekSameInfo | archive/archive.js:18 | all days of a Monday-to-Sunday week get the same week info, and a Sunday goes with the Monday before it |
| Weeks.SameThursdaySameInfo | archive/archive.js:18 | a day in the seven from another day's Monday shifts to the same Thursday and gets the same week info |
| Weeks.PreviousWeekSameYear | archive/archive.js:15-26 | seven days before a day of week n > 1 is week n - 1 of the same year |
| Weeks.PreviousWeekYearBefore | archive/archive.js:15-26 | seven days before a day of week 1 is the last ISO week (52 or 53) of the previous year |
| Weeks.PreviousWeek | archive/archive.js:15-26 | seven days back is always the previous ISO week |
| Weeks.WeeksBetween | archive/archive.js:38 | the page's week distance `(year difference) * 52 + (week difference)`; ApproximationError relates it to the true number of weeks, and WeeksBetweenAntisymmetric gives its sign |
| Weeks.WeeksBetweenAntisymmetric | archive/archive.js:38 | swapping the two weeks negates the page's week distance |
| Weeks.ReportWeekOfDay | archive/archive.js:31-35 | a report's date, read back as its midnight, is in that day's week |
| Weeks.WeeksDiff | archive/archive.js:33-38 | the distance from a report's week to the week of `now`; WeeksDiffOfDays reduces it to the weeks of the two days |
| Weeks.IsEditable | archive/archive.js:29-42 | `isEditable`: the distance is 0 or 1; EditableToday, EditableSevenDaysAgo, EditableSameIsoYear and OldReportNotEditable state when that holds |
| Weeks.WeeksDiffOfDays | archive/archive.js:34-41 | the distance `isEditable` computes is the distance between the weeks of the two days, and it is editable exactly when that is 0 or 1 |
| Weeks.EditableToday | archive/archive.js:34-41 | a report dated today has distance 0 and is editable |
| Weeks.EditableSevenDaysAgo | archive/archive.js:34-41 | a report dated seven days ago has distance 0 or 1 and is editable |
| Weeks.LaterWeekSameYearNotEditable | archive/archive.js:38-41 | a report whose week comes later in the same ISO year is not editable |
| Weeks.StepBack | archive/archive.js:38 | seven days back adds one week to the page's distance, or none when it lands in week 53 of a long year |
| Weeks.WithinSevenDaysBack | archive/archive.js:38 | a day at most seven days back is at page distance 0 or 1 |
| Weeks.ThreeStepsBack | archive/archive.js:38 | twenty-one days back is at page distance 2 or more |
| Weeks.ThreeWeeksOrMoreBack | archive/archive.js:38 | any day 21 or more days back is at page distance 2 or more |
| Weeks.OldReportNotEditable | archive/archive.js:29-42 | a report dated 21 or more days before today is never editable, even next to a 53-week year |
| Weeks.ExactWeeksBetween | archive/archive.js:38 | the true week count: the Mondays of the two weeks lie seven days per week apart |
| Weeks.LongYears | archive/archive.js:38 | the number of 53-week years in a range is at most its length |
| Weeks.FirstThursdayGap | archive/archive.js:38 | first Thursdays lie 52 weeks a year apart plus one week per 53-week year between |
| Weeks.ApproximationError | archive/archive.js:38 | the page's distance is the true distance less one for every 53-week year between the two weeks |
| Weeks.EditableSameIsoYear | archive/archive.js:38-41 | within one ISO year a report is editable exactly when its week is truly this week or the one before |
| Weeks.IsoWeekMondayIsMonday | archive/archive.js:18 | an ISO week's Monday is its own Monday |
| Weeks.LongYearWeekOne | archive/archive.js:38 | from week 53 of a long year to week 1 of the next is truly one week, and the page counts 0 |
| Weeks.LongYearWeekTwo | archive/archive.js:38 | from week 53 of a long year to week 2 of the next is truly two weeks, and the page counts 1 |
| Weeks.NextWeekEditableAfterLongYear | archive/archive.js:29-42 | seen in week 53 of a long year, a report dated a week ahead (week 1) is editable |
| Weeks.TwoWeeksAgoEditableAfterLongYear | archive/archive.js:29-42 | seen in week 2 after a long year, a report dated two weeks back (week 53) is editable |
| Weeks.GetWeekLabel | archive/archive.js:45-63 | `getWeekLabel`: the label chosen by the same distance `isEditable` uses; LabelMatchesEditable states its classes and text |
| Weeks.WeekOfThursdayAsWritten | archive/archive.js:19-23 | the week as the page computes it: the same as WeekOfThursday outside the years 0 to 99, with the Thursday and its year always the same |
| Weeks.TwoDigitYearWeek | archive/archive.js:19-20 | in every year from 0 to 99 the first Thursday is in ISO week 1, and the page as written numbers it -51 or less |
| Weeks.LabelMatchesEditable | archive/archive.js:52-62 | `getWeekLabel` is current, last week, old or future exactly when the distance is 0, 1, > 1 or < 0; it is current or last week exactly when the report is editable; an old label's text reads back as the distance followed by " hafta önce" |
| Archive.Report.constructor | archive/archive.js:88-95 | a new report object holds the given value |
| Archive.Storage.constructor | archive/archive.js:67 | the store starts out holding the given entry |
| Archive.Snapshot | archive/archive.js:69 | the values of a list of report objects, one per object in order |
| Archive.FindReport | archive/archive.js:236 | `find` by id: the first report carrying the id, or none exactly when no report carries it |
| Archive.FindReportSameIds | archive/archive.js:276 | lists whose ids agree position by position find every id at the same place |
| Archive.EditGuard | archive/archive.js:276-282 | refused as not found exactly when no report has the id; goes ahead exactly when the first report with the id is editable |
| Archive.Edited | archive/archive.js:284-296 | the report with its title, content and tasks replaced by the trimmed inputs; EditOnlyTarget states what it keeps |
| Archive.EditReports | archive/archive.js:275-296 | a refusal of the guard is passed on unchanged; an accepted edit passed the guard and keeps the list's length |
| Archive.EditRefusedOnBlank | archive/archive.js:284-291 | past the guard, an edit is refused, as an empty field, exactly when one input is all whitespace |
| Archive.EditOnlyTarget | archive/archive.js:293-296 | an accepted edit sets the target's title, content and tasks to the trimmed inputs, keeps its id, date and author, and leaves every other report as it was |
| Archive.EditIdempotent | archive/archive.js:284-296 | saving the same inputs again changes nothing more |
| Archive.SampleReports | archive/archive.js:83-146 | five reports with ids 1 to 5, dated today and 7, 14, 21 and 30 days back |
| Archive.SamplesEditable | archive/archive.js:87-107 | the reports of today and of a week ago are editable at any instant of the seeding day |
| Archive.SamplesNotEditable | archive/archive.js:119-143 | the seed reports of three weeks and of a month ago are never editable, at any instant of the seeding day |
| Archive.SamplesInEarlierWeeks | archive/archive.js:109-143 | the other three seed reports are in an earlier ISO week than today |
| Archive.InsertByDate | archive/archive.js:161-163 | inserting into a newest-first list keeps it newest first, adds one report and puts it or the old head first |
| Archive.PrependNewest | archive/archive.js:161-163 | a report no older than the head of a newest-first list can go in front of it |
| Archive.InsertByDatePermutes | archive/archive.js:161-163 | inserting adds x and keeps every report that was there |
| Archive.SortNewestFirst | archive/archive.js:161-163 | the sorted copy has the list's length and is newest first |
| Archive.SortPermutes | archive/archive.js:161-163 | the sorted copy holds exactly the reports of the list |
| Archive.SortKeepsNewestFirst | archive/archive.js:161-163 | a list that is already newest first is shown in its own order |
| Archive.OfDate | archive/archive.js:161-163 | the reports of one date, a sublist by length, all of that date |
| Archive.OfDateCons | archive/archive.js:161-163 | the reports of one date in a list with a report in front: that report if it has the date, then the rest's |
| Archive.InsertByDateStable | archive/archive.js:161-163 | an inserted report goes in front of every report of its own date |
| Archive.SortStable | archive/archive.js:161-163 | the sort is stable: the reports of each date keep their list order |
| Archive.SamplesShownInOrder | archive/archive.js:83-146 | a freshly seeded page shows the samples in the order they were made |
| Archive.ReportCard | archive/archive.js:172-180 | a card shows its report, the report's ISO week and its editability, and its label is current or last week exactly when it is editable |
| Archive.Loaded | archive/archive.js:66-75 | what a page load makes of the store: the stored list, or the five sample reports when nothing is stored; LoadReports is proved against it |
| Archive.Cards | archive/archive.js:165-168 | one card per report, in list order |
| Archive.ArchiveManager.constructor | archive/archive.js:4-12 | after construction the list is what the store held, or the seed when it held nothing; the store holds the list, and the list's objects are distinct |
| Archive.ArchiveManager.Push | archive/archive.js:88 | push appends one fresh object holding the value and keeps the objects distinct |
| Archive.ArchiveManager.NewReports | archive/archive.js:69 | a fresh, distinct object per value, in order |
| Archive.ArchiveManager.GenerateSampleReports | archive/archive.js:83-146 | the five sample reports of the current day, as fresh distinct objects |
| Archive.ArchiveManager.SaveReports | archive/archive.js:78-80 | the store holds exactly the current list, and the list is unchanged |
| Archive.ArchiveManager.LoadReports | archive/archive.js:66-75 | the list is the stored list, or the seed when nothing is stored; either way the store then holds the list |
| Archive.ArchiveManager.ToggleEdit | archive/archive.js:235-241 | `toggleEdit` goes ahead, to open or to close the edit form, exactly when the first report with the id is editable; otherwise it is refused as not found or not editable |
| Archive.ArchiveManager.SaveReport | archive/archive.js:275-301 | refused with the list and the store unchanged, or done with the list equal to EditReports' result and the store holding it |
| Archive.ArchiveManager.Commit | archive/archive.js:293-299 | the target report gets the three fields, the others keep theirs, and the store holds the new list |
| Archive.ArchiveManager.SetTexts | archive/archive.js:293-296 | the target report object gets the three fields and every other object keeps its value |
| Archive.ArchiveManager.RenderReports | archive/archive.js:156-169 | one card per report of the sorted copy, in that order; the method changes nothing, so the list keeps its order |
| Archive.ArchiveManager.CardsInOrder | archive/archive.js:165-168 | `forEach` appends one card per report, in order |

## Findings

| source | as written | input that shows it | evidently intended | confidence | as-written member | corrected member |
|---|---|---|---|---|---|---|
| archive/archive.js:19 | `new Date(d.getFullYear(), 0, 1)` reads a year y from 0 to 99 as 1900 + y, so the day of the year is counted from the wrong January 1 | the Thursday 0050-01-06, in ISO week 1 of year 50: the page numbers it week -99136 | January 1 of the Thursday's own year, giving week 1 | not executed | Weeks.WeekOfThursdayAsWritten | Weeks.WeekOfThursday |

Weeks.TwoDigitYearWeek proves the discrepancy for every year from 0 to 99.
Its first Thursday is in ISO week 1, and the page as written numbers it
-51 or less.

## Left out

- The page's markup is not modelled. This covers the card HTML, the show/hide and button swap of `toggleEdit`, the `DOMContentLoaded` wiring, and `showAlert` with its five-second `setTimeout`. A card is modelled as the data it shows; an alert is modelled as the refusal that raised it.
- `formatDate` is not modelled, because it is locale formatting (`toLocaleDateString`).
- Time zones and daylight saving are not modelled. Days are whole days, and an instant is read in one zone with no daylight saving.
- Sample dates are written with `toISOString`, which is UTC, while the week arithmetic reads local time. The model uses the local day for both.
- `localStorage`, `JSON.stringify` and `JSON.parse` are not modelled: the store holds the list of values. The values are stored, not text.
- An empty stored string, which `if (stored)` treats as absent, is not modelled.
- Unparseable stored entries, on which `JSON.parse` throws, are not modelled.
- A missing id crashes the page, because `find` returns `undefined` and its `date` is then read. The model refuses it as `NotFound` instead, and changes nothing.
- Weeks.WeekOfThursday: numbers the weeks of the years 0 to 99 by ISO 8601, where the page counts their days from January 1 of 1900 + y (see Findings). Weeks.WeekOfThursdayAsWritten is the page's version; the rest of the model uses the ISO week.
- Weeks.WeekOfDay: built on Weeks.WeekOfThursday, so it differs from the page in the same years 0 to 99.
- Weeks.GetWeekInfo: built on Weeks.WeekOfThursday, so it differs from the page in the same years 0 to 99.
- Archive.ReportCard: one instant `now` stands for the separate clock reads of `isEditable` (line 30) and `getWeekLabel` (line 46), which `createReportCard` calls one after the other (lines 174-175). A card's editability and label are therefore computed at the same instant. In the same way one instant stands for the seeding clock read (line 84) and the first render, and for the guard and the render of `saveReport`.
- The seed comment that the report of fourteen days ago is not editable is not proved, because the 52-week distance makes it false next to 53-week years (see Weeks.TwoWeeksAgoEditableAfterLongYear).
- Archive.ArchiveManager.RenderReports: the cards are returned, not appended to the page, and the sort's comparator is compared on day numbers, not on `Date` differences.
- Numbers are unbounded integers. The page's millisecond arithmetic is exact far beyond any date it shows.
