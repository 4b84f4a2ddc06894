/** The week window of the archive page: ISO 8601 week numbering of a date,
    the page's week distance between two dates, the edit window built on it,
    and the week label shown on each report card.

    ISO 8601 (section 4.1.4 of ISO 8601:2004) numbers the Monday-to-Sunday
    weeks of a week-numbering year; week 1 is the week holding the year's
    first Thursday. The archive page finds a date's week by moving to the
    Thursday of its week and counting the weeks of that Thursday's calendar
    year. */
module Weeks {
  import opened Calendar
  import Text

  /** The `{year, week, date}` object `getWeekInfo` returns; `thursday` is the
      shifted date it carries as `date`. */
  datatype WeekInfo = WeekInfo(year: int, week: int, thursday: int)

  /** `Math.ceil(n / 7)`. */
  function CeilDiv7(n: int): (q: int)
    ensures 7 * (q - 1) < n <= 7 * q
  {
    (n + 6) / 7
  }

  /** The week a Thursday falls in: its calendar year, and the ceiling of
      its day of the year over 7. */
  function WeekOfThursday(t: int): (w: WeekInfo)
    ensures 1 <= w.week <= 53
    ensures w.thursday == t && w.year == Year(t)
  {
    var y := Year(t);
    var n := t - YearStart(y) + 1;
    assert n == DayOfYear(t);
    WeekInfo(y, CeilDiv7(n), t)
  }

  /** The week of a day: shift to the Thursday of its Monday-to-Sunday week
      (Sunday counted as weekday 7) and number that Thursday's week. */
  function WeekOfDay(d: int): (w: WeekInfo)
    ensures 1 <= w.week <= 53
    ensures w.thursday == MondayOf(d) + 3 && IsoWeekday(w.thursday) == 4
    ensures w.year == Year(w.thursday)
  {
    WeekOfThursday(d + 4 - IsoWeekday(d))
  }

  /** `getWeekInfo(date)` for an instant: its time of day is stripped first. */
  function GetWeekInfo(t: int): (w: WeekInfo)
    ensures 1 <= w.week <= 53
    ensures w.thursday == MondayOf(DayOf(t)) + 3
    ensures w.year == Year(w.thursday)
  {
    WeekOfDay(DayOf(t))
  }

  /** The first Thursday on or after day s. */
  function ThursdayFrom(s: int): (t: int)
    ensures s <= t < s + 7
    ensures IsoWeekday(t) == 4
  {
    s + (3 - s % 7) % 7
  }

  /** The first Thursday of calendar year y. */
  function FirstThursday(y: int): (t: int)
    ensures YearStart(y) <= t < YearStart(y) + 7
    ensures IsoWeekday(t) == 4
  {
    ThursdayFrom(YearStart(y))
  }

  /** Two Thursdays lie a whole number of weeks apart. */
  lemma ThursdaysApart(t: int, u: int)
    requires IsoWeekday(t) == 4 && IsoWeekday(u) == 4
    ensures t - u == 7 * ((t - u) / 7)
  {
    assert t == 7 * (t / 7) + 3 && u == 7 * (u / 7) + 3;
  }

  /** The Monday that starts ISO week w of week-numbering year y. */
  function IsoWeekMonday(y: int, w: int): int {
    FirstThursday(y) - 3 + 7 * (w - 1)
  }

  /** The number of ISO weeks in year y: the gap between consecutive first
      Thursdays, in weeks. */
  function WeeksInYear(y: int): (n: int)
    ensures n == 52 || n == 53
    ensures FirstThursday(y + 1) == FirstThursday(y) + 7 * n
  {
    NextYearStart(y);
    ThursdaysApart(FirstThursday(y + 1), FirstThursday(y));
    (FirstThursday(y + 1) - FirstThursday(y)) / 7
  }

  /** A Thursday on or after January 1 of year y lies a whole number of weeks
      after its first Thursday. */
  lemma ThursdayAfterFirst(t: int, y: int)
    requires IsoWeekday(t) == 4 && YearStart(y) <= t
    ensures FirstThursday(y) <= t && t - FirstThursday(y) == 7 * ((t - FirstThursday(y)) / 7)
  {
    ThursdaysApart(t, FirstThursday(y));
  }

  /** The week the page computes is the ISO 8601 week: the date's Monday is
      the Monday of that week of that week-numbering year, and the week
      exists in that year. */
  lemma WeekOfDayIsIso(d: int)
    ensures 1 <= WeekOfDay(d).week <= WeeksInYear(WeekOfDay(d).year)
    ensures MondayOf(d) == IsoWeekMonday(WeekOfDay(d).year, WeekOfDay(d).week)
  {
    var w := WeekOfDay(d);
    var t, y := w.thursday, w.year;
    ThursdayAfterFirst(t, y);
    var f := FirstThursday(y);
    var k := (t - f) / 7;
    assert t == f + 7 * k;
    assert w.week == CeilDiv7(t - YearStart(y) + 1);
    assert w.week == k + 1;
    NextYearStart(y);
    assert t < FirstThursday(y + 1);
  }

  /** The Thursday of ISO week w of year y is numbered (y, w). */
  lemma ThursdayWeek(y: int, w: int)
    requires 1 <= w <= WeeksInYear(y)
    ensures WeekOfThursday(FirstThursday(y) + 7 * (w - 1)) == WeekInfo(y, w, FirstThursday(y) + 7 * (w - 1))
  {
    var t := FirstThursday(y) + 7 * (w - 1);
    NextYearStart(y);
    assert YearStart(y) <= t < YearStart(y + 1);
    YearUnique(t, y);
    assert CeilDiv7(t - YearStart(y) + 1) == w;
  }

  /** The seven days from the Monday of an ISO week all have that Monday. */
  lemma IsoWeekMondayOf(y: int, w: int, e: int)
    requires IsoWeekMonday(y, w) <= e < IsoWeekMonday(y, w) + 7
    ensures MondayOf(e) == IsoWeekMonday(y, w)
  {
    var f := FirstThursday(y);
    var m := IsoWeekMonday(y, w);
    assert f == 7 * (f / 7) + 3;
    assert m == 7 * (f / 7 + w - 1);
    assert IsoWeekday(e) == e - m + 1;
  }

  /** Every day of ISO week w of year y is numbered (y, w): the inverse of
      WeekOfDayIsIso. */
  lemma IsoWeekRoundTrip(y: int, w: int, e: int)
    requires 1 <= w <= WeeksInYear(y)
    requires IsoWeekMonday(y, w) <= e < IsoWeekMonday(y, w) + 7
    ensures WeekOfDay(e) == WeekInfo(y, w, IsoWeekMonday(y, w) + 3)
  {
    IsoWeekMondayOf(y, w, e);
    ThursdayWeek(y, w);
  }

  /** The Monday of ISO week w of year y is numbered (y, w). */
  lemma IsoWeekMondayWeek(y: int, w: int)
    requires 1 <= w <= WeeksInYear(y)
    ensures WeekOfDay(IsoWeekMonday(y, w)) == WeekInfo(y, w, IsoWeekMonday(y, w) + 3)
  {
    IsoWeekRoundTrip(y, w, IsoWeekMonday(y, w));
  }

  /** January 4 always lies in week 1 of its own year. */
  lemma Jan4InWeekOne(y: int)
    ensures WeekOfDay(YearStart(y) + 3) == WeekInfo(y, 1, FirstThursday(y))
  {
    IsoWeekRoundTrip(y, 1, YearStart(y) + 3);
  }

  /** All seven days of a Monday-to-Sunday week get the same week info; a
      Sunday goes with the Monday six days before it. */
  lemma SameWeekSameInfo(d: int, k: int)
    requires 0 <= k < 7
    ensures WeekOfDay(MondayOf(d) + k) == WeekOfDay(d)
    ensures IsoWeekday(d) == 7 ==> WeekOfDay(d - 6) == WeekOfDay(d)
  {
    SameThursdaySameInfo(d, MondayOf(d) + k);
    if IsoWeekday(d) == 7 {
      SameThursdaySameInfo(d, d - 6);
    }
  }

  /** A day of the seven from a day's Monday shifts to the same Thursday,
      so it gets the same week info. */
  lemma SameThursdaySameInfo(d: int, e: int)
    requires MondayOf(d) <= e < MondayOf(d) + 7
    ensures WeekOfDay(e) == WeekOfDay(d)
  {
    MondayOfSameWeek(d, e);
    var t := d + 4 - IsoWeekday(d);
    assert e + 4 - IsoWeekday(e) == t;
  }

  /** Seven days before a day of week n > 1 is week n - 1 of the same year. */
  lemma PreviousWeekSameYear(d: int)
    requires WeekOfDay(d).week > 1
    ensures WeekOfDay(d - 7).year == WeekOfDay(d).year
    ensures WeekOfDay(d - 7).week == WeekOfDay(d).week - 1
  {
    var y, n := WeekOfDay(d).year, WeekOfDay(d).week;
    WeekOfDayIsIso(d);
    IsoWeekRoundTrip(y, n - 1, d - 7);
  }

  /** Seven days before a day of week 1 is the last week of the year before. */
  lemma PreviousWeekYearBefore(d: int)
    requires WeekOfDay(d).week == 1
    ensures WeekOfDay(d - 7).year == WeekOfDay(d).year - 1
    ensures WeekOfDay(d - 7).week == WeeksInYear(WeekOfDay(d).year - 1)
  {
    var y := WeekOfDay(d).year;
    var last := WeeksInYear(y - 1);
    WeekOfDayIsIso(d);
    IsoWeekRoundTrip(y - 1, last, d - 7);
  }

  /** The day seven days earlier is in the previous ISO week: the previous
      week number of the same year, or the last week of the year before. */
  lemma PreviousWeek(d: int)
    ensures var w, p := WeekOfDay(d), WeekOfDay(d - 7);
      if w.week > 1 then p.year == w.year && p.week == w.week - 1
      else p.year == w.year - 1 && p.week == WeeksInYear(w.year - 1)
  {
    if WeekOfDay(d).week > 1 {
      PreviousWeekSameYear(d);
    } else {
      PreviousWeekYearBefore(d);
    }
  }

  /** The week distance of the page: `(later.year - earlier.year) * 52 +
      (later.week - earlier.week)`, which takes every year to have 52 weeks. */
  function WeeksBetween(later: WeekInfo, earlier: WeekInfo): int {
    (later.year - earlier.year) * 52 + (later.week - earlier.week)
  }

  /** Swapping the two weeks negates the distance. */
  lemma WeeksBetweenAntisymmetric(a: WeekInfo, b: WeekInfo)
    ensures WeeksBetween(a, b) == -WeeksBetween(b, a)
  {
  }

  /** A report's date is read back as its midnight, which is in that day's week. */
  lemma ReportWeekOfDay(reportDate: int)
    ensures GetWeekInfo(MidnightOf(reportDate)) == WeekOfDay(reportDate)
  {
    DayOfTimeOfDay(reportDate, 0);
  }

  /** The week distance from a report dated `reportDate` (a day, read back as
      its midnight) to the instant `now`. */
  function WeeksDiff(reportDate: int, now: int): int {
    WeeksBetween(GetWeekInfo(now), GetWeekInfo(MidnightOf(reportDate)))
  }

  /** `isEditable`: the report's week is the current week or the one before,
      by the page's week distance. */
  predicate IsEditable(reportDate: int, now: int) {
    var weeksDiff := WeeksDiff(reportDate, now);
    weeksDiff >= 0 && weeksDiff <= 1
  }

  /** The week distance the page computes for a report dated `dated`, seen
      at instant `now`, is the distance between the weeks of the two days,
      and it alone decides editability. */
  lemma WeeksDiffOfDays(dated: int, now: int, n: int)
    requires WeeksBetween(WeekOfDay(DayOf(now)), WeekOfDay(dated)) == n
    ensures WeeksDiff(dated, now) == n
    ensures IsEditable(dated, now) <==> 0 <= n <= 1
  {
    ReportWeekOfDay(dated);
  }

  /** A report dated today is editable. */
  lemma EditableToday(now: int)
    ensures WeeksDiff(DayOf(now), now) == 0
    ensures IsEditable(DayOf(now), now)
  {
    ReportWeekOfDay(DayOf(now));
  }

  /** A report dated seven days ago is editable: its distance is 1, or 0 when
      the previous year has 53 ISO weeks. */
  lemma EditableSevenDaysAgo(now: int)
    ensures 0 <= WeeksDiff(DayOf(now) - 7, now) <= 1
    ensures IsEditable(DayOf(now) - 7, now)
  {
    var n := DayOf(now);
    if WeekOfDay(n).week > 1 {
      PreviousWeekSameYear(n);
      WeeksDiffOfDays(n - 7, now, 1);
    } else {
      PreviousWeekYearBefore(n);
      WeeksDiffOfDays(n - 7, now, 53 - WeeksInYear(WeekOfDay(n).year - 1));
    }
  }

  /** Going back seven days adds one week to the page's distance, or none
      when it steps from week 1 back into week 53 of a 53-week year; within
      a year it steps to the week number before. */
  lemma StepBack(d: int)
    ensures var w, p := WeekOfDay(d), WeekOfDay(d - 7);
      && 0 <= WeeksBetween(w, p) <= 1
      && (w.week > 1 ==> WeeksBetween(w, p) == 1 && p.week == w.week - 1)
      && (WeeksBetween(w, p) == 0 ==> p.week == 53)
  {
    PreviousWeek(d);
  }

  /** A day at most seven days back is in the same week or the week before,
      by the page's distance. */
  lemma WithinSevenDaysBack(d: int, e: int)
    requires d - 7 <= e <= d
    ensures 0 <= WeeksBetween(WeekOfDay(d), WeekOfDay(e)) <= 1
  {
    if e >= MondayOf(d) {
      SameThursdaySameInfo(d, e);
    } else {
      assert IsoWeekday(d - 7) == IsoWeekday(d);
      SameThursdaySameInfo(d - 7, e);
      StepBack(d);
    }
  }

  /** Three steps of seven days back add at least two weeks to the page's
      distance: a step that adds none lands in week 53, and the next step
      back from there adds one. */
  lemma ThreeStepsBack(d: int)
    ensures WeeksBetween(WeekOfDay(d), WeekOfDay(d - 21)) >= 2
  {
    StepBack(d);
    StepBack(d - 7);
    StepBack(d - 14);
  }

  /** For a day 21 or more days before day d, the page's week distance is at
      least two. */
  lemma {:induction false} ThreeWeeksOrMoreBack(d: int, e: int)
    requires e <= d - 21
    ensures WeeksBetween(WeekOfDay(d), WeekOfDay(e)) >= 2
    decreases d - e
  {
    if e >= d - 27 {
      WithinSevenDaysBack(d, e + 21);
      ThreeStepsBack(e + 21);
    } else {
      ThreeWeeksOrMoreBack(d, e + 7);
      StepBack(e + 7);
    }
  }

  /** A report dated 21 or more days before today is never editable, even
      next to a 53-week ISO year. */
  lemma OldReportNotEditable(reportDate: int, now: int)
    requires reportDate <= DayOf(now) - 21
    ensures WeeksDiff(reportDate, now) >= 2
    ensures !IsEditable(reportDate, now)
  {
    ThreeWeeksOrMoreBack(DayOf(now), reportDate);
    WeeksDiffOfDays(reportDate, now, WeeksBetween(WeekOfDay(DayOf(now)), WeekOfDay(reportDate)));
  }

  /** Within one ISO year, a report whose week comes after the current
      week is never editable. */
  lemma LaterWeekSameYearNotEditable(reportDate: int, now: int)
    requires GetWeekInfo(MidnightOf(reportDate)).year == GetWeekInfo(now).year
    requires GetWeekInfo(MidnightOf(reportDate)).week > GetWeekInfo(now).week
    ensures !IsEditable(reportDate, now)
  {
  }

  /** The true number of weeks from the week of day `earlier` to the week of
      day `later`. */
  function ExactWeeksBetween(later: int, earlier: int): (n: int)
    ensures MondayOf(later) - MondayOf(earlier) == 7 * n
  {
    var a, b := MondayOf(later), MondayOf(earlier);
    assert a % 7 == 0 && b % 7 == 0;
    assert a == 7 * (a / 7) && b == 7 * (b / 7);
    (a - b) / 7
  }

  /** How many of the years lo .. hi - 1 have 53 ISO weeks. */
  function LongYears(lo: int, hi: int): (n: int)
    requires lo <= hi
    ensures 0 <= n <= hi - lo
    decreases hi - lo
  {
    if lo == hi then 0 else LongYears(lo, hi - 1) + (if WeeksInYear(hi - 1) == 53 then 1 else 0)
  }

  /** The weeks the 52-week approximation loses from year `from` to year
      `to`, negative when `to` comes first. */
  function ExtraWeeks(from: int, to: int): int {
    if from <= to then LongYears(from, to) else -LongYears(to, from)
  }

  /** The first Thursdays of years lo and hi lie 52 weeks a year apart, plus
      one week for every 53-week year in between. */
  lemma {:induction false} FirstThursdayGap(lo: int, hi: int)
    requires lo <= hi
    ensures FirstThursday(hi) - FirstThursday(lo) == 7 * (52 * (hi - lo) + LongYears(lo, hi))
    decreases hi - lo
  {
    if lo < hi {
      FirstThursdayGap(lo, hi - 1);
      var n := WeeksInYear(hi - 1);
    }
  }

  /** The page's week distance is the true distance less one week for every
      53-week ISO year it spans, so the two agree exactly when no such year
      lies between the two weeks. */
  lemma ApproximationError(reportDay: int, nowDay: int)
    ensures WeeksBetween(WeekOfDay(nowDay), WeekOfDay(reportDay))
      == ExactWeeksBetween(nowDay, reportDay) - ExtraWeeks(WeekOfDay(reportDay).year, WeekOfDay(nowDay).year)
  {
    var a, b := WeekOfDay(nowDay), WeekOfDay(reportDay);
    WeekOfDayIsIso(nowDay);
    WeekOfDayIsIso(reportDay);
    if b.year <= a.year {
      FirstThursdayGap(b.year, a.year);
    } else {
      FirstThursdayGap(a.year, b.year);
    }
  }

  /** Inside one ISO year the edit window is exact: editable means this week
      or the week before. */
  lemma EditableSameIsoYear(reportDate: int, now: int)
    requires WeekOfDay(reportDate).year == WeekOfDay(DayOf(now)).year
    ensures IsEditable(reportDate, now) <==> 0 <= ExactWeeksBetween(DayOf(now), reportDate) <= 1
  {
    ReportWeekOfDay(reportDate);
    ApproximationError(reportDate, DayOf(now));
    var y := WeekOfDay(reportDate).year;
    assert ExtraWeeks(y, y) == 0;
  }

  /** The Monday of an ISO week is its own Monday. */
  lemma IsoWeekMondayIsMonday(y: int, w: int)
    ensures MondayOf(IsoWeekMonday(y, w)) == IsoWeekMonday(y, w)
  {
    IsoWeekMondayOf(y, w, IsoWeekMonday(y, w));
  }

  /** From week 53 of a 53-week year y - 1 to week 1 of year y is truly one
      week back, and the page counts it as no week at all. */
  lemma LongYearWeekOne(y: int)
    requires WeeksInYear(y - 1) == 53
    ensures WeeksBetween(WeekOfDay(IsoWeekMonday(y - 1, 53)), WeekOfDay(IsoWeekMonday(y, 1))) == 0
    ensures ExactWeeksBetween(IsoWeekMonday(y - 1, 53), IsoWeekMonday(y, 1)) == -1
  {
    var seen, dated := IsoWeekMonday(y - 1, 53), IsoWeekMonday(y, 1);
    assert seen + 7 == dated;
    IsoWeekMondayWeek(y - 1, 53);
    IsoWeekMondayWeek(y, 1);
    IsoWeekMondayIsMonday(y - 1, 53);
    IsoWeekMondayIsMonday(y, 1);
  }

  /** From week 2 of year y back to week 53 of a 53-week year y - 1 is truly
      two weeks, and the page counts it as one. */
  lemma LongYearWeekTwo(y: int)
    requires WeeksInYear(y - 1) == 53
    ensures WeeksBetween(WeekOfDay(IsoWeekMonday(y, 2)), WeekOfDay(IsoWeekMonday(y - 1, 53))) == 1
    ensures ExactWeeksBetween(IsoWeekMonday(y, 2), IsoWeekMonday(y - 1, 53)) == 2
  {
    IsoWeekMondayWeek(y - 1, 53);
    IsoWeekMondayWeek(y, 2);
    IsoWeekMondayIsMonday(y - 1, 53);
    IsoWeekMondayIsMonday(y, 2);
  }

  /** After a 53-week year, a report dated in week 1 of the new year counts
      as the current week, and is editable, when seen a week earlier in week
      53. */
  lemma NextWeekEditableAfterLongYear(y: int, now: int)
    requires WeeksInYear(y - 1) == 53 && DayOf(now) == IsoWeekMonday(y - 1, 53)
    ensures ExactWeeksBetween(DayOf(now), IsoWeekMonday(y, 1)) == -1
    ensures WeeksDiff(IsoWeekMonday(y, 1), now) == 0
    ensures IsEditable(IsoWeekMonday(y, 1), now)
  {
    LongYearWeekOne(y);
    WeeksDiffOfDays(IsoWeekMonday(y, 1), now, 0);
  }

  /** After a 53-week year, a report dated in week 53 is still editable two
      weeks later, in week 2 of the new year. */
  lemma TwoWeeksAgoEditableAfterLongYear(y: int, now: int)
    requires WeeksInYear(y - 1) == 53 && DayOf(now) == IsoWeekMonday(y, 2)
    ensures ExactWeeksBetween(DayOf(now), IsoWeekMonday(y - 1, 53)) == 2
    ensures WeeksDiff(IsoWeekMonday(y - 1, 53), now) == 1
    ensures IsEditable(IsoWeekMonday(y - 1, 53), now)
  {
    LongYearWeekTwo(y);
    WeeksDiffOfDays(IsoWeekMonday(y - 1, 53), now, 1);
  }

  /** `getWeekInfo` as written: `new Date(y, 0, 1)` reads a year y from 0
      to 99 as 1900 + y, so in those years the day of the year is counted
      from January 1 of 1900 + y instead. */
  function WeekOfThursdayAsWritten(t: int): (w: WeekInfo)
    ensures w.thursday == t && w.year == Year(t)
    ensures !(0 <= Year(t) <= 99) ==> w == WeekOfThursday(t)
  {
    var y := Year(t);
    var start := YearStart(if 0 <= y <= 99 then 1900 + y else y);
    WeekInfo(y, CeilDiv7(t - start + 1), t)
  }

  /** In every year from 0 to 99 the first Thursday, in ISO week 1, gets a
      week number of -51 or less from the page as written. */
  lemma TwoDigitYearWeek(y: int)
    requires 0 <= y <= 99
    ensures WeekOfThursday(FirstThursday(y)).week == 1
    ensures WeekOfThursdayAsWritten(FirstThursday(y)).week <= -51
  {
    var t := FirstThursday(y);
    ThursdayWeek(y, 1);
    assert Year(t) == y;
    var later := 1900 + y;
    YearStartMonotone(y + 1, later);
    NextYearStart(y);
    var n := t - YearStart(later) + 1;
    assert n <= -357;
    assert WeekOfThursdayAsWritten(t) == WeekInfo(y, CeilDiv7(n), t);
  }

  /** The four label classes of a report card. */
  datatype LabelClass = Current | LastWeek | Old | Future

  /** The `{text, class}` object `getWeekLabel` returns. */
  datatype WeekLabel = WeekLabel(text: string, cls: LabelClass)

  /** `getWeekLabel`: classifies the same week distance `isEditable` uses. */
  function GetWeekLabel(reportDate: int, now: int): WeekLabel {
    var weeksDiff := WeeksDiff(reportDate, now);
    if weeksDiff == 0 then WeekLabel("Bu Hafta", Current)
    else if weeksDiff == 1 then WeekLabel("Geçen Hafta", LastWeek)
    else if weeksDiff > 1 then WeekLabel(Text.NatToDecimal(weeksDiff) + " hafta önce", Old)
    else WeekLabel("Gelecek", Future)
  }

  /** The label class follows the sign and size of the week distance, its
      text for an old report reads back as that distance, and it is current
      or last week exactly when the report is editable. */
  lemma LabelMatchesEditable(reportDate: int, now: int)
    ensures var l, n := GetWeekLabel(reportDate, now), WeeksDiff(reportDate, now);
      && (l.cls == Current <==> n == 0)
      && (l.cls == LastWeek <==> n == 1)
      && (l.cls == Old <==> n > 1)
      && (l.cls == Future <==> n < 0)
      && (l.cls in {Current, LastWeek} <==> IsEditable(reportDate, now))
      && (l.cls == Old ==> exists k :: (0 < k <= |l.text| && Text.IsDecimal(l.text[..k])
            && Text.DecimalValue(l.text[..k]) == n && l.text[k..] == " hafta önce"))
  {
    var n := WeeksDiff(reportDate, now);
    if n > 1 {
      var s := Text.NatToDecimal(n);
      Text.DecimalRoundTrip(n);
      var l := GetWeekLabel(reportDate, now);
      assert l.text[..|s|] == s;
      assert l.text[|s|..] == " hafta önce";
    }
  }
}
