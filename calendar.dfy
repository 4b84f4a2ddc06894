/** Whole-day arithmetic in the proleptic Gregorian calendar.

    A date is a day number: day 0 is 2001-01-01, a Monday that starts a
    400-year Gregorian cycle, and day numbers run on (and backwards) without
    gaps. An instant is a count of milliseconds since 1970-01-01 00:00, as a
    `Date` holds it, read in a time zone without daylight saving. This is the part of
    the host `Date` object that the archive page's week arithmetic relies on:
    stripping the time of day, the calendar year, the day of the year and the
    day of the week. */
module Calendar {

  /** Milliseconds in one day. */
  const MsPerDay: int := 86_400_000

  /** The day number of 1970-01-01, where instants count from. */
  const EpochDay: int := -11323

  /** Midnight at the start of a day, as `new Date("YYYY-MM-DD")` gives it. */
  function MidnightOf(d: int): int {
    (d - EpochDay) * MsPerDay
  }

  /** The day an instant falls in: the time of day is stripped, as
      `setHours(0, 0, 0, 0)` does. */
  function DayOf(t: int): (d: int)
    ensures MidnightOf(d) <= t < MidnightOf(d + 1)
  {
    EpochDay + t / MsPerDay
  }

  /** Any instant of a day is stripped back to that same day. */
  lemma DayOfTimeOfDay(d: int, ms: int)
    requires 0 <= ms < MsPerDay
    ensures DayOf(MidnightOf(d) + ms) == d
  {
  }

  predicate IsLeapYear(y: int) {
    y % 4 == 0 && (y % 100 != 0 || y % 400 == 0)
  }

  function YearLength(y: int): (n: int)
    ensures n == 365 || n == 366
  {
    if IsLeapYear(y) then 366 else 365
  }

  /** The day number of January 1 of year `y`: year 2001 starts on day 0 and
      each year starts where the one before it ends. */
  function YearStart(y: int): int
    decreases if y >= 2001 then y - 2001 else 2001 - y
  {
    if y == 2001 then 0
    else if y > 2001 then YearStart(y - 1) + YearLength(y - 1)
    else YearStart(y + 1) - YearLength(y)
  }

  /** Consecutive years abut: year y + 1 starts where year y ends. */
  lemma NextYearStart(y: int)
    ensures YearStart(y + 1) == YearStart(y) + YearLength(y)
  {
  }

  /** Stepping the floor quotient by 4, 100 or 400 from n to n + 1. */
  lemma QuotientStep(n: int)
    ensures (n + 1) / 4 - n / 4 == (if (n + 1) % 4 == 0 then 1 else 0)
    ensures (n + 1) / 100 - n / 100 == (if (n + 1) % 100 == 0 then 1 else 0)
    ensures (n + 1) / 400 - n / 400 == (if (n + 1) % 400 == 0 then 1 else 0)
  {
  }

  /** The days from 0001-01-01 to January 1 of year y in closed form: 365 a
      year plus the Gregorian leap days. */
  function LeapCountedDays(y: int): int {
    365 * (y - 1) + (y - 1) / 4 - (y - 1) / 100 + (y - 1) / 400
  }

  /** The closed form grows by one year length from year y to year y + 1. */
  lemma LeapCountedStep(y: int)
    ensures LeapCountedDays(y + 1) == LeapCountedDays(y) + YearLength(y)
  {
    QuotientStep(y - 1);
    var a, b, c := y / 4 - (y - 1) / 4, y / 100 - (y - 1) / 100, y / 400 - (y - 1) / 400;
    assert LeapCountedDays(y + 1) - LeapCountedDays(y) == 365 + a - b + c;
    assert IsLeapYear(y) <==> a - b + c == 1;
  }

  /** The recursive and the closed form of the start of a year agree. */
  lemma {:induction false} YearStartClosedForm(y: int)
    ensures YearStart(y) == LeapCountedDays(y) - LeapCountedDays(2001)
    decreases if y >= 2001 then y - 2001 else 2001 - y
  {
    if y > 2001 {
      YearStartClosedForm(y - 1);
      LeapCountedStep(y - 1);
    } else if y < 2001 {
      YearStartClosedForm(y + 1);
      LeapCountedStep(y);
    }
  }

  lemma {:induction false} YearStartMonotone(a: int, b: int)
    requires a <= b
    ensures YearStart(a) + 365 * (b - a) <= YearStart(b)
    decreases b - a
  {
    if a < b {
      YearStartMonotone(a, b - 1);
      NextYearStart(b - 1);
    }
  }

  /** The year of day d, searching upwards from a year that starts on or before d. */
  function YearUp(d: int, y: int): (r: int)
    requires YearStart(y) <= d
    ensures y <= r
    ensures YearStart(r) <= d < YearStart(r + 1)
    decreases d - YearStart(y)
  {
    NextYearStart(y);
    if d < YearStart(y + 1) then y else YearUp(d, y + 1)
  }

  /** The year of day d, searching downwards from a year that ends after d. */
  function YearDown(d: int, y: int): (r: int)
    requires d < YearStart(y + 1)
    ensures r <= y
    ensures YearStart(r) <= d < YearStart(r + 1)
    decreases YearStart(y + 1) - d
  {
    NextYearStart(y);
    if YearStart(y) <= d then y else YearDown(d, y - 1)
  }

  /** The calendar year of day d, as `getFullYear` gives it. */
  function Year(d: int): (y: int)
    ensures YearStart(y) <= d < YearStart(y + 1)
  {
    if 0 <= d then YearUp(d, 2001) else YearDown(d, 2000)
  }

  /** A day belongs to exactly one year. */
  lemma YearUnique(d: int, y: int)
    requires YearStart(y) <= d < YearStart(y + 1)
    ensures Year(d) == y
  {
    var r := Year(d);
    if r < y {
      YearStartMonotone(r + 1, y);
    } else if r > y {
      YearStartMonotone(y + 1, r);
    }
  }

  /** The 1-based position of day d within its calendar year. */
  function DayOfYear(d: int): (n: int)
    ensures 1 <= n <= YearLength(Year(d))
    ensures d == YearStart(Year(d)) + n - 1
  {
    NextYearStart(Year(d));
    d - YearStart(Year(d)) + 1
  }

  /** Two days less than a year apart lie in the same year or in
      consecutive years, the later day never in the earlier year. */
  lemma YearsApart(a: int, b: int)
    requires a <= b < a + 365
    ensures 0 <= Year(b) - Year(a) <= 1
  {
    var ya, yb := Year(a), Year(b);
    if yb < ya {
      YearStartMonotone(yb + 1, ya);
    } else if yb > ya + 1 {
      YearStartMonotone(ya + 1, yb);
    }
  }

  /** Instants count from the start of 1970. */
  lemma EpochIsYear1970()
    ensures YearStart(1970) == EpochDay
  {
    YearStartClosedForm(1970);
  }

  /** The day of the week as `getDay` gives it: 0 is Sunday, 1 Monday, ..., 6 Saturday. */
  function JsDay(d: int): (w: int)
    ensures 0 <= w < 7
  {
    (d + 1) % 7
  }

  /** The weekday anchors of the day numbering: 1970-01-01, where instants
      count from, was a Thursday, and day 0 (2001-01-01) a Monday. */
  lemma EpochWeekdays()
    ensures JsDay(EpochDay) == 4 && JsDay(0) == 1
  {
  }

  /** The ISO 8601 day of the week: Monday is 1, ..., Sunday is 7. */
  function IsoWeekday(d: int): (w: int)
    ensures 1 <= w <= 7
  {
    d % 7 + 1
  }

  /** `getDay() || 7`: the host's day of the week with Sunday moved from 0
      to 7 is the ISO day of the week. */
  lemma GetDayOrSeven(d: int)
    ensures (if JsDay(d) == 0 then 7 else JsDay(d)) == IsoWeekday(d)
    ensures JsDay(d) == 0 <==> IsoWeekday(d) == 7
  {
  }

  /** The Monday that starts the Monday-to-Sunday week containing day d. */
  function MondayOf(d: int): (m: int)
    ensures m <= d < m + 7
    ensures IsoWeekday(m) == 1
  {
    d - IsoWeekday(d) + 1
  }

  /** Two days share a Monday exactly when they lie in the same Monday-to-Sunday week. */
  lemma MondayOfSameWeek(d: int, e: int)
    ensures MondayOf(d) == MondayOf(e) <==> (MondayOf(d) <= e < MondayOf(d) + 7)
  {
    var m := MondayOf(d);
    if m <= e < m + 7 {
      assert (e - m) % 7 == e - m;
      assert e % 7 == (m % 7 + (e - m)) % 7;
    }
  }
}
