/**
 * The proleptic Gregorian calendar of Python's `datetime` module: the dates
 * `datetime.date(y, m, d)` accepts, day ordinals as `date.toordinal()` counts
 * them, and whole-hour UTC instants with the `+ timedelta(hours=3)` step.
 */
module Calendar {
  import opened Wrappers

  /** `datetime.MINYEAR` and `datetime.MAXYEAR`. */
  const MinYear: int := 1
  const MaxYear: int := 9999

  predicate IsLeapYear(y: int)
  {
    y % 4 == 0 && (y % 100 != 0 || y % 400 == 0)
  }

  function YearLength(y: int): int
  {
    if IsLeapYear(y) then 366 else 365
  }

  function DaysInMonth(y: int, m: int): (n: int)
    requires 1 <= m <= 12
    ensures 28 <= n <= 31
  {
    if m == 2 then (if IsLeapYear(y) then 29 else 28)
    else if m == 4 || m == 6 || m == 9 || m == 11 then 30
    else 31
  }

  datatype Date = Date(year: int, month: int, day: int)

  /** The dates `datetime.date` accepts without raising `ValueError`. */
  predicate ValidDate(d: Date)
  {
    MinYear <= d.year <= MaxYear && 1 <= d.month <= 12 && 1 <= d.day <= DaysInMonth(d.year, d.month)
  }

  /**
   * `datetime.date(y, m, d)`, with `None` standing for the error it raises.
   * For arguments that fit a C `int` that error is `ValueError`; beyond that
   * range Python raises `OverflowError` instead, which `None` does not tell apart.
   */
  function MakeDate(y: int, m: int, d: int): (r: Option<Date>)
    ensures r.Some? ==> ValidDate(r.value) && r.value == Date(y, m, d)
    ensures r.None? ==> !ValidDate(Date(y, m, d))
  {
    if ValidDate(Date(y, m, d)) then Some(Date(y, m, d)) else None
  }

  /** Days in the years before `y`, counting from year 1. */
  function DaysBeforeYear(y: int): nat
    decreases y
  {
    if y <= MinYear then 0 else DaysBeforeYear(y - 1) + YearLength(y - 1)
  }

  /** Days in the months of year `y` before month `m`. */
  function DaysBeforeMonth(y: int, m: int): (n: nat)
    requires 1 <= m <= 12
  {
    [0, 31, 59, 90, 120, 151, 181, 212, 243, 273, 304, 334][m - 1]
      + (if m > 2 && IsLeapYear(y) then 1 else 0)
  }

  lemma MonthsAddUp(y: int, m: int)
    requires 1 <= m <= 12
    ensures m < 12 ==> DaysBeforeMonth(y, m + 1) == DaysBeforeMonth(y, m) + DaysInMonth(y, m)
    ensures m == 12 ==> DaysBeforeMonth(y, m) + DaysInMonth(y, m) == YearLength(y)
  {
  }

  /** `date.toordinal()`: 0001-01-01 is day 1. */
  function Ordinal(d: Date): int
    requires 1 <= d.month <= 12
  {
    DaysBeforeYear(d.year) + DaysBeforeMonth(d.year, d.month) + d.day
  }

  /** The calendar day after `d`, carrying into the next month and year. */
  function NextDay(d: Date): (r: Date)
    requires ValidDate(d)
    ensures 1 <= r.month <= 12 && 1 <= r.day <= 31
  {
    if d.day < DaysInMonth(d.year, d.month) then Date(d.year, d.month, d.day + 1)
    else if d.month < 12 then Date(d.year, d.month + 1, 1)
    else Date(d.year + 1, 1, 1)
  }

  /** The next day is one ordinal later, and is a valid date unless `d` is the last one. */
  lemma NextDaySpec(d: Date)
    requires ValidDate(d)
    ensures var r := NextDay(d); 1 <= r.month <= 12 && Ordinal(r) == Ordinal(d) + 1
    ensures d != Date(MaxYear, 12, 31) ==> ValidDate(NextDay(d))
  {
    MonthsAddUp(d.year, d.month);
  }

  lemma {:induction false} DaysBeforeYearGrows(a: int, b: int)
    requires MinYear <= a <= b
    ensures DaysBeforeYear(a) + 365 * (b - a) <= DaysBeforeYear(b)
    decreases b - a
  {
    if a < b {
      DaysBeforeYearGrows(a, b - 1);
    }
  }

  /** Dates before (y, m, d) in the usual order. */
  predicate DateBefore(a: Date, b: Date)
  {
    a.year < b.year
    || (a.year == b.year && a.month < b.month)
    || (a.year == b.year && a.month == b.month && a.day < b.day)
  }

  /** Ordinals follow calendar order, so `toordinal` is one-to-one on valid dates. */
  lemma OrdinalFollowsCalendar(a: Date, b: Date)
    requires ValidDate(a) && ValidDate(b) && DateBefore(a, b)
    ensures Ordinal(a) < Ordinal(b)
  {
    MonthsAddUp(a.year, a.month);
    if a.year < b.year {
      DaysBeforeYearGrows(a.year + 1, b.year);
      DaysInYearBound(a.year, a.month);
    } else if a.month < b.month {
      MonthsAddUp(a.year, a.month);
      DaysBeforeMonthGrows(a.year, a.month + 1, b.month);
    }
  }

  lemma DaysInYearBound(y: int, m: int)
    requires 1 <= m <= 12
    ensures DaysBeforeMonth(y, m) + DaysInMonth(y, m) <= YearLength(y)
  {
  }

  lemma DaysBeforeMonthGrows(y: int, m: int, n: int)
    requires 1 <= m <= n <= 12
    ensures DaysBeforeMonth(y, m) <= DaysBeforeMonth(y, n)
  {
  }

  lemma OrdinalInjective(a: Date, b: Date)
    requires ValidDate(a) && ValidDate(b) && Ordinal(a) == Ordinal(b)
    ensures a == b
  {
    if DateBefore(a, b) {
      OrdinalFollowsCalendar(a, b);
    } else if DateBefore(b, a) {
      OrdinalFollowsCalendar(b, a);
    }
  }

  // ---------------------------------------------------------------------------
  // Instants

  /** An aware UTC `datetime` on the hour, as the parser builds them. */
  datatype Instant = Instant(date: Date, hour: int)

  predicate ValidInstant(t: Instant)
  {
    ValidDate(t.date) && 0 <= t.hour < 24
  }

  /** Hours since 0001-01-01 00:00 UTC; aware datetimes compare by this number. */
  function HourNumber(t: Instant): int
    requires 1 <= t.date.month <= 12
  {
    (Ordinal(t.date) - 1) * 24 + t.hour
  }

  /** `t + timedelta(hours=3)`: hours 21 to 23 carry into the next day. */
  function AddThreeHours(t: Instant): (r: Instant)
    requires ValidInstant(t)
    ensures r.hour == (t.hour + 3) % 24 && 1 <= r.date.month <= 12
  {
    if t.hour + 3 < 24 then Instant(t.date, t.hour + 3)
    else Instant(NextDay(t.date), t.hour + 3 - 24)
  }

  /**
   * Three hours later is three on the hour count, and is a valid instant
   * unless it would fall after 9999-12-31.
   */
  lemma AddThreeHoursSpec(t: Instant)
    requires ValidInstant(t)
    ensures var r := AddThreeHours(t); 1 <= r.date.month <= 12 && HourNumber(r) == HourNumber(t) + 3
    ensures t.date != Date(MaxYear, 12, 31) ==> ValidInstant(AddThreeHours(t))
  {
    NextDaySpec(t.date);
  }
}
