/** Proleptic Gregorian calendar arithmetic on the simulated clock.

    An instant is a whole number of minutes since the simulation epoch,
    2024-05-01T00:00; a day number is a whole number of days since the
    epoch's date.  Both may be negative.  An hour is 60 minutes and a day
    1440; the numbers are written out so that the solver sees division by
    a literal. */
module Calendar {
  import opened Results

  /** Python's `date(2024, 5, 1).toordinal()`. */
  const EpochOrdinal: int := 739007

  datatype Date = Date(year: int, month: int, day: int)
  datatype DateTime = DateTime(date: Date, hour: int, minute: int)
  datatype YearMonth = YearMonth(year: int, month: int)

  const EpochDate: Date := Date(2024, 5, 1)
  const EpochMonth: YearMonth := YearMonth(2024, 5)

  predicate IsLeap(y: int) {
    y % 4 == 0 && (y % 100 != 0 || y % 400 == 0)
  }

  /** `calendar.monthrange(y, m)[1]`. */
  function DaysInMonth(y: int, m: int): (n: int)
    requires 1 <= m <= 12
    ensures 28 <= n <= 31
  {
    if m == 2 then (if IsLeap(y) then 29 else 28)
    else if m == 4 || m == 6 || m == 9 || m == 11 then 30
    else 31
  }

  function DaysInYear(y: int): int {
    if IsLeap(y) then 366 else 365
  }

  function DaysBeforeMonth(y: int, m: int): int
    requires 1 <= m <= 12
  {
    var common :=
      if m == 1 then 0 else if m == 2 then 31 else if m == 3 then 59
      else if m == 4 then 90 else if m == 5 then 120 else if m == 6 then 151
      else if m == 7 then 181 else if m == 8 then 212 else if m == 9 then 243
      else if m == 10 then 273 else if m == 11 then 304 else 334;
    common + (if m > 2 && IsLeap(y) then 1 else 0)
  }

  /** Days in the years 1 .. y-1 (floor division keeps it right for y <= 0). */
  function DaysBeforeYear(y: int): int {
    365 * (y - 1) + (y - 1) / 4 - (y - 1) / 100 + (y - 1) / 400
  }

  predicate ValidDate(d: Date) {
    1 <= d.month <= 12 && 1 <= d.day <= DaysInMonth(d.year, d.month)
  }

  predicate ValidDateTime(c: DateTime) {
    ValidDate(c.date) && 0 <= c.hour < 24 && 0 <= c.minute < 60
  }

  /** Python's `date.toordinal()`, extended to every year. */
  function Ordinal(d: Date): int
    requires 1 <= d.month <= 12
  {
    DaysBeforeYear(d.year) + DaysBeforeMonth(d.year, d.month) + d.day
  }

  /** Days since 2024-05-01. */
  function DayNumber(d: Date): int
    requires 1 <= d.month <= 12
  {
    Ordinal(d) - EpochOrdinal
  }

  function NextDate(d: Date): Date
    requires ValidDate(d)
  {
    if d.day < DaysInMonth(d.year, d.month) then Date(d.year, d.month, d.day + 1)
    else if d.month < 12 then Date(d.year, d.month + 1, 1)
    else Date(d.year + 1, 1, 1)
  }

  function PrevDate(d: Date): Date
    requires ValidDate(d)
  {
    if d.day > 1 then Date(d.year, d.month, d.day - 1)
    else if d.month > 1 then Date(d.year, d.month - 1, DaysInMonth(d.year, d.month - 1))
    else Date(d.year - 1, 12, 31)
  }

  lemma DaysBeforeYearStep(y: int)
    ensures DaysBeforeYear(y + 1) == DaysBeforeYear(y) + DaysInYear(y)
  {
    StepOver4(y);
    StepOver100(y);
    StepOver400(y);
  }

  /** A year divisible by 4 (by 100, by 400) is where the count of such years
      goes up by one. */
  lemma StepOver4(y: int)
    ensures y / 4 - (y - 1) / 4 == (if y % 4 == 0 then 1 else 0)
  {
  }

  lemma StepOver100(y: int)
    ensures y / 100 - (y - 1) / 100 == (if y % 100 == 0 then 1 else 0)
  {
  }

  lemma StepOver400(y: int)
    ensures y / 400 - (y - 1) / 400 == (if y % 400 == 0 then 1 else 0)
  {
  }

  lemma NextDateNumber(d: Date)
    requires ValidDate(d)
    ensures ValidDate(NextDate(d)) && DayNumber(NextDate(d)) == DayNumber(d) + 1
  {
    if d.day == DaysInMonth(d.year, d.month) && d.month == 12 {
      DaysBeforeYearStep(d.year);
    }
  }

  lemma PrevDateNumber(d: Date)
    requires ValidDate(d)
    ensures ValidDate(PrevDate(d)) && DayNumber(PrevDate(d)) == DayNumber(d) - 1
  {
    if d.day == 1 && d.month == 1 {
      DaysBeforeYearStep(d.year - 1);
    }
  }

  /** The date `n` days after 2024-05-01 (before it when `n` is negative),
      found by stepping one day at a time from the epoch. */
  function DateOfDay(n: int): (d: Date)
    ensures ValidDate(d)
    decreases if n < 0 then -n else n
  {
    if n == 0 then EpochDate
    else if n > 0 then NextDate(DateOfDay(n - 1))
    else PrevDate(DateOfDay(n + 1))
  }

  /** The date of day `n` has day number `n`. */
  lemma {:induction false} DayNumberOfDate(n: int)
    ensures DayNumber(DateOfDay(n)) == n
    decreases if n < 0 then -n else n
  {
    if n > 0 {
      DayNumberOfDate(n - 1);
      NextDateNumber(DateOfDay(n - 1));
    } else if n < 0 {
      DayNumberOfDate(n + 1);
      PrevDateNumber(DateOfDay(n + 1));
    }
  }

  lemma {:induction false} DaysBeforeYearMonotone(a: int, b: int)
    requires a <= b
    ensures DaysBeforeYear(a) + 365 * (b - a) <= DaysBeforeYear(b)
    decreases b - a
  {
    if a < b {
      DaysBeforeYearStep(a);
      DaysBeforeYearMonotone(a + 1, b);
    }
  }

  lemma OrdinalWithinYear(d: Date)
    requires ValidDate(d)
    ensures DaysBeforeYear(d.year) < Ordinal(d) <= DaysBeforeYear(d.year + 1)
  {
    DaysBeforeYearStep(d.year);
  }

  /** Distinct valid dates have distinct ordinals. */
  lemma OrdinalInjective(a: Date, b: Date)
    requires ValidDate(a) && ValidDate(b) && Ordinal(a) == Ordinal(b)
    ensures a == b
  {
    OrdinalWithinYear(a);
    OrdinalWithinYear(b);
    if a.year < b.year {
      DaysBeforeYearMonotone(a.year + 1, b.year);
      assert false;
    } else if b.year < a.year {
      DaysBeforeYearMonotone(b.year + 1, a.year);
      assert false;
    } else if a.month < b.month {
      MonthsMonotone(a.year, a.month, b.month);
      assert false;
    } else if b.month < a.month {
      MonthsMonotone(a.year, b.month, a.month);
      assert false;
    }
  }

  /** `a` comes before `b` in the calendar: an earlier year, or the same year
      and an earlier month, or the same month and an earlier day. */
  predicate DateBefore(a: Date, b: Date) {
    a.year < b.year
    || (a.year == b.year && a.month < b.month)
    || (a.year == b.year && a.month == b.month && a.day < b.day)
  }

  lemma OrdinalMonotone(a: Date, b: Date)
    requires ValidDate(a) && ValidDate(b) && DateBefore(a, b)
    ensures Ordinal(a) < Ordinal(b)
  {
    OrdinalWithinYear(a);
    OrdinalWithinYear(b);
    if a.year < b.year {
      DaysBeforeYearMonotone(a.year + 1, b.year);
    } else if a.month < b.month {
      MonthsMonotone(a.year, a.month, b.month);
    }
  }

  /** Ordinals compare as dates do, so comparing two dates is comparing
      their day numbers. */
  lemma OrdinalOrder(a: Date, b: Date)
    requires ValidDate(a) && ValidDate(b)
    ensures DateBefore(a, b) <==> Ordinal(a) < Ordinal(b)
    ensures DateBefore(a, b) <==> DayNumber(a) < DayNumber(b)
  {
    if DateBefore(a, b) {
      OrdinalMonotone(a, b);
    } else if a != b {
      OrdinalMonotone(b, a);
    }
  }

  lemma MonthStep(y: int, m: int)
    requires 1 <= m < 12
    ensures DaysBeforeMonth(y, m + 1) == DaysBeforeMonth(y, m) + DaysInMonth(y, m)
  {
  }

  /** A later month of the same year starts after an earlier month ends. */
  lemma {:induction false} MonthsMonotone(y: int, a: int, b: int)
    requires 1 <= a < b <= 12
    ensures DaysBeforeMonth(y, a) + DaysInMonth(y, a) <= DaysBeforeMonth(y, b)
    decreases b - a
  {
    MonthStep(y, a);
    if a + 1 < b {
      MonthsMonotone(y, a + 1, b);
    }
  }

  /** Every valid date is the date of its own day number. */
  lemma DateOfDayNumber(d: Date)
    requires ValidDate(d)
    ensures DateOfDay(DayNumber(d)) == d
  {
    DayNumberOfDate(DayNumber(d));
    OrdinalInjective(DateOfDay(DayNumber(d)), d);
  }

  /* ---- Instants ---- */

  /** The day number of an instant. */
  function DayOf(t: int): int {
    t / 1440
  }

  function HourOf(t: int): int {
    (t % 1440) / 60
  }

  /** `t.replace(minute=0, second=0, microsecond=0)`. */
  function TruncateToHour(t: int): int {
    t - t % 60
  }

  /** The calendar reading of an instant. */
  function ToCivil(t: int): (c: DateTime)
    ensures ValidDateTime(c)
  {
    DateTime(DateOfDay(DayOf(t)), HourOf(t), t % 60)
  }

  /** The instant a calendar reading names. */
  function FromCivil(c: DateTime): int
    requires 1 <= c.date.month <= 12
  {
    DayNumber(c.date) * 1440 + c.hour * 60 + c.minute
  }

  lemma FromToCivil(t: int)
    ensures FromCivil(ToCivil(t)) == t
  {
    DayNumberOfDate(DayOf(t));
    MinuteOfHour(t);
  }

  /** An instant's date is on or after 2024-05-01 exactly when its day
      number is not negative. */
  lemma OnOrAfterEpoch(t: int)
    ensures !DateBefore(ToCivil(t).date, EpochDate) <==> DayOf(t) >= 0
  {
    DayNumberOfDate(DayOf(t));
    OrdinalOrder(ToCivil(t).date, EpochDate);
  }

  /** The minute of the hour is the minute of the day's remainder by 60. */
  lemma MinuteOfHour(t: int)
    ensures t % 60 == (t % 1440) % 60
  {
    ShiftHours(t % 1440, DayOf(t) * 24);
  }

  lemma SplitMinutes(n: int, inDay: int)
    requires 0 <= inDay < 1440
    ensures (n * 1440 + inDay) / 1440 == n
    ensures (n * 1440 + inDay) % 1440 == inDay
  {
  }

  lemma ToFromCivil(c: DateTime)
    requires ValidDateTime(c)
    ensures ToCivil(FromCivil(c)) == c
  {
    InstantParts(DayNumber(c.date), c.hour, c.minute);
    DateOfDayNumber(c.date);
  }

  lemma InstantParts(n: int, h: int, m: int)
    requires 0 <= h < 24 && 0 <= m < 60
    ensures var t := n * 1440 + h * 60 + m;
            DayOf(t) == n && HourOf(t) == h && t % 60 == m
  {
    SplitMinutes(n, h * 60 + m);
    MinuteOfHour(n * 1440 + h * 60 + m);
    ShiftHours(m, h);
  }

  /** Truncating to the hour keeps the date and the hour and zeroes the minute. */
  lemma TruncateToHourCivil(t: int)
    ensures ToCivil(TruncateToHour(t)) == ToCivil(t).(minute := 0)
    ensures TruncateToHour(t) <= t < TruncateToHour(t) + 60
  {
    MinuteOfHour(t);
    SplitMinutes(DayOf(t), HourOf(t) * 60);
    ShiftHours(0, DayOf(t) * 24 + HourOf(t));
  }

  /* ---- Months ---- */

  /** Months counted from January of year 0, so that consecutive months differ by one. */
  function MonthIndex(ym: YearMonth): int {
    ym.year * 12 + ym.month - 1
  }

  predicate MonthBefore(a: YearMonth, b: YearMonth) {
    MonthIndex(a) < MonthIndex(b)
  }

  function MonthOf(d: Date): YearMonth {
    YearMonth(d.year, d.month)
  }

  function FirstOfMonth(ym: YearMonth): Date {
    Date(ym.year, ym.month, 1)
  }

  /** The month before `ym`. */
  function PrevMonth(ym: YearMonth): (p: YearMonth)
    requires 1 <= ym.month <= 12
    ensures 1 <= p.month <= 12 && MonthIndex(p) == MonthIndex(ym) - 1
  {
    if ym.month == 1 then YearMonth(ym.year - 1, 12) else YearMonth(ym.year, ym.month - 1)
  }

  /** `(first_of_month - timedelta(days=1))` lies in the previous month:
      this is how the archiver finds the months before the current one. */
  lemma PrevDateOfFirst(ym: YearMonth)
    requires 1 <= ym.month <= 12
    ensures ValidDate(FirstOfMonth(ym)) && MonthOf(PrevDate(FirstOfMonth(ym))) == PrevMonth(ym)
  {
  }

  /** Stepping one day number back from a date gives the date before it. */
  lemma DateOfDayBefore(d: Date)
    requires ValidDate(d)
    ensures DateOfDay(DayNumber(d) - 1) == PrevDate(d)
  {
    PrevDateNumber(d);
    DateOfDayNumber(PrevDate(d));
  }

  function Min(a: int, b: int): int {
    if a <= b then a else b
  }

  /** Lines 157-170 of the source: add `k` months with carry into the year and
      clamp the day to the length of the target month. */
  function AddMonths(c: DateTime, k: int): (r: DateTime)
    requires ValidDateTime(c)
    ensures ValidDateTime(r)
    ensures MonthIndex(MonthOf(r.date)) == MonthIndex(MonthOf(c.date)) + k
    ensures r.date.day == Min(c.date.day, DaysInMonth(r.date.year, r.date.month))
    ensures r.hour == c.hour && r.minute == c.minute
  {
    var months := c.date.month + k;
    var year := c.date.year + (months - 1) / 12;
    var month := (months - 1) % 12 + 1;
    DateTime(Date(year, month, Min(c.date.day, DaysInMonth(year, month))), c.hour, c.minute)
  }

  /** Whole days later, the day number moves by that many days and the time
      of day stays. */
  lemma DaysLater(t: int, k: int)
    ensures DayOf(t + k * 1440) == DayOf(t) + k
    ensures HourOf(t + k * 1440) == HourOf(t) && (t + k * 1440) % 60 == t % 60
  {
    SplitMinutes(DayOf(t) + k, t % 1440);
    ShiftHours(t, k * 24);
  }

  /** Whole hours later, the minute of the hour stays. */
  lemma ShiftHours(t: int, j: int)
    ensures (t + j * 60) % 60 == t % 60
  {
  }

  /** `_calculate_next_time`: the instant `amount` units after `t`. */
  function NextTime(t: int, unit: string, amount: int): (r: Result<int>)
    ensures r.Err? <==> unit !in ["minutes", "hours", "days", "months"]
    ensures r.Err? ==> r.error == InvalidUnit
    ensures unit == "minutes" ==> r == Ok(t + amount)
    ensures unit == "hours" ==> r == Ok(t + amount * 60)
    ensures unit == "days" ==> r.Ok? && DayOf(r.value) == DayOf(t) + amount
                               && ToCivil(r.value).hour == ToCivil(t).hour
                               && ToCivil(r.value).minute == ToCivil(t).minute
    ensures unit == "months" ==> r.Ok? && ToCivil(r.value) == AddMonths(ToCivil(t), amount)
  {
    if unit == "minutes" then Ok(t + amount)
    else if unit == "hours" then Ok(t + amount * 60)
    else if unit == "days" then
      DaysLater(t, amount);
      Ok(t + amount * 1440)
    else if unit == "months" then
      var c := AddMonths(ToCivil(t), amount);
      ToFromCivil(c);
      Ok(FromCivil(c))
    else Err(InvalidUnit)
  }
}
