/** The WRF model's calendar: steps, durations, dates and elapsed seconds in the proleptic Gregorian calendar. */
module WrfCalendar {
  import opened Arithmetic

  const DAY_SECONDS := 86400

  datatype DateTime = DateTime(year: int, month: int, day: int, hour: int, minute: int, second: int)

  predicate IsLeapYear(year: int) {
    year % 400 == 0 || (year % 4 == 0 && year % 100 != 0)
  }

  const MONTH_LENGTHS := [31, 28, 31, 30, 31, 30, 31, 31, 30, 31, 30, 31]

  function DaysInMonth(year: int, month: int): (days: nat)
    ensures 1 <= month <= 12 ==> 28 <= days <= 31
  {
    if month < 1 || month > 12 then 0
    else if month == 2 && IsLeapYear(year) then 29
    else MONTH_LENGTHS[month - 1]
  }

  predicate IsValidDate(d: DateTime) {
    d.year > 0 && 1 <= d.month <= 12 && 1 <= d.day <= DaysInMonth(d.year, d.month)
  }

  predicate IsValid(d: DateTime) {
    IsValidDate(d) && 0 <= d.hour < 24 && 0 <= d.minute < 60 && 0 <= d.second < 60
  }

  function DaysBeforeYear(year: int): int
    requires year > 0
  {
    (year - 1) * 365 + (year - 1) / 4 - (year - 1) / 100 + (year - 1) / 400
  }

  /** The days of a year before one of its months. */
  function DaysBeforeMonth(year: int, month: int): (days: nat)
    decreases month
  {
    if month <= 1 then 0 else DaysBeforeMonth(year, month - 1) + DaysInMonth(year, month - 1)
  }

  function AbsoluteDays(d: DateTime): int
    requires d.year > 0
  {
    DaysBeforeYear(d.year) + DaysBeforeMonth(d.year, d.month) + d.day - 1
  }

  function AbsoluteSeconds(d: DateTime): int
    requires d.year > 0
  {
    AbsoluteDays(d) * DAY_SECONDS + d.hour * 3600 + d.minute * 60 + d.second
  }

  // ---------- the calendar is one line of days ----------

  /** The days of a year before one of its months, by a formula: from March on, every five months have 153 days. */
  function MonthStart(year: int, month: int): int {
    if month == 1 then 0
    else if month == 2 then 31
    else (if IsLeapYear(year) then 60 else 59) + (153 * (month - 3) + 2) / 5
  }

  /** Every month is as long as the formula leaves room for. */
  lemma MonthFills(year: int, month: int)
    requires 1 <= month <= 12
    ensures DaysInMonth(year, month) == MonthStart(year, month + 1) - MonthStart(year, month)
  {
    hide IsLeapYear;
    if month <= 4 {
      assert month == 1 || month == 2 || month == 3 || month == 4;
    } else if month <= 8 {
      assert month == 5 || month == 6 || month == 7 || month == 8;
    } else {
      assert month == 9 || month == 10 || month == 11 || month == 12;
    }
  }

  /** The lengths of the months add up to the formula, at the start of every month and at the end of the year. */
  lemma {:induction false} MonthsAddUp(year: int, month: int)
    requires 1 <= month <= 13
    ensures DaysBeforeMonth(year, month) == MonthStart(year, month)
    decreases month
  {
    hide IsLeapYear, DaysInMonth;
    if month > 1 {
      MonthsAddUp(year, month - 1);
      MonthFills(year, month - 1);
    }
  }

  lemma YearLength(year: int)
    requires year > 0
    ensures DaysBeforeMonth(year, 13) == if IsLeapYear(year) then 366 else 365
  {
    hide IsLeapYear, DaysBeforeMonth;
    MonthsAddUp(year, 13);
  }

  /**
   * The day number of a date without any table: years that begin in March have 365 days, one more every fourth year, but not
   * every hundredth, but every four hundredth; and in them every five months have 153 days.
   */
  function DayNumber(year: int, month: int, day: int): int {
    var y, m := if month <= 2 then year - 1 else year, if month <= 2 then month + 9 else month - 3;
    365 * y + y / 4 - y / 100 + y / 400 + (153 * m + 2) / 5 + day - 307
  }

  /** Every valid date has that day number. */
  lemma DaysByFormula(d: DateTime)
    requires IsValidDate(d)
    ensures AbsoluteDays(d) == DayNumber(d.year, d.month, d.day)
  {
    hide DaysBeforeMonth, DaysInMonth;
    MonthsAddUp(d.year, d.month);
    if d.month > 2 {
      QuotientSteps(d.year, 4);
      QuotientSteps(d.year, 100);
      QuotientSteps(d.year, 400);
      CenturiesDivide(d.year);
    }
  }

  /** A year begins where the one before it ends. */
  lemma YearFollows(year: int)
    requires year > 0
    ensures DaysBeforeYear(year + 1) == DaysBeforeYear(year) + DaysBeforeMonth(year, 13)
  {
    hide DaysBeforeMonth;
    YearLength(year);
    QuotientSteps(year, 4);
    QuotientSteps(year, 100);
    QuotientSteps(year, 400);
    CenturiesDivide(year);
  }

  lemma QuotientSteps(x: int, k: int)
    requires x > 0 && k > 1
    ensures x / k == (x - 1) / k + (if x % k == 0 then 1 else 0)
  {
    var q, r := x / k, x % k;
    assert x == k * q + r;
    if r == 0 {
      assert x - 1 == k * (q - 1) + (k - 1);
      DivUnique(x - 1, q - 1, k - 1, k);
    } else {
      DivUnique(x - 1, q, r - 1, k);
    }
  }

  lemma CenturiesDivide(x: int)
    ensures x % 400 == 0 ==> x % 100 == 0
    ensures x % 100 == 0 ==> x % 4 == 0
  {
    MultipleDivides(x, 4, 100);
    MultipleDivides(x, 25, 4);
  }

  lemma MultipleDivides(x: int, j: int, k: int)
    requires j > 0 && k > 0 && j * k > 0
    ensures x % (j * k) == 0 ==> x % k == 0
  {
    var q := x / (j * k);
    if x % (j * k) == 0 {
      assert x == (j * k) * q;
      assert (j * k) * q == k * (j * q);
      DivUnique(x, j * q, 0, k);
    }
  }

  lemma {:induction false} MonthsGrow(year: int, m: int, n: int)
    requires m <= n
    ensures DaysBeforeMonth(year, m) <= DaysBeforeMonth(year, n)
    ensures 1 <= m < n ==> DaysBeforeMonth(year, m) + DaysInMonth(year, m) <= DaysBeforeMonth(year, n)
    decreases n - m
  {
    if m < n {
      MonthsGrow(year, m, n - 1);
    }
  }

  lemma {:induction false} YearsGrow(y: int, z: int)
    requires 0 < y <= z
    ensures DaysBeforeYear(y) <= DaysBeforeYear(z)
    ensures y < z ==> DaysBeforeYear(y) + DaysBeforeMonth(y, 13) <= DaysBeforeYear(z)
    decreases z - y
  {
    hide DaysBeforeYear, DaysBeforeMonth;
    if y < z {
      YearFollows(z - 1);
      YearsGrow(y, z - 1);
    }
  }

  /** A valid date lies within its year. */
  lemma WithinYear(d: DateTime)
    requires IsValidDate(d)
    ensures DaysBeforeYear(d.year) <= AbsoluteDays(d) < DaysBeforeYear(d.year) + DaysBeforeMonth(d.year, 13)
  {
    hide DaysBeforeYear;
    MonthsGrow(d.year, d.month, 13);
  }

  // ---------- order ----------

  predicate DateBefore(a: DateTime, b: DateTime) {
    a.year < b.year || (a.year == b.year && (a.month < b.month || (a.month == b.month && a.day < b.day)))
  }

  /** Earlier in the calendar, or on the same day earlier by the clock. */
  predicate Before(a: DateTime, b: DateTime) {
    DateBefore(a, b) || (!DateBefore(b, a) &&
    (a.hour < b.hour || (a.hour == b.hour && (a.minute < b.minute || (a.minute == b.minute && a.second < b.second)))))
  }

  lemma DaysOrdered(a: DateTime, b: DateTime)
    requires IsValidDate(a) && IsValidDate(b) && DateBefore(a, b)
    ensures AbsoluteDays(a) < AbsoluteDays(b)
  {
    hide DaysBeforeYear, DaysBeforeMonth, DaysInMonth;
    if a.year < b.year {
      WithinYear(a);
      WithinYear(b);
      YearsGrow(a.year, b.year);
    } else if a.month < b.month {
      MonthsGrow(a.year, a.month, b.month);
    }
  }

  /** The order of valid dates is the order of their absolute seconds, and no two have the same. */
  lemma SecondsOrdered(a: DateTime, b: DateTime)
    requires IsValid(a) && IsValid(b)
    ensures Before(a, b) <==> AbsoluteSeconds(a) < AbsoluteSeconds(b)
    ensures AbsoluteSeconds(a) == AbsoluteSeconds(b) ==> a == b
  {
    hide AbsoluteDays, DaysInMonth;
    if DateBefore(a, b) {
      DaysOrdered(a, b);
    } else if DateBefore(b, a) {
      DaysOrdered(b, a);
    } else {
      SameDay(a, b);
    }
  }

  lemma SameDay(a: DateTime, b: DateTime)
    requires a.year > 0 && !DateBefore(a, b) && !DateBefore(b, a)
    ensures a.year == b.year && AbsoluteDays(a) == AbsoluteDays(b) && a.month == b.month && a.day == b.day
  {
  }

  // ---------- the program ----------

  method DatetimeToAbsoluteSeconds(d: DateTime) returns (seconds: int)
    requires IsValid(d)
    ensures seconds == AbsoluteSeconds(d)
  {
    var days := DaysBeforeYear(d.year);
    var month := 1;
    while month < d.month
      invariant 1 <= month <= d.month && days == DaysBeforeYear(d.year) + DaysBeforeMonth(d.year, month)
    {
      days := days + DaysInMonth(d.year, month);
      month := month + 1;
    }
    days := days + d.day - 1;
    seconds := days * DAY_SECONDS + d.hour * 3600 + d.minute * 60 + d.second;
  }

  /** A duration in days and a time of day, in a date's fields. */
  function SecsToDatetimeDuration(seconds: nat): (duration: DateTime)
    ensures duration.day * DAY_SECONDS + duration.hour * 3600 + duration.minute * 60 + duration.second == seconds
    ensures duration.day >= 0 && 0 <= duration.hour < 24 && 0 <= duration.minute < 60 && 0 <= duration.second < 60
  {
    var daySeconds := seconds % DAY_SECONDS;
    DateTime(0, 0, seconds / DAY_SECONDS, daySeconds / 60 / 60 % 60, daySeconds / 60 % 60, daySeconds % 60)
  }

  /** Adds a duration to a date, carrying over the clock and then over months and years. */
  method AddDurationToDatetime(start: DateTime, duration: DateTime) returns (end: DateTime)
    ensures IsValid(start) && duration.day >= 0 && 0 <= duration.hour < 24 && 0 <= duration.minute < 60 && 0 <= duration.second < 60 ==>
      && IsValid(end)
      && AbsoluteSeconds(end) == AbsoluteSeconds(start) +
                                 duration.day * DAY_SECONDS + duration.hour * 3600 + duration.minute * 60 + duration.second
  {
    hide DaysBeforeYear, DaysBeforeMonth, DaysInMonth;
    var second, minute, hour := start.second + duration.second, start.minute + duration.minute, start.hour + duration.hour;
    var elapsed := duration.day;
    if second >= 60 {
      second := second - 60;
      minute := minute + 1;
    }
    if minute >= 60 {
      minute := minute - 60;
      hour := hour + 1;
    }
    if hour >= 24 {
      hour := hour - 24;
      elapsed := elapsed + 1;
    }
    var year, month, day := AddDays(start.year, start.month, start.day, elapsed);
    end := DateTime(year, month, day, hour, minute, second);
    assert IsValid(start) && elapsed >= 0 ==> AbsoluteDays(end) == AbsoluteDays(start) + elapsed;
  }

  function Day(year: int, month: int, day: int): DateTime {
    DateTime(year, month, day, 0, 0, 0)
  }

  /** Advances a date by whole days: the day reached and the days still to go always add up to the same. */
  method AddDays(y: int, m: int, d: int, days: int) returns (year: int, month: int, day: int)
    ensures IsValidDate(Day(y, m, d)) && days >= 0 ==>
      IsValidDate(Day(year, month, day)) && AbsoluteDays(Day(year, month, day)) == AbsoluteDays(Day(y, m, d)) + days
  {
    hide DaysBeforeYear, DaysBeforeMonth, DaysInMonth;
    ghost var sound := IsValidDate(Day(y, m, d)) && days >= 0;
    ghost var first := true;
    year, month, day := y, m, d;
    var elapsed := days;
    while elapsed > 0
      invariant sound ==> elapsed >= 0 && IsValidDate(Day(year, month, day))
      invariant sound ==> AbsoluteDays(Day(year, month, day)) + elapsed == AbsoluteDays(Day(y, m, d)) + days
      invariant !first ==> day == 1 && month <= 12
      decreases first, if month < 1 then 1 - month else 0, elapsed
    {
      var remaining := DaysInMonth(year, month) - day;
      if elapsed <= remaining {
        day := day + elapsed;
        elapsed := 0;
        break;
      }
      if sound {
        NextMonth(year, month);
      }
      MonthLength(year, month);
      elapsed := elapsed - (remaining + 1);
      first, day := false, 1;
      month := month + 1;
      if month > 12 {
        month := 1;
        year := year + 1;
      }
    }
  }

  lemma MonthLength(year: int, month: int)
    ensures DaysInMonth(year, month) >= 0 && (1 <= month <= 12 ==> DaysInMonth(year, month) >= 1)
  {
  }

  /** The first of a month follows the last of the one before. */
  lemma NextMonth(year: int, month: int)
    requires year > 0 && 1 <= month <= 12
    ensures DaysBeforeMonth(year, month + 1) == DaysBeforeMonth(year, month) + DaysInMonth(year, month)
    ensures month == 12 ==> DaysBeforeYear(year + 1) + DaysBeforeMonth(year + 1, 1) ==
                            DaysBeforeYear(year) + DaysBeforeMonth(year, month) + DaysInMonth(year, month)
    ensures DaysInMonth(year, month) >= 1 && DaysInMonth(year + 1, 1) >= 1
    ensures (month < 12 ==> DaysInMonth(year, month + 1) >= 1)
  {
    hide DaysBeforeYear;
    YearFollows(year);
  }

  /** The seconds from one date to another, or -1 when either is no date or the second comes first. */
  method DatetimeDurationSeconds(start: DateTime, end: DateTime) returns (seconds: int)
    ensures IsValid(start) && IsValid(end) && AbsoluteSeconds(start) <= AbsoluteSeconds(end) ==>
      seconds == AbsoluteSeconds(end) - AbsoluteSeconds(start)
    ensures !(IsValid(start) && IsValid(end) && AbsoluteSeconds(start) <= AbsoluteSeconds(end)) ==> seconds == -1
  {
    hide AbsoluteSeconds, DaysInMonth;
    if !IsValid(start) || !IsValid(end) {
      return -1;
    }
    var startSeconds := DatetimeToAbsoluteSeconds(start);
    var endSeconds := DatetimeToAbsoluteSeconds(end);
    if endSeconds < startSeconds {
      return -1;
    }
    return endSeconds - startSeconds;
  }
}
