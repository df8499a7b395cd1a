/** Calendar arithmetic behind `new Date(year, month, day)` and `getDay()`,
    following the day-number definitions of the ECMAScript language
    specification (DayFromYear, MakeDay, WeekDay). Day numbers count days
    from 1970-01-01 (day 0, a Thursday); months are 0-based as in
    `getMonth()`. Dafny's `/` and `%` by a positive constant are floor
    division and a non-negative remainder, which is what ECMAScript's
    `floor` and `modulo` give, so they are used as they stand. */
module Calendar {

  /** Milliseconds in one day (ECMAScript's msPerDay). */
  const MsPerDay: int := 86400000

  /** Day number of January 1st of year `y`. */
  function DayFromYear(y: int): int
  {
    365 * (y - 1970) + (y - 1969) / 4 - (y - 1901) / 100 + (y - 1601) / 400
  }

  predicate IsLeapYear(y: int)
  {
    y % 4 == 0 && (y % 100 != 0 || y % 400 == 0)
  }

  /** Number of days in month `m` (0 = January) of year `y`. */
  function DaysInMonth(y: int, m: int): (n: int)
    requires 0 <= m < 12
    ensures 28 <= n <= 31
  {
    if m == 1 then (if IsLeapYear(y) then 29 else 28)
    else if m == 3 || m == 5 || m == 8 || m == 10 then 30
    else 31
  }

  /** Days from January 1st to the first day of month `m` of year `y`:
      ECMAScript's table of month starts, shifted by one day after February
      in a leap year. */
  function DaysBeforeMonth(y: int, m: int): (n: int)
    requires 0 <= m < 12
    ensures 0 <= n <= 335
  {
    var leap := if IsLeapYear(y) then 1 else 0;
    if m == 0 then 0
    else if m == 1 then 31
    else [59, 90, 120, 151, 181, 212, 243, 273, 304, 334][m - 2] + leap
  }

  /** The table of month starts agrees with the month lengths: each month
      starts where the previous one ends, and the year has 365 days, 366
      in a leap year. */
  lemma MonthStartsFollowLengths(y: int, m: int)
    requires 0 <= m < 12
    ensures m < 11 ==> DaysBeforeMonth(y, m + 1) == DaysBeforeMonth(y, m) + DaysInMonth(y, m)
    ensures m == 11 ==> DaysBeforeMonth(y, m) + DaysInMonth(y, m) == DayFromYear(y + 1) - DayFromYear(y)
  {
    if m == 11 {
      YearLength(y);
    }
  }

  /** Every month of a year ends by the end of that year. */
  lemma MonthEndsInYear(y: int, m: int)
    ensures 0 <= m < 12 ==> DaysBeforeMonth(y, m) + DaysInMonth(y, m) <= if IsLeapYear(y) then 366 else 365
  {
  }

  /** `(x + 1) / n` is one more than `x / n` exactly when `x + 1` is a
      multiple of `n`, for the divisors of the leap-year rule. */
  lemma FloorStep(x: int, n: int)
    requires n == 4 || n == 100 || n == 400
    ensures (x + 1) / n - x / n == if (x + 1) % n == 0 then 1 else 0
  {
  }

  /** A year has 366 days when it is a leap year and 365 otherwise. */
  lemma YearLength(y: int)
    ensures DayFromYear(y + 1) - DayFromYear(y) == if IsLeapYear(y) then 366 else 365
  {
    FloorStep(y - 1969, 4);
    FloorStep(y - 1901, 100);
    FloorStep(y - 1601, 400);
    assert (y - 1968) % 4 == y % 4;
    assert (y - 1900) % 100 == y % 100;
    assert (y - 1600) % 400 == y % 400;
  }

  /** ECMAScript's MakeDay: the day number of day `d` of month `m` of year
      `y`. Out-of-range months and days roll over: month 12 is January of
      the next year, day 0 is the last day of the previous month, and so on. */
  function MakeDay(y: int, m: int, d: int): int
  {
    var ym := y + m / 12;
    var mn := m % 12;
    DayFromYear(ym) + DaysBeforeMonth(ym, mn) + d - 1
  }

  /** A day-of-month that exists in its month falls inside its year. */
  lemma MakeDayInYear(y: int, m: int, d: int)
    requires 0 <= m < 12 && 1 <= d <= DaysInMonth(y, m)
    ensures DayFromYear(y) <= MakeDay(y, m, d) < DayFromYear(y + 1)
  {
    YearLength(y);
    MonthEndsInYear(y, m);
    assert m / 12 == 0 && m % 12 == m;
  }

  /** ECMAScript's WeekDay: 0 = Sunday, 1 = Monday, ..., 6 = Saturday. */
  function WeekDay(day: int): (w: int)
    ensures 0 <= w < 7
  {
    (day + 4) % 7
  }

  /** The time value of midnight at the start of day `day`. */
  function MidnightOf(day: int): int
  {
    day * MsPerDay
  }

  /** The "now" a request sees: its day number and the calendar view that
      `getFullYear()`, `getMonth()`, `getDate()` and `getDay()` give of it. */
  datatype Now = Now(day: int, year: int, month: int, date: int, weekday: int)

  /** The calendar view agrees with the day number. */
  predicate ValidNow(now: Now)
  {
    && 0 <= now.month < 12
    && 1 <= now.date <= DaysInMonth(now.year, now.month)
    && now.day == MakeDay(now.year, now.month, now.date)
    && now.weekday == WeekDay(now.day)
  }

  /** The "now" that falls on day `date` of month `month` of `year`. */
  function NowAt(year: int, month: int, date: int): (now: Now)
    requires 0 <= month < 12 && 1 <= date <= DaysInMonth(year, month)
    ensures ValidNow(now)
    ensures now.year == year && now.month == month && now.date == date
  {
    var day := MakeDay(year, month, date);
    Now(day, year, month, date, WeekDay(day))
  }

  /** A calendar view that agrees with its day number is determined by its
      year, month and day-of-month. */
  lemma ValidNowIsNowAt(now: Now)
    requires ValidNow(now)
    ensures now == NowAt(now.year, now.month, now.date)
  {
  }

  /** A day in a month is the first of that month plus its offset, whatever
      the offset: this is the roll-over the "week" window relies on when the
      Monday it computes has a day-of-month of zero or less. */
  lemma MakeDayRollsOver(y: int, m: int, d: int)
    ensures MakeDay(y, m, d) == MakeDay(y, m, 1) + (d - 1)
  {
  }

  /** Day 0 of a month is the last day of the month before it; day 0 of
      January is December 31st of the previous year. */
  lemma DayZeroIsPreviousMonthEnd(y: int, m: int)
    requires 0 <= m < 12
    ensures m > 0 ==> MakeDay(y, m, 0) == MakeDay(y, m - 1, DaysInMonth(y, m - 1))
    ensures m == 0 ==> MakeDay(y, m, 0) == MakeDay(y - 1, 11, 31)
  {
    if m > 0 {
      MonthStartsFollowLengths(y, m - 1);
      assert m / 12 == 0 && m % 12 == m && (m - 1) / 12 == 0 && (m - 1) % 12 == m - 1;
    } else {
      MonthStartsFollowLengths(y - 1, 11);
      assert 11 / 12 == 0 && 11 % 12 == 11;
    }
  }

  /** A time value is at or after midnight of `day` exactly when it falls
      on `day` or a later day. */
  lemma AtOrAfterMidnight(t: int, day: int)
    ensures t >= MidnightOf(day) <==> t / MsPerDay >= day
  {
  }

  /** Going back `k` days from a day of the week `w` gives the day of the
      week `w - k`, taken modulo 7. */
  lemma WeekDayBack(day: int, k: int)
    requires 0 <= k <= WeekDay(day)
    ensures WeekDay(day - k) == WeekDay(day) - k
  {
  }

  /** Going back `k` days from a day of the week `w < k` wraps into the
      previous week. */
  lemma WeekDayBackWrap(day: int, k: int)
    requires WeekDay(day) < k <= 7
    ensures WeekDay(day - k) == WeekDay(day) - k + 7
  {
  }
}
