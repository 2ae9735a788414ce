/** The proleptic Gregorian calendar, as Python's `datetime` and pandas use it.
    A date is a day number: the count of days since 01-01-0001 (day 0). */
module Calendar {

  /** A calendar date as year, month and day of month. */
  datatype Civil = Civil(year: int, month: int, day: int)

  /** A day number: days since 01-01-0001. */
  type Day = int

  predicate IsLeapYear(y: int) {
    y % 4 == 0 && (y % 100 != 0 || y % 400 == 0)
  }

  function DaysInMonth(y: int, m: int): (n: int)
    ensures 28 <= n <= 31
    ensures m == 2 ==> (n == 29 <==> IsLeapYear(y))
  {
    if m == 2 then (if IsLeapYear(y) then 29 else 28)
    else if m == 4 || m == 6 || m == 9 || m == 11 then 30
    else 31
  }

  function DaysInYear(y: int): int {
    if IsLeapYear(y) then 366 else 365
  }

  /** A date that exists in the calendar (year 1 onwards). */
  predicate Valid(c: Civil) {
    1 <= c.year && 1 <= c.month <= 12 && 1 <= c.day <= DaysInMonth(c.year, c.month)
  }

  /** Days in the months of year `y` before month `m`. */
  function DaysBeforeMonth(y: int, m: int): nat
    requires 1 <= m <= 13
    decreases m
  {
    if m == 1 then 0 else DaysBeforeMonth(y, m - 1) + DaysInMonth(y, m - 1)
  }

  /** Days in the years before year `y`: every full 400-year cycle holds
      146097 days, and the years of a partial cycle add their own lengths. */
  function DaysBeforeYear(y: int): nat
    requires 1 <= y
    decreases y
  {
    if y > 400 then DaysBeforeYear(y - 400) + 146097
    else if y == 1 then 0
    else DaysBeforeYear(y - 1) + DaysInYear(y - 1)
  }

  /** The count is `datetime`'s `_days_before_year`: 365 a year plus the
      leap days. */
  lemma {:induction false} DaysBeforeYearClosed(y: int)
    requires 1 <= y
    ensures var p := y - 1; DaysBeforeYear(y) == p * 365 + p / 4 - p / 100 + p / 400
    decreases y
  {
    if y > 400 {
      DaysBeforeYearClosed(y - 400);
      ClosedAcrossCycle(y, DaysBeforeYear(y - 400));
    } else if y > 1 {
      DaysBeforeYearClosed(y - 1);
      ClosedAcrossYear(y, DaysBeforeYear(y - 1));
    }
  }

  lemma ClosedAcrossCycle(y: int, before: int)
    requires 400 < y
    requires var p := y - 401; before == p * 365 + p / 4 - p / 100 + p / 400
    ensures var p := y - 1; before + 146097 == p * 365 + p / 4 - p / 100 + p / 400
  {
    CycleDivs(y - 401);
  }

  lemma ClosedAcrossYear(y: int, before: int)
    requires 1 < y
    requires var p := y - 2; before == p * 365 + p / 4 - p / 100 + p / 400
    ensures var p := y - 1; before + DaysInYear(y - 1) == p * 365 + p / 4 - p / 100 + p / 400
  {
    StepDivs(y - 2);
    LeapDays(y - 1);
  }

  /** Each year adds its own length. */
  lemma NextYear(y: int)
    requires 1 <= y
    ensures DaysBeforeYear(y + 1) == DaysBeforeYear(y) + DaysInYear(y)
  {
    DaysBeforeYearClosed(y);
    DaysBeforeYearClosed(y + 1);
    StepDivs(y - 1);
    LeapDays(y);
  }

  /** Four hundred years hold 100 multiples of 4, 4 of 100 and one of 400. */
  lemma CycleDivs(x: int)
    requires 0 <= x
    ensures (x + 400) / 4 == x / 4 + 100 && (x + 400) / 100 == x / 100 + 4 && (x + 400) / 400 == x / 400 + 1
  {
  }

  /** Counting multiples of 4, 100 and 400 up to `x + 1` adds one exactly
      at a multiple. */
  lemma StepDivs(x: int)
    requires 0 <= x
    ensures (x + 1) / 4 == x / 4 + (if (x + 1) % 4 == 0 then 1 else 0)
    ensures (x + 1) / 100 == x / 100 + (if (x + 1) % 100 == 0 then 1 else 0)
    ensures (x + 1) / 400 == x / 400 + (if (x + 1) % 400 == 0 then 1 else 0)
  {
  }

  /** A year has one extra day per divisor among 4, 100 (taken back) and 400. */
  lemma LeapDays(y: int)
    ensures DaysInYear(y) == 365 + (if y % 4 == 0 then 1 else 0) - (if y % 100 == 0 then 1 else 0) + (if y % 400 == 0 then 1 else 0)
  {
    if y % 100 == 0 {
      CenturyDivisible(y);
    }
    if y % 400 == 0 {
      CycleDivisible(y);
    }
  }

  lemma CenturyDivisible(y: int)
    requires y % 100 == 0
    ensures y % 4 == 0
  {
    assert y == 4 * (25 * (y / 100));
  }

  lemma CycleDivisible(y: int)
    requires y % 400 == 0
    ensures y % 100 == 0
  {
    assert y == 100 * (4 * (y / 400));
  }

  lemma MonthsFillYear(y: int)
    ensures DaysBeforeMonth(y, 13) == DaysInYear(y)
  {
    assert DaysBeforeMonth(y, 3) == 31 + DaysInMonth(y, 2);
    assert DaysBeforeMonth(y, 7) == DaysBeforeMonth(y, 3) + 122;
    assert DaysBeforeMonth(y, 11) == DaysBeforeMonth(y, 7) + 123;
  }

  lemma {:induction false} DaysBeforeMonthGrows(y: int, m: int, k: int)
    requires 1 <= m <= k <= 13
    ensures DaysBeforeMonth(y, m) <= DaysBeforeMonth(y, k)
    decreases k - m
  {
    if m < k {
      DaysBeforeMonthGrows(y, m, k - 1);
    }
  }

  lemma {:induction false} DaysBeforeYearGrows(y: int, k: int)
    requires 1 <= y <= k
    ensures DaysBeforeYear(y) <= DaysBeforeYear(k)
    decreases k - y
  {
    if y < k {
      DaysBeforeYearGrows(y, k - 1);
      NextYear(k - 1);
    }
  }

  /** The day number of a date. */
  function ToDayNumber(c: Civil): (n: nat)
    requires Valid(c)
    ensures DaysBeforeYear(c.year) <= n
  {
    DaysBeforeYear(c.year) + DaysBeforeMonth(c.year, c.month) + c.day - 1
  }

  /** A date's day number lies within the days of its year. */
  lemma WithinYear(c: Civil)
    requires Valid(c)
    ensures ToDayNumber(c) < DaysBeforeYear(c.year) + DaysInYear(c.year)
  {
    DaysBeforeMonthGrows(c.year, c.month + 1, 13);
    MonthsFillYear(c.year);
  }

  /** The date `r` days after the first day of month `m` of year `y`. */
  function CivilInYear(y: int, m: int, r: nat): (c: Civil)
    requires 1 <= y && 1 <= m <= 12
    requires r < DaysBeforeMonth(y, 13) - DaysBeforeMonth(y, m)
    ensures Valid(c) && c.year == y && m <= c.month
    ensures DaysBeforeMonth(y, c.month) + c.day - 1 == DaysBeforeMonth(y, m) + r
    decreases 12 - m
  {
    if r < DaysInMonth(y, m) then Civil(y, m, r + 1)
    else CivilInYear(y, m + 1, r - DaysInMonth(y, m))
  }

  /** The date `r` days after 1 January of year `y`. */
  function CivilFrom(y: int, r: nat): (c: Civil)
    requires 1 <= y
    ensures Valid(c) && y <= c.year
    ensures ToDayNumber(c) == DaysBeforeYear(y) + r
    decreases r
  {
    MonthsFillYear(y);
    if r < DaysInYear(y) then CivilInYear(y, 1, r)
    else
      NextYear(y);
      CivilFrom(y + 1, r - DaysInYear(y))
  }

  /** The date of a day number. */
  function FromDayNumber(n: nat): (c: Civil)
    ensures Valid(c)
    ensures ToDayNumber(c) == n
  {
    CivilFrom(1, n)
  }

  /** Day numbers and dates are in one-to-one correspondence. */
  lemma DayNumberRoundTrip(c: Civil)
    requires Valid(c)
    ensures FromDayNumber(ToDayNumber(c)) == c
  {
    DayNumberInjective(FromDayNumber(ToDayNumber(c)), c);
  }

  /** Two valid dates with the same day number are the same date. */
  lemma DayNumberInjective(a: Civil, b: Civil)
    requires Valid(a) && Valid(b) && ToDayNumber(a) == ToDayNumber(b)
    ensures a == b
  {
    DayOrder(a, b);
    DayOrder(b, a);
  }

  /** The next day inside one month is the next day number. */
  lemma {:induction false} SameMonthOffset(c: Civil, k: int)
    requires Valid(c) && 1 <= c.day + k <= DaysInMonth(c.year, c.month)
    ensures Valid(Civil(c.year, c.month, c.day + k))
    ensures ToDayNumber(Civil(c.year, c.month, c.day + k)) == ToDayNumber(c) + k
    ensures FromDayNumber(ToDayNumber(c) + k) == Civil(c.year, c.month, c.day + k)
  {
    DayNumberRoundTrip(Civil(c.year, c.month, c.day + k));
  }

  // ---------------------------------------------------------------------
  // Calendar months (dateutil's relativedelta(months = n))

  function Min(a: int, b: int): int { if a <= b then a else b }

  /** `c + relativedelta(months = n)`: move `n` calendar months and clamp the
      day to the length of the target month. The year may leave the calendar
      (below 1), which the callers treat as an error. */
  function AddMonths(c: Civil, n: int): (r: Civil)
    requires Valid(c)
    ensures 1 <= r.month <= 12
    ensures r.year * 12 + r.month == c.year * 12 + c.month + n
    ensures 1 <= r.day <= DaysInMonth(r.year, r.month)
    ensures r.day == Min(c.day, DaysInMonth(r.year, r.month))
    ensures Valid(r) <==> 1 <= r.year
  {
    var total := c.year * 12 + (c.month - 1) + n;
    var y := total / 12;
    var m := total % 12 + 1;
    Civil(y, m, Min(c.day, DaysInMonth(y, m)))
  }

  /** Adding no months changes nothing. */
  lemma AddZeroMonths(c: Civil)
    requires Valid(c)
    ensures AddMonths(c, 0) == c
  {
  }

  // ---------------------------------------------------------------------
  // The range of pandas timestamps (nanoseconds since 1970 in 64 bits):
  // 1677-09-21 00:12:43 .. 2262-04-11 23:47:16. At day granularity the
  // first whole day is 22-09-1677 and the last is 11-04-2262.

  predicate NotBefore(a: Civil, b: Civil) {
    a.year > b.year || (a.year == b.year && (a.month > b.month || (a.month == b.month && a.day >= b.day)))
  }

  const FirstTimestampDate := Civil(1677, 9, 22)
  const LastTimestampDate := Civil(2262, 4, 11)

  predicate InTimestampRange(c: Civil) {
    NotBefore(c, FirstTimestampDate) && NotBefore(LastTimestampDate, c)
  }

  /** The day numbers of 22-09-1677 and 11-04-2262. */
  const FirstTimestampDay := 612411
  const LastTimestampDay := 825913

  /** A day number pandas can represent as a timestamp. */
  predicate InRange(n: int) {
    FirstTimestampDay <= n <= LastTimestampDay
  }

  /** A date in an earlier year has a smaller day number. */
  lemma EarlierYear(a: Civil, b: Civil)
    requires Valid(a) && Valid(b) && a.year < b.year
    ensures ToDayNumber(a) < ToDayNumber(b)
  {
    DaysBeforeYearGrows(a.year + 1, b.year);
    NextYear(a.year);
    WithinYear(a);
  }

  /** A date in an earlier month of the same year has a smaller day number. */
  lemma EarlierMonth(a: Civil, b: Civil)
    requires Valid(a) && Valid(b) && a.year == b.year && a.month < b.month
    ensures ToDayNumber(a) < ToDayNumber(b)
  {
    DaysBeforeMonthGrows(a.year, a.month + 1, b.month);
  }

  /** Day numbers follow the order of dates. */
  lemma DayOrder(a: Civil, b: Civil)
    requires Valid(a) && Valid(b)
    ensures NotBefore(a, b) <==> ToDayNumber(a) >= ToDayNumber(b)
  {
    if a.year < b.year {
      EarlierYear(a, b);
    } else if b.year < a.year {
      EarlierYear(b, a);
    } else if a.month < b.month {
      EarlierMonth(a, b);
    } else if b.month < a.month {
      EarlierMonth(b, a);
    }
  }

  /** 22-09-1677 and 11-04-2262 are the days numbered by the range bounds. */
  lemma TimestampBounds(first: Civil, last: Civil)
    requires first == FirstTimestampDate && last == LastTimestampDate
    ensures Valid(first) && Valid(last)
    ensures ToDayNumber(first) == FirstTimestampDay && ToDayNumber(last) == LastTimestampDay
  {
    FirstTimestampBound(first);
    LastTimestampBound(last);
  }

  lemma FirstTimestampBound(first: Civil)
    requires first == FirstTimestampDate
    ensures Valid(first) && ToDayNumber(first) == FirstTimestampDay
  {
    CommonYearMonths(first.year);
    DaysBeforeYearClosed(first.year);
  }

  lemma LastTimestampBound(last: Civil)
    requires last == LastTimestampDate
    ensures Valid(last) && ToDayNumber(last) == LastTimestampDay
  {
    CommonYearMonths(last.year);
    DaysBeforeYearClosed(last.year);
  }

  /** Days before April and before September in a year without 29 February. */
  lemma CommonYearMonths(y: int)
    requires !IsLeapYear(y)
    ensures DaysBeforeMonth(y, 4) == 90 && DaysBeforeMonth(y, 9) == 243
  {
    assert DaysBeforeMonth(y, 2) == 31;
    assert DaysBeforeMonth(y, 3) == 59;
    assert DaysBeforeMonth(y, 4) == 90;
    assert DaysBeforeMonth(y, 5) == 120;
    assert DaysBeforeMonth(y, 6) == 151;
    assert DaysBeforeMonth(y, 7) == 181;
    assert DaysBeforeMonth(y, 8) == 212;
  }

  /** A valid date is in the timestamp range exactly when its day number is. */
  lemma TimestampRangeDays(c: Civil)
    requires Valid(c)
    ensures InTimestampRange(c) <==> InRange(ToDayNumber(c))
  {
    TimestampBounds(FirstTimestampDate, LastTimestampDate);
    DayOrder(c, FirstTimestampDate);
    DayOrder(LastTimestampDate, c);
  }

  /** A representable day falls in a four-digit year. */
  lemma InRangeYear(n: int)
    requires InRange(n)
    ensures 0 <= n && FromDayNumber(n).year <= 9999
  {
    InRangeMeans(n);
  }

  /** The representable day numbers are those of the dates in the timestamp range. */
  lemma InRangeMeans(n: int)
    ensures InRange(n) <==> 0 <= n && InTimestampRange(FromDayNumber(n))
  {
    if 0 <= n {
      TimestampRangeDays(FromDayNumber(n));
    }
  }

  // ---------------------------------------------------------------------
  // Moments: `datetime.today()` carries a time of day.

  const MicrosPerDay := 86_400_000_000

  type TimeOfDay = t: int | 0 <= t < MicrosPerDay

  /** A moment: day number plus microseconds since that day's midnight. */
  datatype Moment = Moment(day: Day, micros: TimeOfDay)

  /** A stored date denotes the midnight that starts it. */
  function Midnight(d: Day): Moment { Moment(d, 0) }

  /** Microseconds since 01-01-0001 00:00. */
  function Stamp(m: Moment): int { m.day * MicrosPerDay + m.micros }

  /** `(expiry - now).days`: whole days of a timedelta, rounded down as
      Python's `timedelta` normalises them. */
  function WholeDaysUntil(expiry: Day, now: Moment): (k: int)
    ensures k == expiry - now.day - (if now.micros == 0 then 0 else 1)
  {
    var delta := Stamp(Midnight(expiry)) - Stamp(now);
    if now.micros == 0 then
      assert delta == (expiry - now.day) * MicrosPerDay;
      delta / MicrosPerDay
    else
      assert delta == (expiry - now.day - 1) * MicrosPerDay + (MicrosPerDay - now.micros);
      delta / MicrosPerDay
  }

  /** `expiry >= now` with `expiry` at midnight: after midnight of day T this
      holds exactly when the expiry day is after T. */
  lemma NotPastAfterMidnight(expiry: Day, now: Moment)
    requires now.micros > 0
    ensures Stamp(Midnight(expiry)) >= Stamp(now) <==> expiry > now.day
  {
  }
}
