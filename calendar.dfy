/** The proleptic Gregorian calendar as JavaScript's `Date` uses it: day numbers
    counted from 1970-01-01, the rollover of out-of-range months and days in
    `Date.UTC(y, m, d)` and `new Date(y, m, d)`, the mapping of years 0..99 to
    1900..1999 those two apply, and the limits of the time value. */
module Calendar {
  import opened Wrappers

  /** A Gregorian leap year. */
  predicate IsLeap(y: int) {
    y % 4 == 0 && (y % 100 != 0 || y % 400 == 0)
  }

  /** The number of days of month `m` (1..12) of year `y`. */
  function MonthLength(y: int, m: int): (n: int)
    requires 1 <= m <= 12
    ensures 28 <= n <= 31
    ensures m == 2 ==> (n == 29 <==> IsLeap(y))
  {
    if m == 2 then (if IsLeap(y) then 29 else 28)
    else if m == 4 || m == 6 || m == 9 || m == 11 then 30
    else 31
  }

  /** The number of days of year `y`. */
  function YearLength(y: int): int {
    if IsLeap(y) then 366 else 365
  }

  /** The day number of 1 January of year `y`: the lengths of the years from
      1970 up to `y`, or, before 1970, minus those from `y` up to 1970. */
  function YearStart(y: int): int
    decreases if y >= 1970 then y - 1970 else 1970 - y
  {
    if y == 1970 then 0
    else if y > 1970 then YearStart(y - 1) + YearLength(y - 1)
    else YearStart(y + 1) - YearLength(y)
  }

  /** The days of year `y` before the first of month `m`. */
  function MonthStart(y: int, m: int): int
    requires 1 <= m <= 12
  {
    var before := [0, 31, 59, 90, 120, 151, 181, 212, 243, 273, 304, 334][m - 1];
    if m > 2 && IsLeap(y) then before + 1 else before
  }

  /** The day number of `y`-`m`-`d`, counted from 1970-01-01; the day of month is
      taken linearly, so `d` outside the month rolls over into its neighbours. */
  function DaysFromCivil(y: int, m: int, d: int): int
    requires 1 <= m <= 12
  {
    YearStart(y) + MonthStart(y, m) + d - 1
  }

  /** Day 0 is 1 January 1970. */
  lemma EpochIsDayZero()
    ensures DaysFromCivil(1970, 1, 1) == 0
  {
  }

  /** Each year starts one year's length after the one before. */
  lemma YearStep(y: int)
    ensures YearStart(y + 1) == YearStart(y) + YearLength(y)
  {
  }

  /** Consecutive months of one year are `MonthLength` days apart: the day
      numbers agree with the Gregorian month lengths. */
  lemma NextMonth(y: int, m: int)
    requires 1 <= m <= 11
    ensures DaysFromCivil(y, m + 1, 1) == DaysFromCivil(y, m, 1) + MonthLength(y, m)
  {
  }

  /** December 1 and the next January 1 are 31 days apart. */
  lemma NextYear(y: int)
    ensures DaysFromCivil(y + 1, 1, 1) == DaysFromCivil(y, 12, 1) + 31
  {
    YearStep(y);
  }

  /** A year's first day lies between 365 and 366 days per year away from
      1970's. */
  lemma {:induction false} YearStartBounds(y: int)
    ensures y >= 1970 ==> 365 * (y - 1970) <= YearStart(y) <= 366 * (y - 1970)
    ensures y < 1970 ==> -366 * (1970 - y) <= YearStart(y) <= -365 * (1970 - y)
    decreases if y >= 1970 then y - 1970 else 1970 - y
  {
    if y > 1970 {
      YearStartBounds(y - 1);
    } else if y < 1970 {
      YearStartBounds(y + 1);
    }
  }

  /** The year `Date.UTC` and `new Date(y, m, d)` use for the year argument `y`:
      0..99 stand for 1900..1999. */
  function FullYear(y: int): int {
    if 0 <= y <= 99 then 1900 + y else y
  }

  /** The day number of day `d` of month `m0` (January is 0) of year `y`, months
      and days outside their range rolling over as ECMAScript's MakeDay
      prescribes: `y + floor(m0 / 12)`, month `m0 mod 12`, then `d - 1` days on. */
  function MakeDay(y: int, m0: int, d: int): int {
    DaysFromCivil(y + m0 / 12, m0 % 12 + 1, 1) + d - 1
  }

  /** The largest magnitude, in days, that a JavaScript time value may have
      (8.64e15 ms); anything beyond is an invalid date. */
  const MaxTimeDays: int := 100000000

  /** `Date.UTC(y, m0, d)` divided by the length of a day, or `None` when the
      result is NaN. */
  function UtcDay(y: int, m0: int, d: int): (r: Option<int>)
    ensures r.Some? ==> -MaxTimeDays <= r.value <= MaxTimeDays
  {
    var day := MakeDay(FullYear(y), m0, d);
    if -MaxTimeDays <= day <= MaxTimeDays then Some(day) else None
  }

  /** For a year outside 0..99 and an in-range month, `Date.UTC` is the civil day
      number, provided the year is within the range dates can hold. */
  lemma UtcDayCivil(y: int, m: int, d: int)
    requires 1 <= m <= 12 && 1 <= d <= 31
    requires 100 <= y <= 200000
    ensures UtcDay(y, m - 1, d) == Some(DaysFromCivil(y, m, d))
  {
    assert (m - 1) / 12 == 0 && (m - 1) % 12 + 1 == m;
    assert MakeDay(FullYear(y), m - 1, d) == DaysFromCivil(y, m, 1) + d - 1;
    DayOffset(y, m, d);
    DaysFromCivilBounds(y, m, d);
  }

  /** Civil day numbers of years 100..200000 stay within the time-value range. */
  lemma DaysFromCivilBounds(y: int, m: int, d: int)
    requires 1 <= m <= 12 && 1 <= d <= 31
    requires 100 <= y <= 200000
    ensures -MaxTimeDays <= DaysFromCivil(y, m, d) <= MaxTimeDays
  {
    YearStartBounds(y);
  }

  /** `new Date(y, m0 + 1, 0).getDate()`: the number of days of month `m0`
      (January is 0), after the year mapping and the month rollover. This is
      the value for a date within the time-value range (`MaxTimeDays` either
      side of 1970); beyond it `new Date` is an invalid date and `getDate()`
      is NaN, which this function does not model. */
  function DaysInMonth(m0: int, y: int): (n: int)
    ensures 28 <= n <= 31
    ensures 0 <= m0 <= 11 && !(0 <= y <= 99) ==> n == MonthLength(y, m0 + 1)
  {
    MonthLength(FullYear(y) + m0 / 12, m0 % 12 + 1)
  }

  /** Day 0 of the month after `m0` is day `DaysInMonth(m0, y)` of month `m0`:
      `DaysInMonth` is the date the page's `new Date(y, m0 + 1, 0)` yields. */
  lemma DayZeroIsLastDay(m0: int, y: int)
    ensures MakeDay(FullYear(y), m0 + 1, 0) == MakeDay(FullYear(y), m0, DaysInMonth(m0, y))
  {
    var yr := FullYear(y) + m0 / 12;
    var mn := m0 % 12 + 1;
    if mn == 12 {
      assert (m0 + 1) / 12 == m0 / 12 + 1 && (m0 + 1) % 12 == 0;
      NextYear(yr);
    } else {
      assert (m0 + 1) / 12 == m0 / 12 && (m0 + 1) % 12 == m0 % 12 + 1;
      NextMonth(yr, mn);
    }
  }

  /** A real calendar day: a month 1..12 and a day within that month. */
  predicate ValidCivil(c: (int, int, int)) {
    1 <= c.1 <= 12 && 1 <= c.2 <= MonthLength(c.0, c.1)
  }

  /** Within a month, day `d` lies `d - 1` days after the first. */
  lemma DayOffset(y: int, m: int, d: int)
    requires 1 <= m <= 12
    ensures DaysFromCivil(y, m, d) == DaysFromCivil(y, m, 1) + d - 1
  {
  }

  /** The calendar day after `c`. */
  function NextDay(c: (int, int, int)): (r: (int, int, int))
    requires ValidCivil(c)
    ensures ValidCivil(r)
  {
    var (y, m, d) := c;
    if d < MonthLength(y, m) then (y, m, d + 1)
    else if m < 12 then (y, m + 1, 1)
    else (y + 1, 1, 1)
  }

  /** The day after `c` has the next day number. */
  lemma NextDayNumber(c: (int, int, int))
    requires ValidCivil(c)
    ensures var r := NextDay(c); DaysFromCivil(r.0, r.1, r.2) == DaysFromCivil(c.0, c.1, c.2) + 1
  {
    var (y, m, d) := c;
    DayOffset(y, m, d);
    if d < MonthLength(y, m) {
      DayOffset(y, m, d + 1);
    } else if m < 12 {
      NextMonth(y, m);
    } else {
      NextYear(y);
    }
  }

  /** The calendar day before `c`. */
  function PrevDay(c: (int, int, int)): (r: (int, int, int))
    requires ValidCivil(c)
    ensures ValidCivil(r)
  {
    var (y, m, d) := c;
    if d > 1 then (y, m, d - 1)
    else if m > 1 then (y, m - 1, MonthLength(y, m - 1))
    else (y - 1, 12, 31)
  }

  /** The day before `c` has the previous day number. */
  lemma PrevDayNumber(c: (int, int, int))
    requires ValidCivil(c)
    ensures var r := PrevDay(c); DaysFromCivil(r.0, r.1, r.2) + 1 == DaysFromCivil(c.0, c.1, c.2)
  {
    var (y, m, d) := c;
    DayOffset(y, m, d);
    if d > 1 {
      DayOffset(y, m, d - 1);
    } else if m > 1 {
      NextMonth(y, m - 1);
      DayOffset(y, m - 1, MonthLength(y, m - 1));
    } else {
      NextYear(y - 1);
      DayOffset(y - 1, 12, 31);
    }
  }

  /** The calendar day (year, month 1..12, day) of day number `n`, reached by
      walking one day at a time from 1 January 1970: the inverse of
      `DaysFromCivil` on real calendar days. */
  function CivilOf(n: int): (r: (int, int, int))
    ensures ValidCivil(r)
    decreases if n >= 0 then n else -n
  {
    if n == 0 then (1970, 1, 1)
    else if n > 0 then NextDay(CivilOf(n - 1))
    else PrevDay(CivilOf(n + 1))
  }

  /** `CivilOf` inverts `DaysFromCivil`: the day it finds has number `n`. */
  lemma {:induction false} CivilOfDay(n: int)
    ensures var c := CivilOf(n); DaysFromCivil(c.0, c.1, c.2) == n
    decreases if n >= 0 then n else -n
  {
    if n == 0 {
      EpochIsDayZero();
    } else if n > 0 {
      CivilOfDay(n - 1);
      CountForward(CivilOf(n - 1), CivilOf(n), n - 1);
    } else {
      CivilOfDay(n + 1);
      CountBackward(CivilOf(n + 1), CivilOf(n), n + 1);
    }
  }

  /** The day after a date numbered `k` is numbered `k + 1`. */
  lemma CountForward(c: (int, int, int), r: (int, int, int), k: int)
    requires ValidCivil(c) && r == NextDay(c) && DaysFromCivil(c.0, c.1, c.2) == k
    ensures ValidCivil(r) && DaysFromCivil(r.0, r.1, r.2) == k + 1
  {
    NextDayNumber(c);
  }

  /** The day before a date numbered `k` is numbered `k - 1`. */
  lemma CountBackward(c: (int, int, int), r: (int, int, int), k: int)
    requires ValidCivil(c) && r == PrevDay(c) && DaysFromCivil(c.0, c.1, c.2) == k
    ensures ValidCivil(r) && DaysFromCivil(r.0, r.1, r.2) == k - 1
  {
    PrevDayNumber(c);
  }
}
