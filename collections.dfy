/** The collections report: the date range a chosen period stands for, the
    quarter it opens on, and the total of the payments the range selects.
    Days are day numbers counted from 1970-01-01; the browser's time zone is
    taken to be UTC. */
module Collections {
  import opened Wrappers
  import opened Seqs
  import opened JsText
  import opened JsNumber
  import opened Calendar
  import opened Records
  import opened Applicability

  /** The report's period selector. */
  datatype Period = Daily | Weekly | Monthly | Quarterly | Yearly

  /** `[startDate, endDate]` as the query receives them. */
  datatype DateRange = DateRange(startDate: string, endDate: string)

  // Reading and writing dates

  /** Every character of `s[lo..hi]` is a decimal digit. */
  predicate DigitsAt(s: string, lo: nat, hi: nat)
    requires lo <= hi <= |s|
  {
    forall i :: lo <= i < hi ==> IsDigit(s[i])
  }

  /** `new Date(s)` for the `YYYY-MM-DD` text of a date input: the day it
      names, or `None` (an invalid date) for anything else, such as the empty
      text of a cleared input. */
  function DateInputDay(s: string): (r: Option<int>)
    ensures r.Some? ==> |s| == 10 && s[4] == '-' && s[7] == '-'
  {
    if |s| != 10 || s[4] != '-' || s[7] != '-' || !DigitsAt(s, 0, 4) || !DigitsAt(s, 5, 7) || !DigitsAt(s, 8, 10) then None
    else
      var y, m, d := DigitsValue(s[..4], 10), DigitsValue(s[5..7], 10), DigitsValue(s[8..], 10);
      if 1 <= m <= 12 && 1 <= d <= MonthLength(y, m) then Some(DaysFromCivil(y, m, d)) else None
  }

  /** The year as `toISOString` writes it: four digits for years 0..9999,
      otherwise a sign and six digits. */
  function IsoYear(y: int): string {
    if 0 <= y <= 9999 then PadStart(ShowNat(y), 4, '0')
    else (if y < 0 then "-" else "+") + PadStart(ShowNat(if y < 0 then -y else y), 6, '0')
  }

  /** `new Date(day).toISOString().split('T')[0]`: the `YYYY-MM-DD` text of a
      day number. */
  function IsoText(n: int): string {
    var c := CivilOf(n);
    IsoYear(c.0) + "-" + Pad2(c.1) + "-" + Pad2(c.2)
  }

  /** A numeral of a number from 1000 on has at least four digits. */
  lemma {:induction false} ShowNatDigits(n: nat)
    ensures |ShowNat(n)| >= 1 + (if n >= 10 then 1 else 0) + (if n >= 100 then 1 else 0) + (if n >= 1000 then 1 else 0)
    decreases n
  {
    if n >= 10 {
      ShowNatDigits(n / 10);
    }
  }

  /** The text of a day in the years 1000..9999 reads back, as the ledger
      pages read dates, as that day. */
  lemma IsoTextReadsBack(n: int)
    requires 1000 <= CivilOf(n).0 <= 9999
    ensures ParseDateStrict(IsoText(n)) == Some(n)
    ensures ParseDateLoose(IsoText(n)) == Some(n)
  {
    var c := CivilOf(n);
    CivilOfDay(n);
    ShowNatDigits(c.0);
    assert IsoText(n) == IsoDate(c.0, c.1, c.2);
    ParseIsoDate(c.0, c.1, c.2);
  }

  // The periods

  /** `getDay()`: 0 for Sunday to 6 for Saturday; day 0 was a Thursday. */
  function Weekday(n: int): (r: int)
    ensures 0 <= r < 7
  {
    (n + 4) % 7
  }

  /** The weekly report's first day: the Monday of the week running from
      Monday to Sunday that holds day `n` (so a Sunday goes back six days). */
  function WeekStart(n: int): int {
    var dayOfWeek := Weekday(n);
    n - dayOfWeek + (if dayOfWeek == 0 then -6 else 1)
  }

  /** The week's first day is a Monday, holds `n` within its seven days, and
      lies six days back from a Sunday. */
  lemma WeekStartMeaning(n: int)
    ensures Weekday(WeekStart(n)) == 1
    ensures WeekStart(n) <= n <= WeekStart(n) + 6
    ensures Weekday(n) == 0 ==> WeekStart(n) == n - 6
  {
    var dayOfWeek := Weekday(n);
    var q := (n + 4) / 7;
    assert n + 4 == 7 * q + dayOfWeek;
    assert WeekStart(n) + 4 == 7 * (if dayOfWeek == 0 then q - 1 else q) + 1;
  }

  /** The weekly range: from the Monday of the selected day's week to the
      Sunday six days later; `None` when the selected text is not a date, on
      which `toISOString` throws. */
  function WeekRange(selectedDate: string): Option<DateRange> {
    match DateInputDay(selectedDate)
    case None => None
    case Some(n) => Some(WeekFrom(WeekStart(n)))
  }

  /** The texts of a Monday and of the Sunday six days on. */
  function WeekFrom(monday: int): DateRange {
    DateRange(IsoText(monday), IsoText(monday + 6))
  }

  /** The monthly range: `Y-MM-01` to `Y-MM-<last day of the month>`. */
  function MonthRange(selectedYear: int, selectedMonth: int): DateRange {
    var mm := PadStart(ShowInt(selectedMonth), 2, '0');
    DateRange(ShowInt(selectedYear) + "-" + mm + "-01",
              ShowInt(selectedYear) + "-" + mm + "-" + Pad2(DaysInMonth(selectedMonth - 1, selectedYear)))
  }

  /** The quarterly range: from the first day of month `(q - 1) * 3 + 1` to
      the last day of the month two later. */
  function QuarterRange(selectedYear: int, selectedQuarter: int): DateRange
    requires 1 <= selectedQuarter <= 4
  {
    var quarterStartMonth := (selectedQuarter - 1) * 3 + 1;
    var quarterEndMonth := quarterStartMonth + 2;
    DateRange(ShowInt(selectedYear) + "-" + Pad2(quarterStartMonth) + "-01",
              ShowInt(selectedYear) + "-" + Pad2(quarterEndMonth) + "-" + Pad2(DaysInMonth(quarterEndMonth - 1, selectedYear)))
  }

  /** The yearly range: `Y-01-01` to `Y-12-31`. */
  function YearRange(selectedYear: int): DateRange {
    DateRange(ShowInt(selectedYear) + "-01-01", ShowInt(selectedYear) + "-12-31")
  }

  /** The weekly case of `fetchCollections`' switch once the selected day is
      known: the texts of its week's Monday and of the Sunday six days on. */
  method WeekOf(selectedDay: int) returns (r: DateRange)
    ensures r == WeekFrom(WeekStart(selectedDay))
  {
    var monday := WeekStart(selectedDay);
    var sunday := monday + 6;
    r := DateRange(IsoText(monday), IsoText(sunday));
  }

  /** `fetchCollections`' switch: the range of the chosen period, or `None`
      when the weekly case throws on a selected text that is not a date. The
      switch runs before the `try` block, so that throw escapes the handler:
      no query is made, the previous total stays on screen and the loading
      flag stays set. */
  method PeriodRange(timePeriod: Period, selectedDate: string, selectedMonth: int, selectedYear: int, selectedQuarter: int)
    returns (r: Option<DateRange>)
    requires 1 <= selectedQuarter <= 4
    ensures timePeriod == Daily ==> r == Some(DateRange(selectedDate, selectedDate))
    ensures timePeriod == Weekly ==> r == WeekRange(selectedDate)
    ensures timePeriod == Monthly ==> r == Some(MonthRange(selectedYear, selectedMonth))
    ensures timePeriod == Quarterly ==> r == Some(QuarterRange(selectedYear, selectedQuarter))
    ensures timePeriod == Yearly ==> r == Some(YearRange(selectedYear))
  {
    var startDate: string, endDate: string;
    match timePeriod {
      case Daily =>
        startDate := selectedDate;
        endDate := selectedDate;
      case Weekly =>
        var selectedDay := DateInputDay(selectedDate);
        if selectedDay.None? {
          return None;
        }
        var week := WeekOf(selectedDay.value);
        startDate := week.startDate;
        endDate := week.endDate;
      case Monthly =>
        var mm := PadStart(ShowInt(selectedMonth), 2, '0');
        startDate := ShowInt(selectedYear) + "-" + mm + "-01";
        var lastDayOfMonth := DaysInMonth(selectedMonth - 1, selectedYear);
        endDate := ShowInt(selectedYear) + "-" + mm + "-" + Pad2(lastDayOfMonth);
      case Quarterly =>
        var quarterStartMonth := (selectedQuarter - 1) * 3 + 1;
        startDate := ShowInt(selectedYear) + "-" + Pad2(quarterStartMonth) + "-01";
        var quarterEndMonth := quarterStartMonth + 2;
        var lastDayOfQuarterMonth := DaysInMonth(quarterEndMonth - 1, selectedYear);
        endDate := ShowInt(selectedYear) + "-" + Pad2(quarterEndMonth) + "-" + Pad2(lastDayOfQuarterMonth);
      case Yearly =>
        startDate := ShowInt(selectedYear) + "-01-01";
        endDate := ShowInt(selectedYear) + "-12-31";
    }
    r := Some(DateRange(startDate, endDate));
  }

  /** The days a range's texts name, read as the ledger pages read dates. */
  function RangeDays(r: DateRange): Option<(int, int)> {
    var a, b := ParseDateStrict(r.startDate), ParseDateStrict(r.endDate);
    if a.Some? && b.Some? then Some((a.value, b.value)) else None
  }

  /** The weekly range runs from a Monday to the Sunday six days on and holds
      the selected day; its texts read back as those days. */
  lemma WeekRangeMeaning(selectedDate: string)
    requires DateInputDay(selectedDate).Some?
    requires 1000 <= CivilOf(WeekStart(DateInputDay(selectedDate).value)).0
    requires CivilOf(WeekStart(DateInputDay(selectedDate).value) + 6).0 <= 9999
    ensures var n := DateInputDay(selectedDate).value;
            RangeDays(WeekRange(selectedDate).value) == Some((WeekStart(n), WeekStart(n) + 6))
            && Weekday(WeekStart(n)) == 1 && WeekStart(n) <= n <= WeekStart(n) + 6
  {
    var n := DateInputDay(selectedDate).value;
    WeekStartMeaning(n);
    assert WeekRange(selectedDate).value == WeekFrom(WeekStart(n));
    WeekFromReads(WeekStart(n));
  }

  /** The texts of a week from a Monday of the years 1000..9999 read back as
      that Monday and the Sunday six days on. */
  lemma WeekFromReads(monday: int)
    requires 1000 <= CivilOf(monday).0 && CivilOf(monday + 6).0 <= 9999
    ensures RangeDays(WeekFrom(monday)) == Some((monday, monday + 6))
  {
    YearOrder(monday, monday + 6);
    IsoTextReadsBack(monday);
    IsoTextReadsBack(monday + 6);
  }

  /** Later days fall in the same or a later year. */
  lemma YearOrder(a: int, b: int)
    requires a <= b
    ensures CivilOf(a).0 <= CivilOf(b).0
  {
    var ca, cb := CivilOf(a), CivilOf(b);
    CivilOfDay(a);
    CivilOfDay(b);
    if cb.0 < ca.0 {
      YearEndBound(cb.0, cb.1, cb.2);
      YearsAdvance(cb.0 + 1, ca.0);
      YearStartBound(ca.0, ca.1, ca.2);
      assert false;
    }
  }

  /** A real calendar day lies before the first day of the next year. */
  lemma YearEndBound(y: int, m: int, d: int)
    requires ValidCivil((y, m, d))
    ensures DaysFromCivil(y, m, d) < DaysFromCivil(y + 1, 1, 1)
  {
    DayOffset(y, m, d);
    DayOffset(y, 12, 31);
    NextYear(y);
    MonthsAdvance(y, m);
  }

  /** A real calendar day lies on or after the first day of its year. */
  lemma YearStartBound(y: int, m: int, d: int)
    requires ValidCivil((y, m, d))
    ensures DaysFromCivil(y, 1, 1) <= DaysFromCivil(y, m, d)
  {
    DayOffset(y, m, d);
    MonthsAdvance(y, m);
  }

  /** The first of month `m` lies between the first of January and the first
      of December. */
  lemma {:induction false} MonthsAdvance(y: int, m: int)
    requires 1 <= m <= 12
    ensures DaysFromCivil(y, 1, 1) <= DaysFromCivil(y, m, 1) <= DaysFromCivil(y, 12, 1)
    decreases m
  {
    if m > 1 {
      MonthsAdvance(y, m - 1);
      NextMonth(y, m - 1);
    }
    if m < 12 {
      MonthsUpward(y, m);
    }
  }

  /** The first of month `m` lies on or before the first of December. */
  lemma {:induction false} MonthsUpward(y: int, m: int)
    requires 1 <= m <= 12
    ensures DaysFromCivil(y, m, 1) <= DaysFromCivil(y, 12, 1)
    decreases 12 - m
  {
    if m < 12 {
      NextMonth(y, m);
      MonthsUpward(y, m + 1);
    }
  }

  /** New Year's Day moves forward from year to year. */
  lemma {:induction false} YearsAdvance(a: int, b: int)
    requires a <= b
    ensures DaysFromCivil(a, 1, 1) <= DaysFromCivil(b, 1, 1)
    decreases b - a
  {
    if a < b {
      YearsAdvance(a, b - 1);
      MonthsUpward(b - 1, 1);
      NextYear(b - 1);
    }
  }

  /** The first of month `a` lies on or before the first of a later month `b`
      of the same year. */
  lemma {:induction false} MonthsBetween(y: int, a: int, b: int)
    requires 1 <= a <= b <= 12
    ensures DaysFromCivil(y, a, 1) <= DaysFromCivil(y, b, 1)
    decreases b - a
  {
    if a < b {
      MonthsBetween(y, a, b - 1);
      NextMonth(y, b - 1);
    }
  }

  /** A day of month `m` lies within the span from the first of month `a` to
      the last day of month `b`, for `a <= m <= b`. */
  lemma DayWithinMonths(y: int, a: int, m: int, d: int, b: int)
    requires 1 <= a <= m <= b <= 12 && 1 <= d <= MonthLength(y, m)
    ensures DaysFromCivil(y, a, 1) <= DaysFromCivil(y, m, d) <= DaysFromCivil(y, b, MonthLength(y, b))
  {
    MonthsBetween(y, a, m);
    DayOffset(y, m, d);
    DayOffset(y, b, MonthLength(y, b));
    if m < b {
      NextMonth(y, m);
      MonthsBetween(y, m + 1, b);
    }
  }

  /** The texts a date of years 1000..9999 is written in by the monthly,
      quarterly and yearly ranges. */
  lemma RangeTextIsIsoDate(y: int, m: int, d: int)
    requires 1000 <= y <= 9999 && 1 <= m <= 12 && 1 <= d <= 31
    ensures ShowInt(y) + "-" + PadStart(ShowInt(m), 2, '0') + "-" + Pad2(d) == IsoDate(y, m, d)
    ensures d == 1 ==> ShowInt(y) + "-" + PadStart(ShowInt(m), 2, '0') + "-01" == IsoDate(y, m, d)
  {
    assert Pad2(1) == "01";
    var a := ShowInt(y) + "-" + PadStart(ShowInt(m), 2, '0');
    assert a + "-01" == a + "-" + "01";
  }

  /** A range whose two texts read as days `a` and `b` reads as the span
      from `a` to `b`. */
  lemma RangeReads(r: DateRange, a: int, b: int)
    requires ParseDateStrict(r.startDate) == Some(a) && ParseDateStrict(r.endDate) == Some(b)
    ensures RangeDays(r) == Some((a, b))
  {
  }

  /** Two stored dates of one year in 1000..9999 read as the days they name. */
  lemma IsoRangeReads(y: nat, m1: nat, d1: nat, m2: nat, d2: nat)
    requires 1000 <= y <= 9999 && 1 <= m1 <= 12 && 1 <= d1 <= 31 && 1 <= m2 <= 12 && 1 <= d2 <= 31
    ensures RangeDays(DateRange(IsoDate(y, m1, d1), IsoDate(y, m2, d2)))
            == Some((DaysFromCivil(y, m1, d1), DaysFromCivil(y, m2, d2)))
  {
    ParseIsoDate(y, m1, d1);
    ParseIsoDate(y, m2, d2);
    RangeReads(DateRange(IsoDate(y, m1, d1), IsoDate(y, m2, d2)), DaysFromCivil(y, m1, d1), DaysFromCivil(y, m2, d2));
  }

  /** A month's range holds the stored texts of its first and last day. */
  lemma MonthRangeTexts(y: int, m: int)
    requires 1000 <= y <= 9999 && 1 <= m <= 12
    ensures MonthRange(y, m) == DateRange(IsoDate(y, m, 1), IsoDate(y, m, MonthLength(y, m)))
  {
    assert DaysInMonth(m - 1, y) == MonthLength(y, m);
    RangeTextIsIsoDate(y, m, 1);
    RangeTextIsIsoDate(y, m, MonthLength(y, m));
  }

  /** A month's first day is not after its last, and the day after its last
      is the first of the next month. */
  lemma MonthSpan(y: int, m: int)
    requires 1 <= m <= 12
    ensures DaysFromCivil(y, m, 1) <= DaysFromCivil(y, m, MonthLength(y, m))
    ensures DaysFromCivil(y, m, MonthLength(y, m)) + 1
            == (if m < 12 then DaysFromCivil(y, m + 1, 1) else DaysFromCivil(y + 1, 1, 1))
  {
    DayOffset(y, m, MonthLength(y, m));
    if m < 12 {
      NextMonth(y, m);
    } else {
      NextYear(y);
    }
  }

  /** In years 1000..9999 a month's range reads back as its first and last
      day, the first not after the last; the day after the last is the
      first of the next month. */
  lemma MonthRangeMeaning(selectedYear: int, selectedMonth: int)
    requires 1000 <= selectedYear <= 9999 && 1 <= selectedMonth <= 12
    ensures var last := MonthLength(selectedYear, selectedMonth);
            RangeDays(MonthRange(selectedYear, selectedMonth))
            == Some((DaysFromCivil(selectedYear, selectedMonth, 1), DaysFromCivil(selectedYear, selectedMonth, last)))
            && DaysFromCivil(selectedYear, selectedMonth, 1) <= DaysFromCivil(selectedYear, selectedMonth, last)
            && DaysFromCivil(selectedYear, selectedMonth, last) + 1
               == (if selectedMonth < 12 then DaysFromCivil(selectedYear, selectedMonth + 1, 1)
                   else DaysFromCivil(selectedYear + 1, 1, 1))
  {
    MonthRangeTexts(selectedYear, selectedMonth);
    IsoRangeReads(selectedYear, selectedMonth, 1, selectedMonth, MonthLength(selectedYear, selectedMonth));
    MonthSpan(selectedYear, selectedMonth);
  }

  /** A quarter's range starts as the monthly range of its first month does
      and ends as that of its last month does. */
  lemma QuarterIsMonths(selectedYear: int, selectedQuarter: int)
    requires 1 <= selectedQuarter <= 4
    ensures QuarterRange(selectedYear, selectedQuarter).startDate
            == MonthRange(selectedYear, 3 * selectedQuarter - 2).startDate
    ensures QuarterRange(selectedYear, selectedQuarter).endDate
            == MonthRange(selectedYear, 3 * selectedQuarter).endDate
  {
    var y := ShowInt(selectedYear);
    var first, last := 3 * selectedQuarter - 2, 3 * selectedQuarter;
    assert PadStart(ShowInt(first), 2, '0') == Pad2(first);
    assert PadStart(ShowInt(last), 2, '0') == Pad2(last);
    assert y + "-" + Pad2(first) + "-01" == MonthRange(selectedYear, first).startDate;
  }

  /** A quarter's range holds the stored texts of its first month's first day
      and its last month's last day. */
  lemma QuarterRangeTexts(y: int, q: int, first: int, last: int)
    requires 1000 <= y <= 9999 && 1 <= q <= 4 && first == 3 * q - 2 && last == 3 * q
    ensures QuarterRange(y, q) == DateRange(IsoDate(y, first, 1), IsoDate(y, last, MonthLength(y, last)))
  {
    QuarterIsMonths(y, q);
    MonthRangeTexts(y, first);
    MonthRangeTexts(y, last);
  }

  /** In years 1000..9999 a quarter's range reads back as the first day of its
      first month and the last day of its last month. */
  lemma QuarterDays(selectedYear: int, selectedQuarter: int)
    requires 1000 <= selectedYear <= 9999 && 1 <= selectedQuarter <= 4
    ensures var last := 3 * selectedQuarter;
            RangeDays(QuarterRange(selectedYear, selectedQuarter))
            == Some((DaysFromCivil(selectedYear, last - 2, 1), DaysFromCivil(selectedYear, last, MonthLength(selectedYear, last))))
  {
    QuarterSpanDays(selectedYear, selectedQuarter, 3 * selectedQuarter - 2, 3 * selectedQuarter);
  }

  /** Quarter `q`, from month `first` to month `last`, reads back as the days
      from the first of `first` to the last day of `last`. */
  lemma QuarterSpanDays(y: int, q: int, first: int, last: int)
    requires 1000 <= y <= 9999 && 1 <= q <= 4 && first == 3 * q - 2 && last == 3 * q
    ensures RangeDays(QuarterRange(y, q)) == Some((DaysFromCivil(y, first, 1), DaysFromCivil(y, last, MonthLength(y, last))))
  {
    QuarterRangeTexts(y, q, first, last);
    IsoRangeReads(y, first, 1, last, MonthLength(y, last));
  }

  /** Regrouping a date text after its year. */
  lemma DateTail(a: string, b: string, c: string, d: string, e: string)
    ensures a + b + c + d + e == a + (b + c + d + e)
  {
  }

  /** A date written as year and a fixed tail is the stored text of the date
      that tail names. */
  lemma FixedTail(y: int, m: nat, d: nat, tail: string)
    requires 1000 <= y <= 9999 && tail == "-" + Pad2(m) + "-" + Pad2(d)
    ensures ShowInt(y) + tail == IsoDate(y, m, d)
  {
    DateTail(ShowNat(y), "-", Pad2(m), "-", Pad2(d));
  }

  /** The yearly range holds the stored texts of 1 January and 31 December. */
  lemma YearRangeTexts(y: int)
    requires 1000 <= y <= 9999
    ensures YearRange(y) == DateRange(IsoDate(y, 1, 1), IsoDate(y, 12, 31))
  {
    YearEndTails();
    FixedTail(y, 1, 1, "-01-01");
    FixedTail(y, 12, 31, "-12-31");
  }

  /** The fixed month-and-day suffixes of the year's first and last days. */
  lemma YearEndTails()
    ensures "-" + Pad2(1) + "-" + Pad2(1) == "-01-01"
    ensures "-" + Pad2(12) + "-" + Pad2(31) == "-12-31"
  {
    assert Pad2(1) == "01" && Pad2(12) == "12" && Pad2(31) == "31";
    assert "-" + "01" + "-" + "01" == "-01-01";
    assert "-" + "12" + "-" + "31" == "-12-31";
  }

  /** In years 1000..9999 the yearly range reads back as 1 January to
      31 December. */
  lemma YearRangeDays(selectedYear: int)
    requires 1000 <= selectedYear <= 9999
    ensures RangeDays(YearRange(selectedYear)) == Some((DaysFromCivil(selectedYear, 1, 1), DaysFromCivil(selectedYear, 12, 31)))
  {
    YearRangeTexts(selectedYear);
    IsoRangeReads(selectedYear, 1, 1, 12, 31);
  }

  /** A quarter's range, in years 1000..9999, reads back as a span whose start
      is not after its end. */
  lemma QuarterOrdered(selectedYear: int, q: int)
    requires 1000 <= selectedYear <= 9999 && 1 <= q <= 4
    ensures RangeDays(QuarterRange(selectedYear, q))
            == Some((DaysFromCivil(selectedYear, 3 * q - 2, 1), DaysFromCivil(selectedYear, 3 * q, MonthLength(selectedYear, 3 * q))))
    ensures DaysFromCivil(selectedYear, 3 * q - 2, 1) <= DaysFromCivil(selectedYear, 3 * q, MonthLength(selectedYear, 3 * q))
  {
    QuarterDays(selectedYear, q);
    DayWithinMonths(selectedYear, 3 * q - 2, 3 * q - 2, 1, 3 * q);
  }

  /** The day after a quarter's last day is the first day of the next one. */
  lemma QuarterEndsBeforeNext(y: int, q: int)
    requires 1 <= q < 4
    ensures DaysFromCivil(y, 3 * q, MonthLength(y, 3 * q)) + 1 == DaysFromCivil(y, 3 * q + 1, 1)
  {
    DayOffset(y, 3 * q, MonthLength(y, 3 * q));
    NextMonth(y, 3 * q);
  }

  /** In years 1000..9999 the four quarters tile the year: the first starts on
      1 January, each ends the day before the next starts, the last ends on
      31 December, each starts no later than it ends, and the yearly range is
      1 January to 31 December. */
  lemma QuartersTileYear(selectedYear: int)
    requires 1000 <= selectedYear <= 9999
    ensures RangeDays(YearRange(selectedYear)) == Some((DaysFromCivil(selectedYear, 1, 1), DaysFromCivil(selectedYear, 12, 31)))
    ensures forall q :: 1 <= q <= 4 ==> RangeDays(QuarterRange(selectedYear, q)).Some?
    ensures RangeDays(QuarterRange(selectedYear, 1)).value.0 == DaysFromCivil(selectedYear, 1, 1)
    ensures forall q :: 1 <= q < 4 ==>
              RangeDays(QuarterRange(selectedYear, q)).value.1 + 1 == RangeDays(QuarterRange(selectedYear, q + 1)).value.0
    ensures RangeDays(QuarterRange(selectedYear, 4)).value.1 == DaysFromCivil(selectedYear, 12, 31)
    ensures forall q :: 1 <= q <= 4 ==> RangeDays(QuarterRange(selectedYear, q)).value.0 <= RangeDays(QuarterRange(selectedYear, q)).value.1
  {
    YearRangeDays(selectedYear);
    forall q | 1 <= q <= 4
      ensures RangeDays(QuarterRange(selectedYear, q)).Some?
      ensures RangeDays(QuarterRange(selectedYear, q)).value.0 <= RangeDays(QuarterRange(selectedYear, q)).value.1
    {
      QuarterNonEmpty(selectedYear, q);
    }
    QuarterStartDay(selectedYear, 1, 1);
    QuarterEndDay(selectedYear, 4, 12);
    forall q | 1 <= q < 4
      ensures RangeDays(QuarterRange(selectedYear, q)).value.1 + 1 == RangeDays(QuarterRange(selectedYear, q + 1)).value.0
    {
      QuarterMeetsNext(selectedYear, q);
    }
  }

  /** Quarter `q` reads back as a range that starts no later than it ends. */
  lemma QuarterNonEmpty(y: int, q: int)
    requires 1000 <= y <= 9999 && 1 <= q <= 4
    ensures var r := RangeDays(QuarterRange(y, q)); r.Some? && r.value.0 <= r.value.1
  {
    QuarterOrdered(y, q);
  }

  /** Quarter `q`, whose first month is `first`, starts on the first of that month. */
  lemma QuarterStartDay(y: int, q: int, first: int)
    requires 1000 <= y <= 9999 && 1 <= q <= 4 && first == 3 * q - 2
    ensures RangeDays(QuarterRange(y, q)).Some? && RangeDays(QuarterRange(y, q)).value.0 == DaysFromCivil(y, first, 1)
  {
    QuarterOrdered(y, q);
  }

  /** Quarter `q`, whose last month is `last`, ends on the last day of that month. */
  lemma QuarterEndDay(y: int, q: int, last: int)
    requires 1000 <= y <= 9999 && 1 <= q <= 4 && last == 3 * q
    ensures RangeDays(QuarterRange(y, q)).Some?
            && RangeDays(QuarterRange(y, q)).value.1 == DaysFromCivil(y, last, MonthLength(y, last))
  {
    QuarterOrdered(y, q);
  }

  /** Quarter `q` ends the day before quarter `q + 1` starts. */
  lemma QuarterMeetsNext(y: int, q: int)
    requires 1000 <= y <= 9999 && 1 <= q < 4
    ensures var cur, next := RangeDays(QuarterRange(y, q)), RangeDays(QuarterRange(y, q + 1));
            cur.Some? && next.Some? && cur.value.1 + 1 == next.value.0
  {
    var last := 3 * q;
    QuarterSpanDays(y, q, last - 2, last);
    QuarterSpanDays(y, q + 1, last + 1, last + 3);
    DayOffset(y, last, MonthLength(y, last));
    NextMonth(y, last);
  }

  /** `Math.floor(month0 / 3) + 1` for the current month index: a quarter in
      1..4 whose months include the current one. */
  function DefaultQuarter(month0: int): (r: int)
    requires 0 <= month0 <= 11
    ensures 1 <= r <= 4
    ensures 3 * r - 2 <= month0 + 1 <= 3 * r
  {
    month0 / 3 + 1
  }

  /** The quarter the report opens on holds today: in years 1000..9999 today's
      day number lies in that quarter's range. */
  lemma DefaultQuarterHoldsToday(year: int, month0: int, day: int)
    requires 1000 <= year <= 9999 && 0 <= month0 <= 11 && 1 <= day <= MonthLength(year, month0 + 1)
    ensures var q := DefaultQuarter(month0);
            var days := RangeDays(QuarterRange(year, q));
            days.Some? && days.value.0 <= DaysFromCivil(year, month0 + 1, day) <= days.value.1
  {
    QuarterHoldsDay(year, DefaultQuarter(month0), month0 + 1, day);
  }

  /** A day of one of a quarter's months lies in that quarter's range. */
  lemma QuarterHoldsDay(year: int, q: int, month: int, day: int)
    requires 1000 <= year <= 9999 && 1 <= q <= 4 && 3 * q - 2 <= month <= 3 * q && 1 <= day <= MonthLength(year, month)
    ensures var days := RangeDays(QuarterRange(year, q));
            days.Some? && days.value.0 <= DaysFromCivil(year, month, day) <= days.value.1
  {
    QuarterDays(year, q);
    DayWithinMonths(year, 3 * q - 2, month, day, 3 * q);
  }

  // The payments the range selects and their total

  /** Whether a payment's date lies in the days `lo..hi`. */
  function InDays(lo: int, hi: int): Payment -> bool {
    (p: Payment) => Dated(p, lo, hi)
  }

  /** The day a payment's date names lies in `lo..hi`. */
  predicate Dated(p: Payment, lo: int, hi: int) {
    var d := ParseDateStrict(p.date);
    d.Some? && lo <= d.value <= hi
  }

  /** The rows the query returns for a range: the payments dated within it,
      or `None` (the query fails) when a bound is not a date. */
  function Fetched(payments: seq<Payment>, r: DateRange): Option<seq<Payment>> {
    var days := RangeDays(r);
    if days.None? then None else Some(Filter(payments, InDays(days.value.0, days.value.1)))
  }

  /** `totalCollectedAmount`: 0 without a school or when the query fails,
      otherwise the sum of `amount_paid` over the rows returned. */
  function TotalCollected(schoolId: Option<string>, fetched: Option<seq<Payment>>): (r: real)
    ensures !Truthy(schoolId) || fetched.None? ==> r == 0.0
    ensures Truthy(schoolId) && fetched.Some? ==> r == Sum(fetched.value, AmountOf)
  {
    if !Truthy(schoolId) then 0.0
    else match fetched
      case None => 0.0
      case Some(data) => Sum(data, AmountOf)
  }

  /** Splitting a span of days in two splits the total of the payments in it. */
  lemma CollectedSplits(payments: seq<Payment>, lo: int, mid: int, hi: int)
    requires lo <= mid + 1 && mid <= hi
    ensures Sum(Filter(payments, InDays(lo, hi)), AmountOf)
            == Sum(Filter(payments, InDays(lo, mid)), AmountOf) + Sum(Filter(payments, InDays(mid + 1, hi)), AmountOf)
  {
    forall i | 0 <= i < |payments|
      ensures (InDays(lo, hi)(payments[i]) <==> InDays(lo, mid)(payments[i]) || InDays(mid + 1, hi)(payments[i]))
              && !(InDays(lo, mid)(payments[i]) && InDays(mid + 1, hi)(payments[i]))
    {
      var p := payments[i];
      assert InDays(lo, hi)(p) == Dated(p, lo, hi);
      assert InDays(lo, mid)(p) == Dated(p, lo, mid);
      assert InDays(mid + 1, hi)(p) == Dated(p, mid + 1, hi);
    }
    SumFilterDisjoint(payments, AmountOf, InDays(lo, hi), InDays(lo, mid), InDays(mid + 1, hi));
  }

  /** The total of the rows a range fetches, when both bounds are dates. */
  lemma FetchedTotal(schoolId: Option<string>, payments: seq<Payment>, r: DateRange, lo: int, hi: int)
    requires Truthy(schoolId) && RangeDays(r) == Some((lo, hi))
    ensures TotalCollected(schoolId, Fetched(payments, r)) == Sum(Filter(payments, InDays(lo, hi)), AmountOf)
  {
  }

  /** In years 1000..9999 the year's collections are the sum of its four
      quarters' collections. */
  lemma YearIsSumOfQuarters(schoolId: Option<string>, payments: seq<Payment>, selectedYear: int)
    requires Truthy(schoolId) && 1000 <= selectedYear <= 9999
    ensures TotalCollected(schoolId, Fetched(payments, YearRange(selectedYear)))
            == TotalCollected(schoolId, Fetched(payments, QuarterRange(selectedYear, 1)))
               + TotalCollected(schoolId, Fetched(payments, QuarterRange(selectedYear, 2)))
               + TotalCollected(schoolId, Fetched(payments, QuarterRange(selectedYear, 3)))
               + TotalCollected(schoolId, Fetched(payments, QuarterRange(selectedYear, 4)))
  {
    var y := selectedYear;
    var s1, s2, s3, s4 := DaysFromCivil(y, 1, 1), DaysFromCivil(y, 4, 1), DaysFromCivil(y, 7, 1), DaysFromCivil(y, 10, 1);
    var e1, e2, e3, e4 := DaysFromCivil(y, 3, 31), DaysFromCivil(y, 6, 30), DaysFromCivil(y, 9, 30), DaysFromCivil(y, 12, 31);
    var t1 := TotalCollected(schoolId, Fetched(payments, QuarterRange(y, 1)));
    var t2 := TotalCollected(schoolId, Fetched(payments, QuarterRange(y, 2)));
    var t3 := TotalCollected(schoolId, Fetched(payments, QuarterRange(y, 3)));
    var t4 := TotalCollected(schoolId, Fetched(payments, QuarterRange(y, 4)));
    var total := TotalCollected(schoolId, Fetched(payments, YearRange(y)));
    assert total == Sum(Filter(payments, InDays(s1, e4)), AmountOf) by {
      YearRangeDays(y);
      FetchedTotal(schoolId, payments, YearRange(y), s1, e4);
    }
    assert t1 == Sum(Filter(payments, InDays(s1, e1)), AmountOf) by {
      QuarterOrdered(y, 1);
      FetchedTotal(schoolId, payments, QuarterRange(y, 1), s1, e1);
    }
    assert t2 == Sum(Filter(payments, InDays(s2, e2)), AmountOf) by {
      QuarterOrdered(y, 2);
      FetchedTotal(schoolId, payments, QuarterRange(y, 2), s2, e2);
    }
    assert t3 == Sum(Filter(payments, InDays(s3, e3)), AmountOf) by {
      QuarterOrdered(y, 3);
      FetchedTotal(schoolId, payments, QuarterRange(y, 3), s3, e3);
    }
    assert t4 == Sum(Filter(payments, InDays(s4, e4)), AmountOf) by {
      QuarterOrdered(y, 4);
      FetchedTotal(schoolId, payments, QuarterRange(y, 4), s4, e4);
    }
    assert s1 <= e1 + 1 && e1 + 1 == s2 && s2 <= e2 + 1 && e2 + 1 == s3 && s3 <= e3 + 1 && e3 + 1 == s4 && s4 <= e4 by {
      QuarterOrdered(y, 1);
      QuarterOrdered(y, 2);
      QuarterOrdered(y, 3);
      QuarterOrdered(y, 4);
      QuarterEndsBeforeNext(y, 1);
      QuarterEndsBeforeNext(y, 2);
      QuarterEndsBeforeNext(y, 3);
    }
    assert Sum(Filter(payments, InDays(s1, e4)), AmountOf)
           == Sum(Filter(payments, InDays(s1, e1)), AmountOf) + Sum(Filter(payments, InDays(s2, e2)), AmountOf)
              + Sum(Filter(payments, InDays(s3, e3)), AmountOf) + Sum(Filter(payments, InDays(s4, e4)), AmountOf) by {
      FourSpans(payments, s1, e1, s2, e2, s3, e3, s4, e4);
    }
  }

  /** Four consecutive spans of days split the total of the payments in the
      span they make up. */
  lemma FourSpans(payments: seq<Payment>, s1: int, e1: int, s2: int, e2: int, s3: int, e3: int, s4: int, e4: int)
    requires s1 <= e1 + 1 && e1 + 1 == s2 && s2 <= e2 + 1 && e2 + 1 == s3 && s3 <= e3 + 1 && e3 + 1 == s4 && s4 <= e4 + 1
    ensures Sum(Filter(payments, InDays(s1, e4)), AmountOf)
            == Sum(Filter(payments, InDays(s1, e1)), AmountOf) + Sum(Filter(payments, InDays(s2, e2)), AmountOf)
               + Sum(Filter(payments, InDays(s3, e3)), AmountOf) + Sum(Filter(payments, InDays(s4, e4)), AmountOf)
  {
    CollectedSplits(payments, s1, e1, e4);
    CollectedSplits(payments, s2, e2, e4);
    CollectedSplits(payments, s3, e3, e4);
  }
}
