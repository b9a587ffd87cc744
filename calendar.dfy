/**
 * Proleptic Gregorian calendar arithmetic on millisecond time values, as far as the chart needs it:
 * splitting a time value into (year, month, offset into the month) and putting it back together, and
 * the `setMonth(getMonth() - 6)` step that pads the left edge of the time axis.
 *
 * Months are numbered 0..11 as JavaScript's `getMonth` numbers them. Time values count milliseconds
 * from 1970-01-01T00:00 in UTC.
 */
module Calendar {

  /**
   * Milliseconds per day. The arithmetic below writes this and two other numbers as literals, which
   * keeps the solver's arithmetic linear: 719528 is the number of days from 0000-01-01 to
   * 1970-01-01, and 146097 the number of days in a 400-year cycle of the calendar.
   */
  const DayMs: int := 86_400_000

  /** A month of a year; `month` is 0 for January through 11 for December. */
  datatype YearMonth = YearMonth(year: int, month: int)

  predicate ValidMonth(ym: YearMonth) {
    0 <= ym.month < 12
  }

  /** Months counted from January of year 0. */
  function MonthIndex(ym: YearMonth): int {
    12 * ym.year + ym.month
  }

  /** Valid months with the same index are the same month. */
  lemma MonthIndexInjective(a: YearMonth, b: YearMonth)
    requires ValidMonth(a) && ValidMonth(b) && MonthIndex(a) == MonthIndex(b)
    ensures a == b
  {
    assert a.year < b.year ==> 12 * a.year + 12 <= 12 * b.year;
    assert b.year < a.year ==> 12 * b.year + 12 <= 12 * a.year;
  }

  function NextMonth(ym: YearMonth): (r: YearMonth)
    requires ValidMonth(ym)
    ensures ValidMonth(r) && MonthIndex(r) == MonthIndex(ym) + 1
  {
    if ym.month == 11 then YearMonth(ym.year + 1, 0) else YearMonth(ym.year, ym.month + 1)
  }

  predicate IsLeapYear(y: int) {
    y % 4 == 0 && (y % 100 != 0 || y % 400 == 0)
  }

  function DaysInMonth(ym: YearMonth): (n: int)
    requires ValidMonth(ym)
    ensures 28 <= n <= 31
  {
    var m := ym.month;
    if m == 1 then (if IsLeapYear(ym.year) then 29 else 28)
    else if m == 3 || m == 5 || m == 8 || m == 10 then 30
    else 31
  }

  /** Days from 0000-01-01 to January 1 of year `y` (negative for years before 0). */
  function DaysBeforeYear(y: int): int {
    365 * y + (y + 3) / 4 - (y + 99) / 100 + (y + 399) / 400
  }

  /** Days from January 1 to the first day of the month. */
  function DaysBeforeMonth(ym: YearMonth): int
    requires ValidMonth(ym)
    decreases ym.month
  {
    if ym.month == 0 then 0
    else
      var prev := YearMonth(ym.year, ym.month - 1);
      DaysBeforeMonth(prev) + DaysInMonth(prev)
  }

  lemma DaysBeforeDecember(y: int)
    ensures DaysBeforeMonth(YearMonth(y, 11)) == 334 + if IsLeapYear(y) then 1 else 0
  {
    var leap := if IsLeapYear(y) then 1 else 0;
    assert DaysBeforeMonth(YearMonth(y, 1)) == 31;
    assert DaysBeforeMonth(YearMonth(y, 2)) == 59 + leap;
    assert DaysBeforeMonth(YearMonth(y, 3)) == 90 + leap;
    assert DaysBeforeMonth(YearMonth(y, 4)) == 120 + leap;
    assert DaysBeforeMonth(YearMonth(y, 5)) == 151 + leap;
    assert DaysBeforeMonth(YearMonth(y, 6)) == 181 + leap;
    assert DaysBeforeMonth(YearMonth(y, 7)) == 212 + leap;
    assert DaysBeforeMonth(YearMonth(y, 8)) == 243 + leap;
    assert DaysBeforeMonth(YearMonth(y, 9)) == 273 + leap;
    assert DaysBeforeMonth(YearMonth(y, 10)) == 304 + leap;
  }

  /** Days from 0000-01-01 to the first day of the month. */
  function MonthStartDay(ym: YearMonth): int
    requires ValidMonth(ym)
  {
    DaysBeforeYear(ym.year) + DaysBeforeMonth(ym)
  }

  /** Time value of the first instant of the month. */
  function MonthStartMs(ym: YearMonth): int
    requires ValidMonth(ym)
  {
    (MonthStartDay(ym) - 719528) * 86_400_000
  }

  lemma YearLength(y: int)
    ensures DaysBeforeYear(y + 1) - DaysBeforeYear(y) == if IsLeapYear(y) then 366 else 365
  {
    assert (y + 4) / 4 - (y + 3) / 4 == if y % 4 == 0 then 1 else 0;
    assert (y + 100) / 100 - (y + 99) / 100 == if y % 100 == 0 then 1 else 0;
    assert (y + 400) / 400 - (y + 399) / 400 == if y % 400 == 0 then 1 else 0;
  }

  /** Each month starts one month length after the month before it. */
  lemma MonthLength(ym: YearMonth)
    requires ValidMonth(ym)
    ensures MonthStartDay(NextMonth(ym)) - MonthStartDay(ym) == DaysInMonth(ym)
  {
    if ym.month == 11 {
      YearLength(ym.year);
      DaysBeforeDecember(ym.year);
    }
  }

  /** Month starts are strictly increasing in the month index. */
  lemma {:induction false} MonthStartIncreasing(a: YearMonth, b: YearMonth)
    requires ValidMonth(a) && ValidMonth(b)
    requires MonthIndex(a) < MonthIndex(b)
    ensures MonthStartDay(a) < MonthStartDay(b)
    decreases MonthIndex(b) - MonthIndex(a)
  {
    var p := if b.month > 0 then YearMonth(b.year, b.month - 1) else YearMonth(b.year - 1, 11);
    assert NextMonth(p) == b;
    MonthLength(p);
    if MonthIndex(a) < MonthIndex(p) {
      MonthStartIncreasing(a, p);
    } else {
      MonthIndexInjective(a, p);
    }
  }

  lemma EraYears(y: int)
    ensures DaysBeforeYear(y + 400) == DaysBeforeYear(y) + 146097
  {
    assert (y + 403) / 4 == (y + 3) / 4 + 100;
    assert (y + 499) / 100 == (y + 99) / 100 + 4;
    assert (y + 799) / 400 == (y + 399) / 400 + 1;
  }

  lemma LeapCycle(y: int)
    ensures IsLeapYear(y + 400) == IsLeapYear(y)
  {
    assert (y + 400) % 4 == y % 4;
    assert (y + 400) % 100 == y % 100;
    assert (y + 400) % 400 == y % 400;
  }

  /** The calendar repeats every 400 years, which are 146097 days. */
  lemma EraStep(y: int, m: int)
    requires 0 <= m < 12
    ensures MonthStartDay(YearMonth(y + 400, m)) == MonthStartDay(YearMonth(y, m)) + 146097
  {
    EraYears(y);
    LeapCycle(y);
    SameLeapSameMonths(y, y + 400, m);
  }

  lemma {:induction false} SameLeapSameMonths(y1: int, y2: int, m: int)
    requires 0 <= m < 12 && IsLeapYear(y1) == IsLeapYear(y2)
    ensures DaysBeforeMonth(YearMonth(y1, m)) == DaysBeforeMonth(YearMonth(y2, m))
  {
    if m > 0 {
      SameLeapSameMonths(y1, y2, m - 1);
    }
  }

  /** `e` cycles of 400 years later, the same month starts `e` times 146097 days later. */
  lemma {:induction false} EraShiftUp(y: int, m: int, e: nat, y2: int)
    requires 0 <= m < 12 && y2 == y + 400 * e
    ensures MonthStartDay(YearMonth(y2, m)) == MonthStartDay(YearMonth(y, m)) + 146097 * e
  {
    if e > 0 {
      var y1 := y2 - 400;
      EraShiftUp(y, m, e - 1, y1);
      EraStep(y1, m);
      assert y1 + 400 == y2;
    }
  }

  lemma EraShift(ym: YearMonth, e: int)
    requires ValidMonth(ym)
    ensures MonthStartDay(YearMonth(ym.year + 400 * e, ym.month)) == MonthStartDay(ym) + 146097 * e
  {
    if e >= 0 {
      EraShiftUp(ym.year, ym.month, e, ym.year + 400 * e);
    } else {
      EraShiftUp(ym.year + 400 * e, ym.month, -e, ym.year);
    }
  }

  /**
   * The month of the 400-year cycle starting at year 0 that holds day `doe` of the cycle, found by
   * walking forward from month `ym`.
   */
  function MonthOfEra(doe: int, ym: YearMonth): (r: YearMonth)
    requires ValidMonth(ym) && 0 <= ym.year < 400
    requires MonthStartDay(ym) <= doe < 146097
    ensures ValidMonth(r) && 0 <= r.year < 400
    ensures MonthStartDay(r) <= doe < MonthStartDay(NextMonth(r))
    decreases 400 - ym.year, 12 - ym.month
  {
    var n := NextMonth(ym);
    if n.year < 400 && MonthStartDay(n) <= doe then MonthOfEra(doe, n)
    else
      assert n.year == 400 ==> MonthStartDay(n) == 146097;
      ym
  }

  /** Every day number lies in some month: the one found in its 400-year cycle. */
  lemma MonthOfDayExists(day: int) returns (r: YearMonth)
    ensures ValidMonth(r)
    ensures MonthStartDay(r) <= day < MonthStartDay(NextMonth(r))
  {
    var doe := day % 146097;
    assert 0 <= doe < 146097;
    var start := CycleStart();
    var ym := MonthOfEra(doe, start);
    r := ShiftToEra(day, ym);
  }

  /** The month of the cycle holding `day % 146097`, moved into the cycle that holds `day`. */
  lemma ShiftToEra(day: int, ym: YearMonth) returns (r: YearMonth)
    requires ValidMonth(ym) && MonthStartDay(ym) <= day % 146097 < MonthStartDay(NextMonth(ym))
    ensures ValidMonth(r) && MonthStartDay(r) <= day < MonthStartDay(NextMonth(r))
  {
    var era := day / 146097;
    assert day - 146097 * era == day % 146097;
    MonthOfDayBounds(day, era, ym);
    r := YearMonth(ym.year + 400 * era, ym.month);
  }

  /** The first month of the 400-year cycle starting at year 0, which starts on day 0. */
  lemma CycleStart() returns (ym: YearMonth)
    ensures ValidMonth(ym) && 0 <= ym.year < 400 && MonthStartDay(ym) == 0
  {
    ym := YearMonth(0, 0);
  }

  lemma MonthOfDayBounds(day: int, era: int, ym: YearMonth)
    requires ValidMonth(ym) && MonthStartDay(ym) <= day - 146097 * era < MonthStartDay(NextMonth(ym))
    ensures MonthStartDay(YearMonth(ym.year + 400 * era, ym.month)) <= day
    ensures day < MonthStartDay(NextMonth(YearMonth(ym.year + 400 * era, ym.month)))
  {
    EraShift(ym, era);
    EraShift(NextMonth(ym), era);
    NextMonthShift(ym, era);
  }

  lemma NextMonthShift(ym: YearMonth, e: int)
    requires ValidMonth(ym)
    ensures NextMonth(YearMonth(ym.year + 400 * e, ym.month))
         == YearMonth(NextMonth(ym).year + 400 * e, NextMonth(ym).month)
  {
  }

  /** Every time value lies in exactly one month. */
  lemma MonthOfExists(t: int)
    ensures exists r :: InMonth(t, r)
    ensures forall a, b :: InMonth(t, a) && InMonth(t, b) ==> a == b
  {
    var r := MonthOfDayExists(t / 86_400_000 + 719528);
    DayToMs(t, r);
    assert InMonth(t, r);
    forall a, b | InMonth(t, a) && InMonth(t, b) ensures a == b {
      InMonthUnique(t, a, b);
    }
  }

  lemma DayToMs(t: int, r: YearMonth)
    requires ValidMonth(r)
    requires MonthStartDay(r) <= t / 86_400_000 + 719528 < MonthStartDay(NextMonth(r))
    ensures MonthStartMs(r) <= t < MonthStartMs(NextMonth(r))
  {
    var lo, hi := MonthStartDay(r) - 719528, MonthStartDay(NextMonth(r)) - 719528;
    assert lo * 86_400_000 <= t / 86_400_000 * 86_400_000 <= t;
    assert t < (t / 86_400_000 + 1) * 86_400_000 <= hi * 86_400_000;
  }

  /** Time value `t` lies in month `ym`. */
  predicate InMonth(t: int, ym: YearMonth) {
    ValidMonth(ym) && MonthStartMs(ym) <= t < MonthStartMs(NextMonth(ym))
  }

  lemma InMonthUnique(t: int, a: YearMonth, b: YearMonth)
    requires InMonth(t, a) && InMonth(t, b)
    ensures a == b
  {
    if MonthIndex(a) < MonthIndex(b) {
      if MonthIndex(NextMonth(a)) < MonthIndex(b) {
        MonthStartIncreasing(NextMonth(a), b);
      } else {
        MonthIndexInjective(NextMonth(a), b);
      }
      assert false;
    } else if MonthIndex(b) < MonthIndex(a) {
      if MonthIndex(NextMonth(b)) < MonthIndex(a) {
        MonthStartIncreasing(NextMonth(b), a);
      } else {
        MonthIndexInjective(NextMonth(b), a);
      }
      assert false;
    }
    MonthIndexInjective(a, b);
  }

  /** The month holding time value `t`. */
  function MonthOf(t: int): (r: YearMonth)
    ensures InMonth(t, r)
  {
    MonthOfExists(t);
    var r :| InMonth(t, r);
    r
  }

  /**
   * A point in time split as JavaScript's local-time getters split it: the year, the month (0..11)
   * and the milliseconds elapsed since the first instant of that month (day of month and time of day).
   */
  datatype CalendarTime = CalendarTime(year: int, month: int, offset: int)

  function MonthOfTime(c: CalendarTime): YearMonth {
    YearMonth(c.year, c.month)
  }

  predicate ValidCalendarTime(c: CalendarTime) {
    && ValidMonth(MonthOfTime(c))
    && 0 <= c.offset < DaysInMonth(MonthOfTime(c)) * DayMs
  }

  /**
   * The time value of a calendar time. An offset larger than its month rolls over into the
   * following months, as the `Date` constructor and setters do with an out-of-range day.
   */
  function ToMs(c: CalendarTime): int
    requires ValidMonth(MonthOfTime(c))
  {
    MonthStartMs(MonthOfTime(c)) + c.offset
  }

  /** Splits a time value into its calendar year, month and offset into the month. */
  function FromMs(t: int): (c: CalendarTime)
    ensures ValidCalendarTime(c)
    ensures ToMs(c) == t
  {
    var ym := MonthOf(t);
    MonthLength(ym);
    CalendarTime(ym.year, ym.month, t - MonthStartMs(ym))
  }

  /** A valid calendar time is the only split of its own time value. */
  lemma FromMsUnique(c: CalendarTime)
    requires ValidCalendarTime(c)
    ensures FromMs(ToMs(c)) == c
  {
    var ym := MonthOfTime(c);
    MonthLength(ym);
    InMonthUnique(ToMs(c), MonthOf(ToMs(c)), ym);
  }

  /**
   * `n` months earlier on the (year, month) pair, borrowing from the year when the month number
   * would drop below 0; the day of month and time of day are kept.
   */
  function SubtractMonths(c: CalendarTime, n: nat): (r: CalendarTime)
    requires ValidMonth(MonthOfTime(c))
    ensures ValidMonth(MonthOfTime(r))
    ensures MonthIndex(MonthOfTime(r)) == MonthIndex(MonthOfTime(c)) - n
    ensures r.offset == c.offset
  {
    CalendarTime(c.year + (c.month - n) / 12, (c.month - n) % 12, c.offset)
  }

  /** The time value six calendar months before `t`: `d.setMonth(d.getMonth() - 6)`. */
  function SixMonthsBefore(t: int): (r: int)
    ensures r < t
  {
    var c := FromMs(t);
    var b := SubtractMonths(c, 6);
    MonthStartIncreasing(MonthOfTime(b), MonthOfTime(c));
    ToMs(b)
  }

  /**
   * For any calendar time, six months before it is the same offset into the month six months
   * earlier; when that offset fits in the earlier month (15 January to 15 July, but not 31 August to
   * 31 February), the result splits back into exactly that day and time.
   */
  lemma SixMonthsBeforeRule(c: CalendarTime)
    requires ValidCalendarTime(c)
    ensures SixMonthsBefore(ToMs(c)) == ToMs(SubtractMonths(c, 6))
    ensures c.offset < DaysInMonth(MonthOfTime(SubtractMonths(c, 6))) * DayMs ==>
      FromMs(SixMonthsBefore(ToMs(c))) == SubtractMonths(c, 6)
  {
    FromMsUnique(c);
    if c.offset < DaysInMonth(MonthOfTime(SubtractMonths(c, 6))) * DayMs {
      FromMsUnique(SubtractMonths(c, 6));
    }
  }

  /** 15 January 2020 padded by six months is 15 July 2019 (both at midnight). */
  lemma SixMonthsBeforeExample()
    ensures SixMonthsBefore(ToMs(CalendarTime(2020, 0, 14 * DayMs))) == ToMs(CalendarTime(2019, 6, 14 * DayMs))
  {
    FromMsUnique(CalendarTime(2020, 0, 14 * DayMs));
  }

  /** 15 March 2021 borrows from the year: six months earlier is 15 September 2020. */
  lemma SixMonthsBeforeBorrowExample()
    ensures SixMonthsBefore(ToMs(CalendarTime(2021, 2, 14 * DayMs))) == ToMs(CalendarTime(2020, 8, 14 * DayMs))
  {
    FromMsUnique(CalendarTime(2021, 2, 14 * DayMs));
  }
}
