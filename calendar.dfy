/**
 * Time and calendar arithmetic underneath the leave-day calculation.
 *
 * A JavaScript `Date` is an instant: a count of milliseconds since
 * 1970-01-01T00:00:00Z. The host's local clock is modelled as a fixed
 * offset from UTC (in milliseconds, positive east of Greenwich), so a
 * local calendar day is a floor division of the shifted instant.
 */
module Calendar {

  /** Milliseconds since 1970-01-01T00:00:00Z. */
  type Instant = int

  /** Days since 1970-01-01; day 0 was a Thursday. */
  type Day = int

  /** The length of a day, written as the source computes it. */
  const MsPerDay: int := 1000 * 60 * 60 * 24

  /** The local calendar day on which instant `t` falls, on a host whose clock runs `offset` ms ahead of UTC. */
  function LocalDay(t: Instant, offset: int): (d: Day)
    ensures d * MsPerDay <= t + offset < d * MsPerDay + MsPerDay
  {
    (t + offset) / MsPerDay
  }

  /** Moving an instant by whole days moves its local day by as many days. */
  lemma LocalDayShift(t: Instant, offset: int, k: int)
    ensures LocalDay(t + k * MsPerDay, offset) == LocalDay(t, offset) + k
  {
  }

  /** UTC midnight of day `d`: what `new Date("YYYY-MM-DD")` yields for a date-only string. */
  function DayStart(d: Day): (t: Instant)
    ensures LocalDay(t, 0) == d
    ensures t % MsPerDay == 0
  {
    d * MsPerDay
  }

  /** Later days start later. */
  lemma DayStartMonotone(a: Day, b: Day)
    requires a < b
    ensures DayStart(a) < DayStart(b)
  {
  }

  /** Local midnight of day `d`: what dayjs yields when it parses a date-only string. */
  function LocalMidnight(d: Day, offset: int): (t: Instant)
    ensures LocalDay(t, offset) == d
    ensures (t + offset) % MsPerDay == 0
  {
    d * MsPerDay - offset
  }

  /** Day of the week as `Date.prototype.getDay` numbers it: 0 is Sunday, 6 is Saturday. */
  function DayOfWeek(d: Day): (w: int)
    ensures 0 <= w < 7
  {
    (d + 4) % 7
  }

  /** Consecutive days have consecutive days of the week, Saturday wrapping round to Sunday. */
  lemma DayOfWeekNext(d: Day)
    ensures DayOfWeek(d + 1) == (DayOfWeek(d) + 1) % 7
  {
  }

  /** Adding a multiple of 7 does not change a remainder modulo 7. */
  lemma ModMultiple7(k: int, r: int)
    ensures (7 * k + r) % 7 == r % 7
  {
    var q, s := r / 7, r % 7;
    assert r == 7 * q + s;
    assert 7 * k + r == 7 * (k + q) + s;
  }

  /** Days of the week advance with the days, modulo seven. */
  lemma DayOfWeekAdd(d: Day, i: int)
    ensures DayOfWeek(d + i) == (DayOfWeek(d) + i) % 7
  {
    var q := (d + 4) / 7;
    assert d + 4 == 7 * q + DayOfWeek(d);
    ModMultiple7(q, DayOfWeek(d) + i);
  }

  /**
   * The day of the week of a local time, read off its position within the
   * week that started on the Thursday 1970-01-01 (or a multiple of seven
   * days before or after it).
   */
  lemma WeekPosition(local: int)
    ensures DayOfWeek(local / MsPerDay) == ((local % (7 * MsPerDay)) / MsPerDay + 4) % 7
  {
    var q, r := local / (7 * MsPerDay), local % (7 * MsPerDay);
    assert local == 7 * MsPerDay * q + r;
    var h := r / MsPerDay;
    assert 0 <= h < 7;
    assert MsPerDay * h <= r < MsPerDay * h + MsPerDay;
    assert local / MsPerDay == 7 * q + h;
    ModMultiple7(q, h + 4);
  }

  /** Saturday or Sunday. */
  predicate IsWeekendDay(d: Day)
  {
    DayOfWeek(d) == 0 || DayOfWeek(d) == 6
  }

  /**
   * The day number of a date of the proleptic Gregorian calendar
   * (days-from-civil: years are shifted to start in March so that the
   * leap day is the last day of the shifted year).
   */
  function DaysFromCivil(year: int, month: int, day: int): Day
    requires 1 <= month <= 12
  {
    var shiftedYear := if month <= 2 then year - 1 else year;
    var shiftedMonth := if month > 2 then month - 3 else month + 9;
    MarchFirst(shiftedYear) + DaysBeforeShiftedMonth(shiftedMonth) + day - 1
  }

  /** Days from 1 March to the first of the month `shiftedMonth` months later (March is 0, February 11). */
  function DaysBeforeShiftedMonth(shiftedMonth: int): int
  {
    (153 * shiftedMonth + 2) / 5
  }

  /** Day number of 1 March of year `y`, the first day of the shifted year `y`. */
  function MarchFirst(y: int): Day
  {
    (y / 400) * 146097 + EraYearStart(y % 400) - 719468
  }

  /** Days from 1 March of the first year of a 400-year era to 1 March of its year `yoe`. */
  function EraYearStart(yoe: int): int
  {
    yoe * 365 + yoe / 4 - yoe / 100
  }

  predicate IsLeapYear(year: int)
  {
    year % 4 == 0 && (year % 100 != 0 || year % 400 == 0)
  }

  function DaysInMonth(year: int, month: int): (n: int)
    requires 1 <= month <= 12
    ensures 28 <= n <= 31
  {
    if month == 2 then (if IsLeapYear(year) then 29 else 28)
    else if month == 4 || month == 6 || month == 9 || month == 11 then 30
    else 31
  }

  /** A calendar month, `month` counted 1 (January) to 12 (December). */
  datatype YearMonth = YearMonth(year: int, month: int)

  predicate ValidMonth(ym: YearMonth)
  {
    1 <= ym.month <= 12
  }

  /** Months since January of year 0. */
  function MonthIndex(ym: YearMonth): int
  {
    ym.year * 12 + ym.month - 1
  }

  /** A valid month is determined by its month index. */
  lemma MonthIndexInjective(a: YearMonth, b: YearMonth)
    requires ValidMonth(a) && ValidMonth(b)
    requires MonthIndex(a) == MonthIndex(b)
    ensures a == b
  {
  }

  /** The month `k` months after `ym` (before it when `k` is negative), the year wrapping as needed. */
  function AddMonths(ym: YearMonth, k: int): (r: YearMonth)
    ensures ValidMonth(r)
    ensures MonthIndex(r) == MonthIndex(ym) + k
  {
    var i := MonthIndex(ym) + k;
    YearMonth(i / 12, i % 12 + 1)
  }

  /** The first day of a month. */
  function FirstOfMonth(ym: YearMonth): Day
    requires ValidMonth(ym)
  {
    DaysFromCivil(ym.year, ym.month, 1)
  }

  /** The `day`-th of a month lies `day - 1` days after its first. */
  lemma DaysFromCivilInMonth(year: int, month: int, day: int)
    requires 1 <= month <= 12
    ensures DaysFromCivil(year, month, day) == DaysFromCivil(year, month, 1) + day - 1
  {
  }

  /** Adding a multiple of 4, 100 or 400 does not change a remainder modulo that number. */
  lemma ModMultiple4(m: int, r: int)
    ensures (4 * m + r) % 4 == r % 4
  {
    var q, s := r / 4, r % 4;
    assert 4 * m + r == 4 * (m + q) + s;
  }

  lemma ModMultiple100(m: int, r: int)
    ensures (100 * m + r) % 100 == r % 100
  {
    var q, s := r / 100, r % 100;
    assert 100 * m + r == 100 * (m + q) + s;
  }

  lemma ModMultiple400(m: int, r: int)
    ensures (400 * m + r) % 400 == r % 400
  {
    var q, s := r / 400, r % 400;
    assert 400 * m + r == 400 * (m + q) + s;
  }

  /** Shifting a year by whole eras keeps the leap rule's remainders. */
  lemma LeapModuli(k: int, r: int)
    ensures (400 * k + r) % 4 == r % 4
    ensures (400 * k + r) % 100 == r % 100
    ensures (400 * k + r) % 400 == r % 400
  {
    ModMultiple4(100 * k, r);
    ModMultiple100(4 * k, r);
    ModMultiple400(k, r);
  }

  /** Within an era, a year's 1 March follows the previous one by 366 days after a leap day, else 365. */
  lemma EraYearStep(yoe: int)
    requires 0 <= yoe < 399
    ensures EraYearStart(yoe + 1) - EraYearStart(yoe)
         == if (yoe + 1) % 4 == 0 && (yoe + 1) % 100 != 0 then 366 else 365
  {
    assert (yoe + 1) / 4 - yoe / 4 == if (yoe + 1) % 4 == 0 then 1 else 0;
    assert (yoe + 1) / 100 - yoe / 100 == if (yoe + 1) % 100 == 0 then 1 else 0;
  }

  /** A shifted year (March to February) has 366 days exactly when the February that ends it has a leap day. */
  lemma ShiftedYearLength(y: int)
    ensures MarchFirst(y + 1) - MarchFirst(y) == if IsLeapYear(y + 1) then 366 else 365
  {
    var era, yoe := y / 400, y % 400;
    assert y == 400 * era + yoe;
    LeapModuli(era, yoe + 1);
    if yoe == 399 {
      assert (y + 1) / 400 == era + 1 && (y + 1) % 400 == 0;
      assert EraYearStart(399) == 145731 && EraYearStart(0) == 0;
    } else {
      assert (y + 1) / 400 == era && (y + 1) % 400 == yoe + 1;
      EraYearStep(yoe);
    }
  }

  /** The months from March to January have the lengths of the Gregorian calendar. */
  lemma ShiftedMonthStarts()
    ensures DaysBeforeShiftedMonth(0) == 0 && DaysBeforeShiftedMonth(1) == 31
    ensures DaysBeforeShiftedMonth(2) == 61 && DaysBeforeShiftedMonth(3) == 92
    ensures DaysBeforeShiftedMonth(4) == 122 && DaysBeforeShiftedMonth(5) == 153
    ensures DaysBeforeShiftedMonth(6) == 184 && DaysBeforeShiftedMonth(7) == 214
    ensures DaysBeforeShiftedMonth(8) == 245 && DaysBeforeShiftedMonth(9) == 275
    ensures DaysBeforeShiftedMonth(10) == 306 && DaysBeforeShiftedMonth(11) == 337
  {
  }

  /** The first of the next month lies `DaysInMonth` days after the first of this one. */
  lemma {:induction false} MonthLength(ym: YearMonth)
    requires ValidMonth(ym)
    ensures FirstOfMonth(AddMonths(ym, 1)) - FirstOfMonth(ym) == DaysInMonth(ym.year, ym.month)
  {
    ShiftedMonthStarts();
    var y, m := ym.year, ym.month;
    var next := AddMonths(ym, 1);
    if m == 12 {
      assert next == YearMonth(y + 1, 1);
      assert FirstOfMonth(ym) == MarchFirst(y) + 275;
      assert FirstOfMonth(next) == MarchFirst(y) + 306;
    } else if m == 2 {
      assert next == YearMonth(y, 3);
      assert FirstOfMonth(ym) == MarchFirst(y - 1) + 337;
      assert FirstOfMonth(next) == MarchFirst(y);
      ShiftedYearLength(y - 1);
    } else if m == 1 {
      assert next == YearMonth(y, 2);
      assert FirstOfMonth(ym) == MarchFirst(y - 1) + 306;
      assert FirstOfMonth(next) == MarchFirst(y - 1) + 337;
    } else {
      assert next == YearMonth(y, m + 1);
      assert FirstOfMonth(ym) == MarchFirst(y) + DaysBeforeShiftedMonth(m - 3);
      assert FirstOfMonth(next) == MarchFirst(y) + DaysBeforeShiftedMonth(m - 2);
    }
  }

  /** Day 0 is 1970-01-01, a Thursday. */
  lemma Epoch()
    ensures DaysFromCivil(1970, 1, 1) == 0
    ensures DayOfWeek(0) == 4
  {
  }
}
