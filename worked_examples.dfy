/**
 * The fixed cases of the repository's test suite, stated about the model.
 * Dates are passed as `new Date("YYYY-MM-DD")` passes them: UTC midnight.
 */
module WorkedExamples {
  import opened Calendar
  import opened LeaveDays

  /** `new Date("YYYY-MM-DD")`. */
  function Utc(year: int, month: int, day: int): Instant
    requires 1 <= month <= 12
  {
    DayStart(DaysFromCivil(year, month, day))
  }

  /** 2024-05-27, the first day of every test range, is a Monday. */
  lemma May27IsMonday()
    ensures DaysFromCivil(2024, 5, 27) == 19870
    ensures DayOfWeek(19870) == 1
  {
  }

  /** Day numbers of the dates the suite uses: 1 May 2024 is day 19844 and 1 June 2024 is day 19875. */
  lemma JuneAndMayDays()
    ensures forall d :: DaysFromCivil(2024, 5, d) == 19843 + d
    ensures forall d :: DaysFromCivil(2024, 6, d) == 19874 + d
  {
    ShiftedMonthStarts();
    assert EraYearStart(24) == 8766;
    assert MarchFirst(2024) == 19783;
    assert DaysFromCivil(2024, 5, 1) == 19844;
    assert DaysFromCivil(2024, 6, 1) == 19875;
    forall d ensures DaysFromCivil(2024, 5, d) == 19843 + d && DaysFromCivil(2024, 6, d) == 19874 + d {
      DaysFromCivilInMonth(2024, 5, d);
      DaysFromCivilInMonth(2024, 6, d);
    }
  }

  /** The inclusive day counts of the `calculateTotalDays` cases. */
  lemma TotalDaysCases()
    ensures TotalDays(Utc(2024, 5, 27), Utc(2024, 5, 27)) == 1
    ensures TotalDays(Utc(2024, 5, 27), Utc(2024, 5, 28)) == 2
    ensures TotalDays(Utc(2024, 5, 27), Utc(2024, 5, 29)) == 3
    ensures TotalDays(Utc(2024, 5, 27), Utc(2024, 5, 30)) == 4
    ensures TotalDays(Utc(2024, 5, 27), Utc(2024, 5, 31)) == 5
    ensures TotalDays(Utc(2024, 5, 27), Utc(2024, 6, 1)) == 6
    ensures TotalDays(Utc(2024, 5, 27), Utc(2024, 6, 2)) == 7
    ensures TotalDays(Utc(2024, 5, 27), Utc(2024, 6, 3)) == 8
    ensures TotalDays(Utc(2024, 5, 27), Utc(2024, 6, 4)) == 9
    ensures TotalDays(Utc(2024, 5, 27), Utc(2024, 6, 5)) == 10
  {
    JuneAndMayDays();
    TotalDaysBetweenMidnights(19870, 19870, 0); TotalDaysBetweenMidnights(19870, 19871, 0);
    TotalDaysBetweenMidnights(19870, 19872, 0); TotalDaysBetweenMidnights(19870, 19873, 0);
    TotalDaysBetweenMidnights(19870, 19874, 0); TotalDaysBetweenMidnights(19870, 19875, 0);
    TotalDaysBetweenMidnights(19870, 19876, 0); TotalDaysBetweenMidnights(19870, 19877, 0);
    TotalDaysBetweenMidnights(19870, 19878, 0); TotalDaysBetweenMidnights(19870, 19879, 0);
  }

  /** From 2024-05-27, `n` days read on a host at or east of UTC hold the Monday closed form's weekend days. */
  lemma FromMay27(n: int, offset: int)
    requires 1 <= n && 0 <= offset < MsPerDay
    ensures WeekendDays(DayStart(19870), DayStart(19870 + n - 1), offset)
         == 2 * (n / 7) + (if n % 7 == 6 then 1 else 0)
  {
    assert LocalDay(DayStart(19870), offset) == 19870;
    TotalDaysBetweenMidnights(19870, 19870 + n - 1, 0);
    WeekendDaysFromMonday(19870, n);
  }

  /**
   * The weekend-day counts of the `calculateWeekendDays` cases, which
   * hold on any host at or east of UTC (less than a day ahead).
   */
  lemma WeekendDaysCases(offset: int)
    requires 0 <= offset < MsPerDay
    ensures WeekendDays(Utc(2024, 5, 27), Utc(2024, 5, 27), offset) == 0
    ensures WeekendDays(Utc(2024, 5, 27), Utc(2024, 5, 28), offset) == 0
    ensures WeekendDays(Utc(2024, 5, 27), Utc(2024, 5, 29), offset) == 0
    ensures WeekendDays(Utc(2024, 5, 27), Utc(2024, 5, 30), offset) == 0
    ensures WeekendDays(Utc(2024, 5, 27), Utc(2024, 5, 31), offset) == 0
    ensures WeekendDays(Utc(2024, 5, 27), Utc(2024, 6, 1), offset) == 1
    ensures WeekendDays(Utc(2024, 5, 27), Utc(2024, 6, 2), offset) == 2
    ensures WeekendDays(Utc(2024, 5, 27), Utc(2024, 6, 3), offset) == 2
    ensures WeekendDays(Utc(2024, 5, 27), Utc(2024, 6, 4), offset) == 2
    ensures WeekendDays(Utc(2024, 5, 27), Utc(2024, 6, 5), offset) == 2
    ensures WeekendDays(Utc(2024, 5, 27), Utc(2024, 6, 6), offset) == 2
    ensures WeekendDays(Utc(2024, 5, 27), Utc(2024, 6, 7), offset) == 2
    ensures WeekendDays(Utc(2024, 5, 27), Utc(2024, 6, 8), offset) == 3
    ensures WeekendDays(Utc(2024, 5, 27), Utc(2024, 6, 9), offset) == 4
    ensures WeekendDays(Utc(2024, 5, 27), Utc(2024, 6, 10), offset) == 4
  {
    JuneAndMayDays();
    FromMay27(1, offset); FromMay27(2, offset); FromMay27(3, offset);
    FromMay27(4, offset); FromMay27(5, offset); FromMay27(6, offset);
    FromMay27(7, offset); FromMay27(8, offset); FromMay27(9, offset);
    FromMay27(10, offset); FromMay27(11, offset); FromMay27(12, offset);
    FromMay27(13, offset); FromMay27(14, offset); FromMay27(15, offset);
  }

  /**
   * On a host five hours behind UTC the midnight of 2024-05-27 is still
   * Sunday the 26th locally, so the first weekend case counts one weekend
   * day where the suite expects none.
   */
  lemma WestOfUtcHost()
    ensures WeekendDays(Utc(2024, 5, 27), Utc(2024, 5, 27), -5 * 60 * 60 * 1000) == 1
  {
    assert LocalDay(Utc(2024, 5, 27), -5 * 60 * 60 * 1000) == 19869;
  }

  /**
   * The weekend filter applied to 2024-05-29 (day 19872), Sunday 2024-06-16
   * (day 19890) and Monday 2024-06-17 (day 19891): at or east of UTC only
   * the Sunday is dropped; five hours behind UTC each date is read as the
   * day before, so the Sunday and the Monday are both dropped.
   */
  lemma ObservedHolidaysFiltered(offset: int)
    requires 0 <= offset < MsPerDay || offset == -5 * 60 * 60 * 1000
    ensures 0 <= offset ==> WorkingDayHolidays([19872, 19890, 19891], offset) == [19872, 19891]
    ensures offset < 0 ==> WorkingDayHolidays([19872, 19890, 19891], offset) == [19872]
  {
    HolidayWeekendTest(19872, offset);
    HolidayWeekendTest(19890, offset);
    HolidayWeekendTest(19891, offset);
    assert [19872, 19890, 19891][1..] == [19890, 19891];
    assert [19890, 19891][1..] == [19891];
    assert WorkingDayHolidays([19891], offset) == if 0 <= offset then [19891] else [];
  }

  /**
   * If the calendar service returns 2024-05-29, Sunday 2024-06-16 and its
   * observed Monday 2024-06-17, the Sunday is dropped and the other two
   * are counted, for both ranges the suite asks about.
   */
  lemma ObservedHolidayCases(offset: int, fetch: HolidayFetch)
    requires 0 <= offset < MsPerDay
    requires forall s, e :: fetch(s, e) == Fetched([DaysFromCivil(2024, 5, 29), DaysFromCivil(2024, 6, 16), DaysFromCivil(2024, 6, 17)])
    ensures CalculatePublicHolidays(Utc(2024, 5, 27), Utc(2024, 6, 20), offset, fetch) == Counted(2)
    ensures TotalLeaveDays(Utc(2024, 5, 27), Utc(2024, 6, 18), offset, fetch) == 15
  {
    JuneAndMayDays();
    var start, jun18, jun20 := Utc(2024, 5, 27), Utc(2024, 6, 18), Utc(2024, 6, 20);
    assert start == DayStart(19870) && jun18 == DayStart(19892) && jun20 == DayStart(19894);
    assert fetch(start, jun20) == Fetched([19872, 19890, 19891]);
    assert fetch(start, jun18) == Fetched([19872, 19890, 19891]);
    ObservedHolidaysFiltered(offset);
    TotalDaysBetweenMidnights(19870, 19892, 0);
    FromMay27(23, offset);
    assert WeekendDays(start, jun18, offset) == 6;
  }

  /**
   * On a host five hours behind UTC every fetched date is read as the day
   * before it: the Sunday 2024-06-16 is read as a Saturday and dropped, and
   * so is the observed Monday 2024-06-17, read as a Sunday. Only 2024-05-29
   * is counted, where the suite expects 2.
   */
  lemma WestOfUtcHolidays(fetch: HolidayFetch)
    requires forall s, e :: fetch(s, e) == Fetched([DaysFromCivil(2024, 5, 29), DaysFromCivil(2024, 6, 16), DaysFromCivil(2024, 6, 17)])
    ensures CalculatePublicHolidays(Utc(2024, 5, 27), Utc(2024, 6, 20), -5 * 60 * 60 * 1000, fetch) == Counted(1)
  {
    JuneAndMayDays();
    assert fetch(Utc(2024, 5, 27), Utc(2024, 6, 20)) == Fetched([19872, 19890, 19891]);
    ObservedHolidaysFiltered(-5 * 60 * 60 * 1000);
  }
}
