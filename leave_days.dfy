/**
 * The leave-day arithmetic of calculate-leave-days.js.
 *
 * Dates are instants (see module Calendar) read on a host whose local
 * clock runs `offset` ms ahead of UTC. The calendar-service fetch is not
 * modelled: it is a parameter `fetch`, and what it returned for a range
 * is either the list of holiday dates (as day numbers) or a failure.
 */
module LeaveDays {
  import opened Calendar

  datatype Option<T> = None | Some(value: T)

  /** Why the holiday fetch failed. */
  datatype FetchError =
    | MissingApiKey             // the API-key environment variable is not set
    | UnexpectedStatus(code: int) // the calendar service answered with a status other than 200
    | TransportFailure          // the HTTPS request itself failed
    | UnparsableResponse        // the response body was not the expected JSON

  /** What the calendar-service fetch produced: the `start.date` of every event, in order, or a failure. */
  datatype FetchResult = Fetched(dates: seq<Day>) | FetchFailed(error: FetchError)

  /** A holiday fetch for the range from the first instant to the second. */
  type HolidayFetch = (Instant, Instant) -> FetchResult

  /** The public-holiday count, or the fetch failure it wraps. */
  datatype HolidayCount = Counted(count: nat) | CountFailed(cause: FetchError)

  // ---------------------------------------------------------------------
  // isWeekend

  /**
   * `isWeekend`: the local day of `date` is a Sunday or a Saturday. As
   * 1970-01-01 was a Thursday, that is the case exactly when the local
   * time lies in the third or fourth day of a week counted from the epoch.
   */
  predicate IsWeekend(date: Instant, offset: int): (b: bool)
    ensures b <==> 2 * MsPerDay <= (date + offset) % (7 * MsPerDay) < 4 * MsPerDay
  {
    WeekPosition(date + offset);
    IsWeekendDay(LocalDay(date, offset))
  }

  /**
   * Of any week that starts on a Monday, the first five days are working
   * days and the last two are weekend days.
   */
  lemma WeekShape(monday: Day, i: int)
    requires DayOfWeek(monday) == 1 && 0 <= i < 7
    ensures IsWeekendDay(monday + i) <==> i >= 5
  {
  }

  /** Whether a day is a weekend day repeats every seven days. */
  lemma WeekendPeriodic(d: Day, k: int)
    ensures IsWeekendDay(d + 7 * k) <==> IsWeekendDay(d)
  {
    assert DayOfWeek(d + 7 * k) == DayOfWeek(d) by {
      ModMultiple7(k, d + 4);
    }
  }

  // ---------------------------------------------------------------------
  // calculateTotalDays

  /**
   * `calculateTotalDays`: the whole days elapsed from `start` to `end`,
   * rounded down, plus one. `r - 1` is the number of whole days that fit
   * in the interval, so a range is counted inclusively.
   */
  function TotalDays(start: Instant, end: Instant): (r: int)
    ensures (r - 1) * MsPerDay <= end - start < r * MsPerDay
    ensures r >= 1 <==> start <= end
  {
    (end - start) / MsPerDay + 1
  }

  /** A range that starts and ends at the same instant counts one day. */
  lemma TotalDaysSameInstant(t: Instant)
    ensures TotalDays(t, t) == 1
  {
  }

  /** Moving the end one day later raises the count by exactly one. */
  lemma TotalDaysStep(start: Instant, end: Instant)
    ensures TotalDays(start, end + MsPerDay) == TotalDays(start, end) + 1
  {
  }

  /** Between two midnights the count is the difference of the day numbers plus one. */
  lemma TotalDaysBetweenMidnights(first: Day, last: Day, offset: int)
    ensures TotalDays(LocalMidnight(first, offset), LocalMidnight(last, offset)) == last - first + 1
    ensures TotalDays(DayStart(first), DayStart(last)) == last - first + 1
  {
  }

  /**
   * For `start <= end` the count is the number of local calendar days the
   * range touches, or one less when `end` is earlier in its day than
   * `start` is in its own.
   */
  lemma TotalDaysCalendarDays(start: Instant, end: Instant, offset: int)
    requires start <= end
    ensures var span := LocalDay(end, offset) - LocalDay(start, offset) + 1;
            TotalDays(start, end) == span || TotalDays(start, end) == span - 1
  {
  }

  // ---------------------------------------------------------------------
  // calculateWeekendDays

  /** The number of weekend days among the `n` consecutive days from `first` (none when `n <= 0`). */
  function WeekendDaysIn(first: Day, n: int): (r: nat)
    ensures n >= 0 ==> r <= n
    decreases n
  {
    if n <= 0 then 0
    else WeekendDaysIn(first, n - 1) + (if IsWeekendDay(first + n - 1) then 1 else 0)
  }

  /** The weekend days from `start` to `end`: those among the `TotalDays` local days from `start`'s. */
  function WeekendDays(start: Instant, end: Instant, offset: int): (r: nat)
    ensures start > end ==> r == 0
    ensures start <= end ==> r <= TotalDays(start, end)
  {
    WeekendDaysIn(LocalDay(start, offset), TotalDays(start, end))
  }

  /**
   * `calculateWeekendDays`: walk a copy of `start` forward one day at a
   * time while it is not after `end`, counting the steps that land on a
   * weekend day.
   */
  method CalculateWeekendDays(start: Instant, end: Instant, offset: int) returns (weekendDays: nat)
    ensures weekendDays == WeekendDays(start, end, offset)
    ensures start > end ==> weekendDays == 0
    ensures start <= end ==> weekendDays <= TotalDays(start, end)
  {
    weekendDays := 0;
    var date := start;
    ghost var visited: nat := 0;
    while date <= end
      invariant date == start + visited * MsPerDay
      invariant LocalDay(date, offset) == LocalDay(start, offset) + visited
      invariant visited > 0 ==> date - MsPerDay <= end
      invariant weekendDays == WeekendDaysIn(LocalDay(start, offset), visited)
      decreases end - date
    {
      if IsWeekend(date, offset) {
        weekendDays := weekendDays + 1;
      }
      LocalDayShift(date, offset, 1);
      date := date + MsPerDay;
      visited := visited + 1;
    }
    assert start <= end ==> visited == TotalDays(start, end);
  }

  /** Splitting a run of days in two splits its weekend days the same way. */
  lemma {:induction false} WeekendDaysInSplit(first: Day, a: nat, b: nat)
    ensures WeekendDaysIn(first, a + b) == WeekendDaysIn(first, a) + WeekendDaysIn(first + a, b)
    decreases b
  {
    if b > 0 {
      WeekendDaysInSplit(first, a, b - 1);
    }
  }

  /** Any range that counts seven days holds two weekend days, whatever the host's offset. */
  lemma WeekRangeTwoWeekendDays(start: Instant, end: Instant, offset: int)
    requires TotalDays(start, end) == 7
    ensures WeekendDays(start, end, offset) == 2
  {
    SevenDaysTwoWeekendDays(LocalDay(start, offset));
  }

  /** Any seven consecutive days hold exactly two weekend days. */
  lemma SevenDaysTwoWeekendDays(first: Day)
    ensures WeekendDaysIn(first, 7) == 2
  {
    DayOfWeekAdd(first, 1); DayOfWeekAdd(first, 2); DayOfWeekAdd(first, 3);
    DayOfWeekAdd(first, 4); DayOfWeekAdd(first, 5); DayOfWeekAdd(first, 6);
    assert WeekendDaysIn(first, 1) == (if IsWeekendDay(first) then 1 else 0);
    assert WeekendDaysIn(first, 2) == WeekendDaysIn(first, 1) + (if IsWeekendDay(first + 1) then 1 else 0);
    assert WeekendDaysIn(first, 3) == WeekendDaysIn(first, 2) + (if IsWeekendDay(first + 2) then 1 else 0);
    assert WeekendDaysIn(first, 4) == WeekendDaysIn(first, 3) + (if IsWeekendDay(first + 3) then 1 else 0);
    assert WeekendDaysIn(first, 5) == WeekendDaysIn(first, 4) + (if IsWeekendDay(first + 4) then 1 else 0);
    assert WeekendDaysIn(first, 6) == WeekendDaysIn(first, 5) + (if IsWeekendDay(first + 5) then 1 else 0);
    assert WeekendDaysIn(first, 7) == WeekendDaysIn(first, 6) + (if IsWeekendDay(first + 6) then 1 else 0);
  }

  /** Any `7 * k` consecutive days hold exactly `2 * k` weekend days. */
  lemma {:induction false} WholeWeeks(first: Day, k: nat)
    ensures WeekendDaysIn(first, 7 * k) == 2 * k
  {
    if k > 0 {
      WholeWeeks(first, k - 1);
      WeekendDaysInSplit(first, 7 * (k - 1), 7);
      SevenDaysTwoWeekendDays(first + 7 * (k - 1));
    }
  }

  /**
   * Counting from a Monday, `n` days hold two weekend days per whole week
   * plus the Saturday of a trailing partial week of six days.
   */
  lemma {:induction false} WeekendDaysFromMonday(monday: Day, n: nat)
    requires DayOfWeek(monday) == 1
    ensures WeekendDaysIn(monday, n) == 2 * (n / 7) + (if n % 7 == 6 then 1 else 0)
  {
    if n > 0 {
      WeekendDaysFromMonday(monday, n - 1);
      DayOfWeekAdd(monday, n - 1);
      assert DayOfWeek(monday + n - 1) == n % 7;
      assert n == 7 * (n / 7) + n % 7;
      assert n - 1 == 7 * ((n - 1) / 7) + (n - 1) % 7;
    }
  }

  // ---------------------------------------------------------------------
  // calculatePublicHolidaysUsingGoogleCalendarAPIAsync

  /**
   * Whether a fetched holiday date is a weekend day, read as `isWeekend`
   * reads a date-only string: UTC midnight of the date, seen on the local
   * clock, lands on the date shifted by the whole days that the host is
   * ahead of (or behind) UTC.
   */
  predicate HolidayOnWeekend(holiday: Day, offset: int): (b: bool)
    ensures b <==> IsWeekendDay(holiday + LocalDay(0, offset))
  {
    LocalDayShift(0, offset, holiday);
    IsWeekend(DayStart(holiday), offset)
  }

  /**
   * The fetched dates that are not weekend days, in their order. Each
   * date that is kept appears as often as it was fetched.
   */
  function WorkingDayHolidays(dates: seq<Day>, offset: int): (r: seq<Day>)
    ensures |r| <= |dates|
  {
    if dates == [] then []
    else
      assert dates == [dates[0]] + dates[1..];
      (if HolidayOnWeekend(dates[0], offset) then [] else [dates[0]]) + WorkingDayHolidays(dates[1..], offset)
  }

  /**
   * The filter keeps every date that is not a weekend day as many times as
   * it was fetched, and drops every weekend date.
   */
  lemma {:induction false} WorkingDayHolidaysMultiplicity(dates: seq<Day>, offset: int, d: Day)
    ensures multiset(WorkingDayHolidays(dates, offset))[d]
         == if HolidayOnWeekend(d, offset) then 0 else multiset(dates)[d]
  {
    if dates != [] {
      assert dates == [dates[0]] + dates[1..];
      WorkingDayHolidaysMultiplicity(dates[1..], offset, d);
    }
  }

  /** The filter distributes over concatenation. */
  lemma {:induction false} WorkingDayHolidaysAppend(a: seq<Day>, b: seq<Day>, offset: int)
    ensures WorkingDayHolidays(a + b, offset) == WorkingDayHolidays(a, offset) + WorkingDayHolidays(b, offset)
  {
    if a != [] {
      var keep := if HolidayOnWeekend(a[0], offset) then [] else [a[0]];
      assert (a + b)[0] == a[0];
      assert (a + b)[1..] == a[1..] + b;
      assert WorkingDayHolidays(a, offset) == keep + WorkingDayHolidays(a[1..], offset);
      assert WorkingDayHolidays(a + b, offset) == keep + WorkingDayHolidays(a[1..] + b, offset);
      WorkingDayHolidaysAppend(a[1..], b, offset);
      assert keep + (WorkingDayHolidays(a[1..], offset) + WorkingDayHolidays(b, offset))
          == (keep + WorkingDayHolidays(a[1..], offset)) + WorkingDayHolidays(b, offset);
    } else {
      assert a + b == b;
    }
  }

  /**
   * `calculatePublicHolidaysUsingGoogleCalendarAPIAsync`: fetch the
   * holidays of the range and count those not on a weekend; a failed
   * fetch gives no count (the model keeps the kind of failure; the source
   * keeps only its message).
   */
  function CalculatePublicHolidays(start: Instant, end: Instant, offset: int, fetch: HolidayFetch): (r: HolidayCount)
    ensures r.Counted? <==> fetch(start, end).Fetched?
    ensures r.Counted? ==> r.count == |WorkingDayHolidays(fetch(start, end).dates, offset)|
    ensures r.Counted? ==> r.count <= |fetch(start, end).dates|
    ensures r.CountFailed? ==> r.cause == fetch(start, end).error
  {
    match fetch(start, end)
    case Fetched(dates) => Counted(|WorkingDayHolidays(dates, offset)|)
    case FetchFailed(error) => CountFailed(error)
  }

  /** Dates fetched twice are counted twice: no duplicates are removed. */
  lemma RepeatedHolidaysCountTwice(start: Instant, end: Instant, offset: int, fetch: HolidayFetch, dates: seq<Day>)
    requires fetch(start, end) == Fetched(dates + dates)
    ensures CalculatePublicHolidays(start, end, offset, fetch).count
         == 2 * |WorkingDayHolidays(dates, offset)|
  {
    WorkingDayHolidaysAppend(dates, dates, offset);
  }

  /**
   * On a host at or east of UTC (less than a day ahead), a fetched date is
   * dropped exactly when it is a Saturday or Sunday; west of UTC the test
   * reads the local day before it.
   */
  lemma HolidayWeekendTest(holiday: Day, offset: int)
    ensures 0 <= offset < MsPerDay ==> (HolidayOnWeekend(holiday, offset) <==> IsWeekendDay(holiday))
    ensures -MsPerDay <= offset < 0 ==> (HolidayOnWeekend(holiday, offset) <==> IsWeekendDay(holiday - 1))
  {
  }

  // ---------------------------------------------------------------------
  // calculateTotalLeaveDaysAsync

  /**
   * `calculateTotalLeaveDaysAsync` as a value, and the specification of
   * the method `CalculateTotalLeaveDays` below: total days less weekend
   * days less the public holidays counted, none when the count failed.
   * Holidays only ever lower the total.
   */
  function TotalLeaveDays(start: Instant, end: Instant, offset: int, fetch: HolidayFetch): (r: int)
    ensures fetch(start, end).Fetched? ==>
      r == TotalDays(start, end) - WeekendDays(start, end, offset)
           - |WorkingDayHolidays(fetch(start, end).dates, offset)|
    ensures fetch(start, end).FetchFailed? ==> r == TotalDays(start, end) - WeekendDays(start, end, offset)
    ensures r <= TotalDays(start, end) - WeekendDays(start, end, offset)
  {
    var publicHolidays :=
      match CalculatePublicHolidays(start, end, offset, fetch)
      case Counted(n) => n
      case CountFailed(_) => 0;
    TotalDays(start, end) - WeekendDays(start, end, offset) - publicHolidays
  }

  /**
   * `calculateTotalLeaveDaysAsync`: count the holidays (zero if that
   * fails), then subtract them and the weekend days from the total days.
   */
  method CalculateTotalLeaveDays(start: Instant, end: Instant, offset: int, fetch: HolidayFetch)
    returns (totalLeaveDays: int)
    ensures totalLeaveDays == TotalLeaveDays(start, end, offset, fetch)
    ensures fetch(start, end).Fetched? ==>
      totalLeaveDays == TotalDays(start, end) - WeekendDays(start, end, offset)
                        - |WorkingDayHolidays(fetch(start, end).dates, offset)|
    ensures fetch(start, end).FetchFailed? ==>
      totalLeaveDays == TotalDays(start, end) - WeekendDays(start, end, offset)
  {
    var publicHolidays := 0;
    var counted := CalculatePublicHolidays(start, end, offset, fetch);
    match counted {
      case Counted(n) => publicHolidays := n;
      case CountFailed(_) => publicHolidays := 0;
    }
    var totalDays := TotalDays(start, end);
    var weekendDays := CalculateWeekendDays(start, end, offset);
    totalLeaveDays := totalDays - weekendDays - publicHolidays;
  }

  /** A failed fetch leaves the same total as a fetch that found no holidays. */
  lemma FailedFetchCountsNoHolidays(start: Instant, end: Instant, offset: int, failing: HolidayFetch, empty: HolidayFetch)
    requires failing(start, end).FetchFailed? && empty(start, end) == Fetched([])
    ensures TotalLeaveDays(start, end, offset, failing) == TotalLeaveDays(start, end, offset, empty)
  {
  }

  /** Without holidays the total for a forward range lies between 0 and its day count. */
  lemma LeaveDaysBounds(start: Instant, end: Instant, offset: int, fetch: HolidayFetch)
    requires start <= end
    requires fetch(start, end) == Fetched([]) || fetch(start, end).FetchFailed?
    ensures 0 <= TotalLeaveDays(start, end, offset, fetch) <= TotalDays(start, end)
  {
  }

  /** Over a Monday-to-Friday span without holidays every day is a leave day. */
  lemma {:induction false} WorkingWeekSpan(monday: Day, n: int, offset: int, fetch: HolidayFetch)
    requires DayOfWeek(monday) == 1 && 1 <= n <= 5
    requires fetch(LocalMidnight(monday, offset), LocalMidnight(monday + n - 1, offset)) == Fetched([])
          || fetch(LocalMidnight(monday, offset), LocalMidnight(monday + n - 1, offset)).FetchFailed?
    ensures TotalLeaveDays(LocalMidnight(monday, offset), LocalMidnight(monday + n - 1, offset), offset, fetch) == n
  {
    TotalDaysBetweenMidnights(monday, monday + n - 1, offset);
    WeekendDaysFromMonday(monday, n);
  }

  /** The total is not clamped at zero: a reversed range with holidays goes below it. */
  lemma LeaveDaysNotClamped(offset: int, fetch: HolidayFetch)
    requires 0 <= offset < MsPerDay
    requires fetch(DayStart(1), DayStart(0)) == Fetched([4])
    ensures TotalLeaveDays(DayStart(1), DayStart(0), offset, fetch) == -1
  {
    assert LocalDay(DayStart(4), offset) == 4;
    assert WorkingDayHolidays([4], offset) == [4];
  }

  /**
   * A forward range also goes below zero when the service lists a weekday
   * holiday twice (an observed day listed beside the holiday itself, say):
   * a single Monday with that holiday listed twice gives -1.
   */
  lemma RepeatedHolidayGoesNegative(offset: int, fetch: HolidayFetch)
    requires 0 <= offset < MsPerDay
    requires fetch(DayStart(4), DayStart(4)) == Fetched([4, 4])
    ensures TotalLeaveDays(DayStart(4), DayStart(4), offset, fetch) == -1
  {
    assert LocalDay(DayStart(4), offset) == 4;
    assert WorkingDayHolidays([4], offset) == [4];
    assert WorkingDayHolidays([4, 4], offset) == [4, 4] by {
      assert [4, 4][1..] == [4];
    }
  }

  /** No date occurs twice. */
  ghost predicate NoRepeats(dates: seq<Day>)
  {
    forall d :: multiset(dates)[d] <= 1
  }

  lemma NoRepeatsAt(dates: seq<Day>, d: Day)
    requires NoRepeats(dates)
    ensures multiset(dates)[d] <= 1
  {
  }

  /** The working days (neither Saturday nor Sunday) among the `n` days from `first`. */
  ghost function WorkingDaySet(first: Day, n: nat): set<Day>
  {
    set d | first <= d < first + n && !IsWeekendDay(d)
  }

  /** The working days of a run are its days less its weekend days. */
  lemma {:induction false} WorkingDaySetSize(first: Day, n: nat)
    ensures |WorkingDaySet(first, n)| == n - WeekendDaysIn(first, n)
  {
    if n > 0 {
      WorkingDaySetSize(first, n - 1);
      var last := first + n - 1;
      assert WorkingDaySet(first, n)
          == WorkingDaySet(first, n - 1) + (if IsWeekendDay(last) then {} else {last});
    }
  }

  /** A list without repeats has as many distinct dates as entries. */
  lemma {:induction false} NoRepeatsCardinality(dates: seq<Day>)
    requires NoRepeats(dates)
    ensures |set d | d in dates| == |dates|
  {
    if dates != [] {
      var x, rest := dates[0], dates[1..];
      NoRepeatsAt(dates, x);
      assert dates == [x] + rest;
      assert NoRepeats(rest) by {
        forall d ensures multiset(rest)[d] <= 1 {
          NoRepeatsAt(dates, d);
          assert multiset(dates)[d] == multiset([x])[d] + multiset(rest)[d];
        }
      }
      assert multiset(rest)[x] == 0;
      assert x !in rest;
      assert (set d | d in dates) == {x} + (set d | d in rest);
      NoRepeatsCardinality(rest);
    }
  }

  /**
   * The fetched dates that survive the weekend filter are exactly the
   * fetched dates that are working days of the run, each once.
   */
  lemma KeptHolidays(holidays: seq<Day>, offset: int, first: Day, n: nat)
    requires 0 <= offset < MsPerDay && NoRepeats(holidays)
    requires forall i :: 0 <= i < |holidays| ==> first <= holidays[i] < first + n
    ensures NoRepeats(WorkingDayHolidays(holidays, offset))
    ensures (set d | d in WorkingDayHolidays(holidays, offset))
         == WorkingDaySet(first, n) * (set d | d in holidays)
  {
    var kept := WorkingDayHolidays(holidays, offset);
    forall d ensures multiset(kept)[d] == if d in WorkingDaySet(first, n) && d in holidays then multiset(holidays)[d] else 0 {
      WorkingDayHolidaysMultiplicity(holidays, offset, d);
      HolidayWeekendTest(d, offset);
      NoRepeatsAt(holidays, d);
      if d in holidays {
        var i :| 0 <= i < |holidays| && holidays[i] == d;
        assert d in WorkingDaySet(first, n) <==> !IsWeekendDay(d);
      }
    }
  }

  /** Removing a subset removes its size. */
  lemma SubsetDifferenceSize(whole: set<Day>, part: set<Day>)
    requires part <= whole
    ensures |whole - part| == |whole| - |part|
  {
    assert whole == (whole - part) + part;
  }

  /**
   * When the fetched dates have no repeats and all fall within the range,
   * the leave total is the number of working days in the range that are
   * not public holidays; in particular it is not negative.
   */
  lemma LeaveDaysAreWorkingDaysOff(start: Instant, end: Instant, offset: int, fetch: HolidayFetch, holidays: seq<Day>)
    requires start <= end && 0 <= offset < MsPerDay
    requires fetch(start, end) == Fetched(holidays) && NoRepeats(holidays)
    requires forall i :: 0 <= i < |holidays| ==>
               LocalDay(start, offset) <= holidays[i] < LocalDay(start, offset) + TotalDays(start, end)
    ensures TotalLeaveDays(start, end, offset, fetch)
         == |WorkingDaySet(LocalDay(start, offset), TotalDays(start, end)) - (set d | d in holidays)|
    ensures 0 <= TotalLeaveDays(start, end, offset, fetch)
  {
    var first, n := LocalDay(start, offset), TotalDays(start, end);
    var working := WorkingDaySet(first, n);
    var kept := WorkingDayHolidays(holidays, offset);
    var keptSet := set d | d in kept;
    KeptHolidays(holidays, offset, first, n);
    NoRepeatsCardinality(kept);
    assert working - (set d | d in holidays) == working - keptSet;
    SubsetDifferenceSize(working, keptSet);
    WorkingDaySetSize(first, n);
  }

  // ---------------------------------------------------------------------
  // getPublicHolidayDatesAsync

  /** A date of the Gregorian calendar; `month` counts 1 (January) to 12. */
  datatype CivilDate = CivilDate(year: int, month: int, day: int)

  predicate ValidDate(date: CivilDate)
  {
    1 <= date.month <= 12 && 1 <= date.day <= DaysInMonth(date.year, date.month)
  }

  function MonthOf(date: CivilDate): YearMonth
  {
    YearMonth(date.year, date.month)
  }

  /** UTC midnight of a date. */
  function DateStart(date: CivilDate): Instant
    requires 1 <= date.month <= 12
  {
    DayStart(DaysFromCivil(date.year, date.month, date.day))
  }

  /** UTC midnight of the first day of a month, as `startOf("month")` on a UTC dayjs value gives it. */
  function MonthStart(ym: YearMonth): Instant
    requires ValidMonth(ym)
  {
    DayStart(FirstOfMonth(ym))
  }

  /**
   * The range queried when `getPublicHolidayDatesAsync` is given no start
   * or no end: from the first of the month before `today` to the first of
   * the month seven months after it. `today` is the UTC date of the clock.
   */
  function HolidayQueryRange(today: CivilDate, start: Option<Instant>, end: Option<Instant>): (range: (Instant, Instant))
    requires ValidDate(today)
    ensures start.Some? ==> range.0 == start.value
    ensures end.Some? ==> range.1 == end.value
    ensures start.None? ==> range.0 < DateStart(today)
    ensures end.None? ==> DateStart(today) < range.1
  {
    TodayBetweenMonthStarts(today);
    (if start.Some? then start.value else MonthStart(AddMonths(MonthOf(today), -1)),
     if end.Some? then end.value else MonthStart(AddMonths(MonthOf(today), 7)))
  }

  /** The first of each month lies at least 28 days after the first of the month before. */
  lemma {:induction false} MonthStartsIncrease(ym: YearMonth, k: nat)
    requires ValidMonth(ym)
    ensures FirstOfMonth(AddMonths(ym, k)) >= FirstOfMonth(ym) + 28 * k
    ensures FirstOfMonth(AddMonths(ym, k)) <= FirstOfMonth(ym) + 31 * k
  {
    if k > 0 {
      MonthStartsIncrease(ym, k - 1);
      var prev, cur := AddMonths(ym, k - 1), AddMonths(ym, k);
      assert AddMonths(prev, 1) == cur by {
        MonthIndexInjective(AddMonths(prev, 1), cur);
      }
      MonthLength(prev);
      var n := DaysInMonth(prev.year, prev.month);
      var origin, before, after := FirstOfMonth(ym), FirstOfMonth(prev), FirstOfMonth(cur);
      assert origin + 28 * (k - 1) <= before <= origin + 31 * (k - 1);
      assert after == before + n && 28 <= n <= 31;
      assert origin + 28 * k <= after <= origin + 31 * k;
    } else {
      MonthIndexInjective(AddMonths(ym, 0), ym);
      assert FirstOfMonth(AddMonths(ym, k)) == FirstOfMonth(ym);
    }
  }

  /**
   * Without explicit bounds the query runs from the first of last month to
   * the first of the month seven months ahead: eight whole months that
   * contain today, whatever month and year today falls in.
   */
  lemma DefaultRange(today: CivilDate)
    requires ValidDate(today)
    ensures var (s, e) := HolidayQueryRange(today, None, None);
            && s == MonthStart(AddMonths(MonthOf(today), -1))
            && e == MonthStart(AddMonths(MonthOf(today), 7))
            && MonthIndex(AddMonths(MonthOf(today), 7)) - MonthIndex(AddMonths(MonthOf(today), -1)) == 8
            && s < DateStart(today) < e
            && TotalDays(s, e) - 1 >= 8 * 28
  {
    var first, last := AddMonths(MonthOf(today), -1), AddMonths(MonthOf(today), 7);
    MonthIndexInjective(AddMonths(first, 8), last);
    MonthStartsIncrease(first, 8);
    TotalDaysBetweenMidnights(FirstOfMonth(first), FirstOfMonth(last), 0);
  }

  /** UTC midnight of today lies after the first of last month and before the first of the month seven months on. */
  lemma TodayBetweenMonthStarts(today: CivilDate)
    requires ValidDate(today)
    ensures MonthStart(AddMonths(MonthOf(today), -1)) < DateStart(today) < MonthStart(AddMonths(MonthOf(today), 7))
  {
    var cur := MonthOf(today);
    var first, next, last := AddMonths(cur, -1), AddMonths(cur, 1), AddMonths(cur, 7);
    MonthIndexInjective(AddMonths(first, 1), cur);
    MonthIndexInjective(AddMonths(next, 6), last);
    MonthLength(first);
    MonthLength(cur);
    MonthStartsIncrease(next, 6);
    DaysFromCivilInMonth(today.year, today.month, today.day);
    var day := DaysFromCivil(today.year, today.month, today.day);
    assert FirstOfMonth(first) < day < FirstOfMonth(last);
    DayStartMonotone(FirstOfMonth(first), day);
    DayStartMonotone(day, FirstOfMonth(last));
    assert DateStart(today) == DayStart(day);
  }

  /**
   * `getPublicHolidayDatesAsync`: fetch the holidays of the query range
   * and return each fetched date as its local midnight, in order; a
   * failed fetch yields no dates.
   */
  function PublicHolidayDates(today: CivilDate, start: Option<Instant>, end: Option<Instant>, offset: int, fetch: HolidayFetch)
    : (r: seq<Instant>)
    requires ValidDate(today)
    ensures var (s, e) := HolidayQueryRange(today, start, end);
            match fetch(s, e)
            case FetchFailed(_) => r == []
            case Fetched(dates) =>
              && |r| == |dates|
              && forall i :: 0 <= i < |r| ==> LocalDay(r[i], offset) == dates[i] && (r[i] + offset) % MsPerDay == 0
  {
    var (s, e) := HolidayQueryRange(today, start, end);
    match fetch(s, e)
    case FetchFailed(_) => []
    case Fetched(dates) => seq(|dates|, i requires 0 <= i < |dates| => LocalMidnight(dates[i], offset))
  }
}
