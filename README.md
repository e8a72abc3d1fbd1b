# Leave-day arithmetic, modelled in Dafny

This project models the leave-day calculation of `calculate-leave-days.js`: how many
days of leave an absence from a start date to an end date consumes. That is the
inclusive number of days, less the Saturdays and Sundays, less the public holidays
that fall on working days. It also models the default date range used to look up
public holidays. The holiday data comes from a calendar web service. That service is
not modelled. It is a parameter `fetch` that, for a range, returns either a list of
holiday dates or a failure.

Three modules:

- `Calendar` (calendar.dfy) covers JavaScript `Date` instants (milliseconds since the
  epoch) and the host's local day. The host is at a fixed offset from UTC. The module
  also has the day of the week (0 = Sunday, as `getDay` counts), Gregorian day
  numbers with month lengths and leap years, and month arithmetic with year
  wrap-around.
- `LeaveDays` (leave_days.dfy) holds the five operations: `isWeekend`,
  `calculateTotalDays`, `calculateWeekendDays` (a `while` loop, as in the source),
  the weekend filter and count of `calculatePublicHolidaysUsingGoogleCalendarAPIAsync`,
  and `calculateTotalLeaveDaysAsync` with its fall-back to zero holidays. It also
  holds the default query range of `getPublicHolidayDatesAsync`.
- `WorkedExamples` (worked_examples.dfy) restates the fixed cases of the test suite
  as lemmas about the model.

How the code behaves, as modelled:

- The API key comes from the environment variable `GOOGLE_CALENDAR_API_KEY`
  (calculate-leave-days.js:42-47). There is no secret store. A missing key is one
  kind of fetch failure (`MissingApiKey`).
- `getPublicHolidayDatesAsync` takes only `start` and `end`
  (calculate-leave-days.js:160). It has no UTC-offset parameter.
- The comment at calculate-leave-days.js:173 says the default end is six months
  ahead. The code adds seven months and then truncates to the first of that month
  (line 174). So the range runs from the first of last month to the first of the
  month seven months on: eight whole months, namely last month, this month and the
  six after it. `DefaultRange` states what the code does.
- `calculateWeekendDays` reads each day with `getDay`, in local time.
  `new Date("YYYY-MM-DD")` is UTC midnight, so the weekday seen depends on the
  host's offset. On a host at or east of UTC, local time and the calendar date agree
  (`HolidayWeekendTest`, `WeekendDaysCases`). West of UTC they do not: each date is
  read as the day before it. There the suite's first weekend case counts one weekend
  day (`WestOfUtcHost`). The holiday filter also shifts by a day: an observed Monday
  holiday is read as a Sunday and dropped, and a Saturday holiday is read as a Friday
  and counted. For the suite's holiday scenario the count is 1, not 2
  (`WestOfUtcHolidays`).

## Model

| member | source | states |
|---|---|---|
| `Calendar.LocalDay` | calculate-leave-days.js:8-9 | the local day of an instant is the one whose local midnight is at or before it and whose next midnight is after it |
| `Calendar.LocalDayShift` | calculate-leave-days.js:32 | moving a date by k whole days moves its local day by exactly k |
| `Calendar.DayStart` | calculate-leave-days.js:16-17 | a date-only string becomes an instant exactly on a UTC day boundary, and that instant's UTC day is the date: UTC midnight of the date |
| `Calendar.LocalMidnight` | calculate-leave-days.js:182 | a date string parsed by dayjs is local midnight: it falls on that local day, exactly on a day boundary |
| `Calendar.DayOfWeek` | calculate-leave-days.js:9 | the day of the week is one of 0..6 |
| `Calendar.DayOfWeekNext` | calculate-leave-days.js:9 | the next day has the next day of the week, and Saturday (6) is followed by Sunday (0) |
| `Calendar.Epoch` | calculate-leave-days.js:8-9 | 1970-01-01 is day 0 and `getDay` reads it as Thursday (4) |
| `Calendar.AddMonths` | calculate-leave-days.js:166-174 | k months after a month is a valid month exactly k months later by month index, with the year wrapping |
| `Calendar.ShiftedYearLength` | calculate-leave-days.js:166-174 | from 1 March to the next 1 March is 366 days when that February has a leap day (Gregorian rule), else 365 |
| `Calendar.MonthLength` | calculate-leave-days.js:166-174 | the first of the next month comes `DaysInMonth` days after the first of this month, for every month and year |
| `LeaveDays.IsWeekend` | calculate-leave-days.js:7-13 | a date is a weekend date exactly when its local time falls in the third or fourth day of a week counted from the Thursday 1970-01-01, that is, on a Saturday or a Sunday |
| `LeaveDays.WeekShape` | calculate-leave-days.js:7-13 | in a week that starts on a Monday, the first five days are not weekend days and the last two are |
| `LeaveDays.WeekendPeriodic` | calculate-leave-days.js:7-13 | a day is a weekend day exactly when the same day a whole number of weeks away is one |
| `LeaveDays.TotalDays` | calculate-leave-days.js:15-20 | the result minus one is the number of whole days between the two instants (floor); it is at least 1 exactly when start is not after end |
| `LeaveDays.TotalDaysSameInstant` | calculate-leave-days.js:19 | a range from an instant to itself counts 1 day |
| `LeaveDays.TotalDaysStep` | calculate-leave-days.js:19 | moving the end one day later raises the count by exactly 1 |
| `LeaveDays.TotalDaysBetweenMidnights` | calculate-leave-days.js:15-20 | from the midnight of day a to the midnight of day b the count is b - a + 1, in UTC or local time |
| `LeaveDays.TotalDaysCalendarDays` | calculate-leave-days.js:15-20 | for start <= end the count is the number of local calendar days the range touches, or one fewer |
| `LeaveDays.WeekendDaysIn` | calculate-leave-days.js:22-36 | n consecutive days hold at most n weekend days |
| `LeaveDays.WeekendDays` | calculate-leave-days.js:22-36 | the weekend count of a range is 0 when start is after end, and never more than the range's day count |
| `LeaveDays.CalculateWeekendDays` | calculate-leave-days.js:22-36 | the loop visits the `TotalDays` local days from start's, one per step, and counts the weekend days among them; the result is 0 when start is after end and at most `TotalDays` otherwise |
| `LeaveDays.WeekendDaysInSplit` | calculate-leave-days.js:27-33 | the weekend count of a run of days is the sum of the counts of its two halves |
| `LeaveDays.SevenDaysTwoWeekendDays` | calculate-leave-days.js:27-33 | any 7 consecutive days hold exactly 2 weekend days |
| `LeaveDays.WeekRangeTwoWeekendDays` | calculate-leave-days.js:22-36 | any range that counts seven days holds exactly two weekend days, on a host at any offset |
| `LeaveDays.WholeWeeks` | calculate-leave-days.js:27-33 | any 7k consecutive days hold exactly 2k weekend days |
| `LeaveDays.WeekendDaysFromMonday` | calculate-leave-days.js:27-33 | counting n days from a Monday gives 2 per whole week, plus 1 when the leftover is six days (Monday to Saturday) |
| `LeaveDays.WorkingDaySetSize` | calculate-leave-days.js:22-36 | the number of working days in a run is its length less its weekend count |
| `LeaveDays.HolidayOnWeekend` | calculate-leave-days.js:123 | a fetched date passed to `isWeekend` as a date-only string is read as the date shifted by the whole days the host is ahead of or behind UTC |
| `LeaveDays.HolidayWeekendTest` | calculate-leave-days.js:122-124 | on a host at or east of UTC, a fetched date is dropped exactly when it is a Saturday or Sunday; west of UTC the weekday of the day before it decides |
| `LeaveDays.WorkingDayHolidays` | calculate-leave-days.js:122-124 | the filtered list is never longer than the fetched list |
| `LeaveDays.WorkingDayHolidaysMultiplicity` | calculate-leave-days.js:122-124 | each weekday date is kept as many times as it was fetched; each weekend date is dropped every time |
| `LeaveDays.WorkingDayHolidaysAppend` | calculate-leave-days.js:122-124 | filtering two lists joined together gives the two filtered lists joined together, in order |
| `LeaveDays.CalculatePublicHolidays` | calculate-leave-days.js:119-134 | a count is returned exactly when the fetch succeeded; it is the number of non-weekend dates and at most the number fetched; a failed fetch gives no count and carries the kind of failure |
| `LeaveDays.RepeatedHolidaysCountTwice` | calculate-leave-days.js:121-126 | duplicates are not removed: a list fetched twice over is counted twice |
| `LeaveDays.KeptHolidays` | calculate-leave-days.js:122-126 | on a host at or east of UTC, when the dates have no repeats and lie in a run, the dates kept are exactly the fetched dates that are working days of the run, each once |
| `LeaveDays.TotalLeaveDays` | calculate-leave-days.js:139-152 | the leave total is total days less weekend days less the non-weekend holidays after a successful fetch, and less nothing after a failed one; holidays never raise it |
| `LeaveDays.CalculateTotalLeaveDays` | calculate-leave-days.js:138-155 | after a successful fetch the result is total days - weekend days - non-weekend holidays; after a failed fetch it is total days - weekend days |
| `LeaveDays.FailedFetchCountsNoHolidays` | calculate-leave-days.js:141-148 | a failed fetch gives the same total as a fetch that found no holidays |
| `LeaveDays.LeaveDaysBounds` | calculate-leave-days.js:150-152 | with no holidays, the total for a range with start <= end lies between 0 and its day count |
| `LeaveDays.WorkingWeekSpan` | calculate-leave-days.js:150-152 | with no holidays, a span that starts on a Monday and ends by that Friday gives as many leave days as it has days |
| `LeaveDays.LeaveDaysNotClamped` | calculate-leave-days.js:150-154 | the total is not clamped at 0: a reversed range with one weekday holiday gives -1 |
| `LeaveDays.RepeatedHolidayGoesNegative` | calculate-leave-days.js:150-152 | a forward range goes below zero when a weekday holiday is listed twice: a single Monday with its holiday listed twice gives -1 |
| `LeaveDays.LeaveDaysAreWorkingDaysOff` | calculate-leave-days.js:138-155 | on a host at or east of UTC, when holiday dates have no repeats and lie inside the range, the total is the number of working days in the range that are not holidays, and so it is at least 0 |
| `LeaveDays.MonthStartsIncrease` | calculate-leave-days.js:166-174 | the first of the month k months later lies between 28k and 31k days later |
| `LeaveDays.DefaultRange` | calculate-leave-days.js:160-178 | with no bounds, the query runs from UTC midnight on the first of last month to UTC midnight on the first of the month 7 months ahead; that is 8 months apart, contains today, and spans at least 224 days |
| `LeaveDays.HolidayQueryRange` | calculate-leave-days.js:160-178 | a bound that is given is queried unchanged; a missing start falls before today and a missing end after it |
| `LeaveDays.PublicHolidayDates` | calculate-leave-days.js:160-191 | a failed fetch gives an empty list; otherwise the list has one instant per fetched date, in order, each at local midnight of that date |
| `WorkedExamples.May27IsMonday` | jest-tests/calculate-leave-days.test.js:10 | 2024-05-27 is day 19870, a Monday |
| `WorkedExamples.TotalDaysCases` | jest-tests/calculate-leave-days.test.js:9-20 | from 2024-05-27, each end date from 05-27 to 06-05 gives the counts 1 to 10 the suite expects |
| `WorkedExamples.WeekendDaysCases` | jest-tests/calculate-leave-days.test.js:40-56 | on a host at or east of UTC, the 15 weekend counts the suite expects hold |
| `WorkedExamples.WestOfUtcHost` | jest-tests/calculate-leave-days.test.js:41 | on a host five hours behind UTC, the single day 2024-05-27 counts one weekend day, not the 0 the suite expects |
| `WorkedExamples.ObservedHolidaysFiltered` | jest-tests/calculate-leave-days.test.js:86 | of 2024-05-29, Sunday 2024-06-16 and Monday 2024-06-17, the filter keeps the first and last at or east of UTC, and only the first five hours behind UTC |
| `WorkedExamples.ObservedHolidayCases` | jest-tests/calculate-leave-days.test.js:82-114 | if the service returns 2024-05-29, Sunday 2024-06-16 and its observed Monday 2024-06-17, then 2 holidays are counted for 05-27..06-20 and the total for 05-27..06-18 is 15 |
| `WorkedExamples.WestOfUtcHolidays` | jest-tests/calculate-leave-days.test.js:86 | for that same fetch result, on a host five hours behind UTC, only 1 holiday is counted for 05-27..06-20, not the 2 the suite expects |

## Left out

- The HTTPS request, response-body accumulation, JSON parsing and error messages of `getPublicHolidayDatesUsingGoogleCalendarAPIAsync` (calculate-leave-days.js:41-115) are out of the model. The fetch is a parameter. Its failures are the kinds in `FetchError`, and message texts are not modelled.
- The environment-variable lookup (calculate-leave-days.js:42-47) is only the `MissingApiKey` failure.
- Promises, `await` and `console.error` logging (calculate-leave-days.js:145, 187) are left out. The calls are composed in sequence, and a caught error becomes a value.
- Parsing of date strings is left out. Fetched holidays are given as day numbers, and invalid dates (`NaN`) do not occur.
- Daylight-saving time and time-zone rules are left out. The host's local time is a fixed offset from UTC, so `setDate(getDate() + 1)` always adds exactly one day of milliseconds.
- The clock is a parameter: `today` is the UTC date that `dayjs.utc()` reads (calculate-leave-days.js:161).
- `if (!start)` also treats other falsy values, such as `""` or the number `0`, as missing (calculate-leave-days.js:164, 172). The model uses an `Option`, so only an absent bound is missing.
- JavaScript numbers are doubles. Instants are unbounded integers, which agree with doubles for every valid `Date`. The difference `endDate - startDate` (calculate-leave-days.js:19) is exact only while it stays within 2^53 ms. Ranges longer than about 285,000 years round in the source and not in `TotalDays`.
- CalculatePublicHolidays: its failure carries the model's `FetchError`, which the source does not keep. The catch (calculate-leave-days.js:128-133) rethrows a new `Error` built from the inner error's `.message` only. A missing API key is rejected with a bare string (line 46), which has no `.message`, so the rethrown text reads `[undefined]` and the cause is lost. No caller reads the cause: `calculateTotalLeaveDaysAsync` only logs it and counts zero holidays.
- The `Date` object that `calculateWeekendDays` mutates is a fresh copy private to the call. It is a local variable of the method, so there is no aliasing to model.
- The holiday lists and counts the integration tests expect (jest-tests/calculate-leave-days.test.js:81-180) depend on live data from the calendar service. Only `ObservedHolidayCases` restates one of them, for a given fetch result.
