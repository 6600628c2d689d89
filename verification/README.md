# Time Shield: verified model

Time Shield is a header-only C++ library for calendars, clocks and timers. This project models five parts of it in
Dafny and proves what they are for:

1. **Calendar arithmetic.** The table-free, loop-free conversion between day counts and dates is proved equal to the
   calendar that steps one day at a time; on it stand the older countdown algorithms, `start_of_year`, the ISO week
   calendar and the workday ranks.
2. **The timer scheduler.** A step system in which every locked section and every callback start is one step, taken in
   any order by any number of executors, and a mutable class whose methods are exactly those steps.
3. **The NTP pool and service.** The robust median over reordered arrays, backoff and rate limits over whole runs, and
   the start/stop/process-exit lifecycle shared by many threads.
4. **Daylight saving.** The two independently written directions of European and US Eastern time are inverse except on
   exactly described hours.
5. **Text.** The formatter and the format parser share one grammar and undo each other; so do ISO 8601 printing and
   parsing.

`dafny verify dfyconfig.toml` checks everything. Citations are paths and lines of the library.

## How the modules fit together

| module | what it holds |
|---|---|
| `Words` | 64-bit wrap-around, truncating and floor division, the high half of a product |
| `Calendar` | the reference calendar: tomorrow, yesterday, and the closed count of days |
| `FastDate`, `WideFastDate`, `Timestamps` | the fast date algorithms, validation, seconds to date-times and back |
| `Legacy`, `StartOfYear`, `DayOfYearCode` | the countdown algorithms, the start of a year, the day of a year |
| `IsoWeek`, `Workdays`, `Zones` | ISO weeks, workdays of a month, daylight saving |
| `TimerSpec`, `TimerProofs`, `TimerRuns`, `TimerRate`, `TimerSettings`, `TimerSchedulerModel` | the timer step system, its invariant, safety over runs, the fixed rate, settings and single shots, the class |
| `RobustMedian`, `NtpPool`, `NtpClientPoolModel` | medians and trimming, backoff over runs, the pool class |
| `NtpService`, `NtpServiceCalls`, `NtpTimeServiceModel` | the service step system, what its calls answer, the class |
| `Text`, `Formats`, `FormatRoundTrip`, `FormatTheorem`, `FormatSpellings`, `LeadingLiterals`, `FormatCode`, `FormatParserCode` | decimal text, the grammar, the round trip, other spellings, the exceptions, the two scanners |
| `Iso8601`, `Iso8601RoundTrip`, `Iso8601Language`, `IsoWeekText`, `Iso8601ParserCode` | ISO 8601 text, its round trip, the accepted language, week date text, the parser |

## Results that differ from what one might expect

Where a property fails, the model keeps the code and the exact condition is proved.

- `start_of_year` is one day off exactly on 31 December of a leap year outside 1970..2099 (`StartOfYear.StartOfYearTs`).
- A date written day first is valid from year 32 on, but converted rightly exactly from 1970 on (`Timestamps.DayFirst`).
- The countdown of `is_leap_year_ts` and `legacy::years_since_epoch` names the previous year exactly strictly inside
  1 January of a leap year (`Legacy.IsLeapYearTs`, `Legacy.YearsSinceEpochLegacy`); `legacy::to_date_time` is a day
  early there and at the midnight that ends it, and leaves the time of day unset exactly at the two midnights where its
  countdown ends (`Legacy.ToDateLegacy`, `Legacy.MidnightAfterNewYear2000`).
- Before 2002 `cet_to_gmt` ends summer time when October's last Sunday begins, because both arms of its stop-hour test
  return the same offset; `gmt_to_cet` ends it at 01:00 UTC (`Zones.CetRoundTripFromGmtBefore2002`,
  `Zones.OctoberSunday1990`).
- `day_of_week_date` matches the day count on every date from 1 March of year 0 on; earlier only where the year, counted
  from March, is a leap year and the sum is not negative or is a multiple of 7 (`IsoWeek.DayOfWeekDateExactly`).
- An inactive timer's callback can begin before the next start exactly when a collected record of the timer still waits
  and the timer has a callback or an owner who can give it one (`TimerRuns.InactiveCanBegin`). So plain `stop()` is not
  final (`TimerRuns.PlainStopIsTooLate`); `stop_and_wait()` is with a single executor (`TimerRuns.StopAndWait`), but not
  with two (`TimerRuns.TwoExecutorsStopTooEarly`).
- A timer restarted in its own callback survives exactly when it is not single-shot at the moment its old record is
  finalized, whatever it was when restarted (`TimerRuns.RestartInsideCallback`, `TimerRuns.RestartThenSingleShot`).
- `init` and `apply_config_now` report success although no runner is in place exactly when all went well but process exit
  had begun by the time the thread judged its runner (`NtpService.SuccessMeansRunning`, `NtpService.InitDuringExit`).
- `shutdown` leaves a runner in place exactly when it finds the service stopped with one, as after a failed rebuild of a
  dead runner (`NtpService.ShutdownOutcome`, `NtpService.ShutdownLeavesRunner`).
- A literal at the start of a format is printed twice. Before a different literal the text is never read back
  (`FormatTheorem.TwoLiteralsUnreadable`); before `%Y` it is read back exactly if the literal is `0` or `+` and the year
  is not negative, or `-` and the year is 0 (`LeadingLiterals.LeadingLiteralBeforeYear`). With `-` and a later year the
  parser succeeds with the negated year, so a wrong timestamp (`LeadingLiterals.MinusDateMisread`).
- `%F` prints two minus signs for negative years, so a format that holds it is read back exactly from year 0 on
  (`FormatTheorem.IsoDateFormats`); `%ss` is printed but never parsed (`FormatTheorem.DoubleSecondsUnreadable`).
- Milliseconds survive the date-time structure exactly from -9223372036854775000 on; the 808 counts below give
  `ERROR_TIMESTAMP` (`Iso8601RoundTrip.BackToMs`).
- ISO 8601 text is read back exactly from local year 1000 to 9999: other years are printed without padding to four
  digits (`Iso8601RoundTrip.ParseOfIsoText`). The comment on `parse_fraction_to_ms` promises up to nine digits; the code
  refuses more than three, and the model follows the code.

## Model

| member | source | states |
|---|---|---|
| `Words.FloorForms` | include/time_shield/detail/fast_date.hpp:39-47 | C++ truncating quotient and remainder give the floor forms after the sign fix-up |
| `Words.MulHiAgree` | include/time_shield/detail/mul_hi.hpp:19-44 | the 32-bit-piece product is the high word of the exact 128-bit product, and no product or sum on the way, the last one with its carry included, overflows |
| `FastDate.DaysFromDateCorrect` | include/time_shield/detail/fast_date.hpp:59-112 | the day count of a valid date, despite unsigned wrap and the signed branch before year 0, is the day at which the day-by-day calendar reaches it |
| `FastDate.DateFromDaysCorrect` | include/time_shield/detail/fast_date.hpp:118-240 | for every day count a timestamp can produce, the magic-constant algorithm returns the date reached by stepping one day at a time, and the year-only variant its year |
| `WideFastDate.FormsAgree` | include/time_shield/detail/fast_date.hpp:156-240 | the run-time forms with 128-bit products return the same date and year as the constexpr forms for every day count |
| `WideFastDate.DateFromDaysWideCorrect` | include/time_shield/detail/fast_date.hpp:156-240 | so they, too, are the day-by-day calendar |
| `FastDate.DaysAndDatesBiject` | include/time_shield/detail/fast_date.hpp:59-192 | day counts and valid dates determine each other |
| `FastDate.CenturyCount` | include/time_shield/detail/fast_date.hpp:118-155 | the rounded-down reciprocal gives the century count, one short only at multiples of an era, where the correction absorbs it |
| `FastDate.Drift` | include/time_shield/detail/fast_date.hpp:118-155 | how far the rounded-up reciprocal of the four-year cycle drifts over all timestamps |
| `FastDate.CutPoints` | include/time_shield/detail/fast_date.hpp:118-155 | the packed month and day fields tolerate that drift: every day falls in its own month |
| `FastDate.SplitUnixDay` | include/time_shield/detail/fast_date.hpp:39-47 | days and seconds of the day are floor quotient and remainder, also before 1970 |
| `Timestamps.IsLeapYearDate` | include/time_shield/validation.hpp:56-58 | the bit-mask rule is the Gregorian leap rule for every year |
| `Timestamps.IsValidDateExactly` | include/time_shield/validation.hpp:230-258 | exactly the calendar dates in the year range are valid, in either argument order |
| `Timestamps.ToDateTimeCorrect` | include/time_shield/date_time_conversions.hpp:160-185 | the date-time of any 64-bit timestamp is the reference date and the time of day |
| `Timestamps.ToTimestampCorrect` | include/time_shield/date_time_conversions.hpp:382-399 | the timestamp of a date-time is its day number and clock in seconds |
| `Timestamps.TimestampRoundTrip` | include/time_shield/date_time_conversions.hpp:160-399 | timestamp to date-time and back is the identity on all of int64 |
| `Timestamps.DateTimeRoundTrip` | include/time_shield/date_time_conversions.hpp:160-399 | date-time to timestamp and back is the identity wherever the timestamp fits |
| `Timestamps.DayFirst` | include/time_shield/date_time_conversions.hpp:360-399 | a date written day first gets the timestamp of the date if and only if its year is 1970 or later, although it is valid from year 32 on |
| `FormatTheorem.EitherOrder` | include/time_shield/date_time_conversions.hpp:436-460 | the checked conversion gives the same for both orders from 1970 on, whatever the milliseconds |
| `Timestamps.YearsSinceEpoch` | include/time_shield/unix_time_conversions.hpp:68-72 | the fast year of a timestamp is the year of the reference calendar |
| `Legacy.YearsSinceEpochLegacy` | include/time_shield/unix_time_conversions.hpp:28-56 | the 400/100/4/1-year countdown names the right year except strictly inside 1 January of a leap year |
| `Legacy.IsLeapYearTs` | include/time_shield/validation.hpp:84-112 | the leap test of a timestamp is wrong exactly there |
| `Legacy.NewYear2000IsMisnamed` | include/time_shield/validation.hpp:84-112 | a timestamp on which it is wrong |
| `Legacy.ToTimestampUncheckedLegacy` | include/time_shield/date_time_conversions.hpp:306-357 | the legacy conversion equals the fast one on every valid date-time of years -2600..MAX_YEAR |
| `Legacy.ToDateLegacy` | include/time_shield/date_time_conversions.hpp:47-143 | the date is right except on 1 January of a leap year after midnight and the midnight that ends it, where it is a day early; the time of day is right wherever it is set, and unset exactly at midnight of 1 January and, in leap years, of 2 January |
| `Legacy.MidnightAfterNewYear2000` | include/time_shield/date_time_conversions.hpp:47-143 | 2000-01-02 00:00:00 is such a moment: a day early and without a time |
| `Legacy.DateToUnixDayAgrees` | include/time_shield/unix_time_conversions.hpp:89-102 | the legacy day count is the day number and equals the fast one |
| `StartOfYear.StartOfYearTs` | include/time_shield/date_time_conversions.hpp:800-853 | the result is midnight on 1 January of the year, if and only if the timestamp is not on 31 December of a leap year outside 1970..2099 |
| `StartOfYear.StartOfYearFast` | include/time_shield/date_time_conversions.hpp:802-813 | the four-year branch is right on all of 1970..2099 |
| `StartOfYear.LastDayOf2400` | include/time_shield/date_time_conversions.hpp:815-853 | a timestamp on which the exception occurs |
| `DayOfYearCode.ComputeDayOfYearCounts` | include/time_shield/time_format_parser.hpp:395-402 | the day of the year counts the days since 1 January |
| `DayOfYearCode.ResolveDayOfYear` | include/time_shield/time_format_parser.hpp:367-393 | succeeds exactly on the days the year has and returns the date with that day of the year |
| `DayOfYearCode.DayOfYearDetermines` | include/time_shield/time_format_parser.hpp:367-402 | the day of the year determines the date |
| `IsoWeek.DayOfWeekDateCorrect` | include/time_shield/date_conversions.hpp:75-85 | from year 1 on the closed weekday formula is the day count modulo 7 |
| `IsoWeek.DayOfWeekDateExactly` | include/time_shield/date_conversions.hpp:75-85 | for every date: the formula is the day count modulo 7 if and only if its March-based year is not negative, or is a leap year and the sum is not negative or a multiple of 7 |
| `IsoWeek.DayOfWeekDateBeforeYearZero` | include/time_shield/date_conversions.hpp:75-85 | 1 March of year -1 is a date on which it is not |
| `IsoWeek.WeekdaysAgree` | include/time_shield/date_time_conversions.hpp:992-998 | from year 1 on the weekday of a timestamp, counted in days, is the weekday of its date by the formula |
| `IsoWeek.ToIsoWeekDateCorrect` | include/time_shield/iso_week_conversions.hpp:55-67 | the week date is the one that the week of the Thursday defines (section 4.1.4 of ISO 8601:2004) |
| `IsoWeek.IsoOfDayInverts` | include/time_shield/iso_week_conversions.hpp:55-67 | in the reference week calendar a day's week date names that day |
| `IsoWeek.DayOfIsoInverts` | include/time_shield/iso_week_conversions.hpp:114-127 | and a week date's day has that week date |
| `IsoWeek.IsoWeeksInYearCorrect` | include/time_shield/iso_week_conversions.hpp:91-94 | 53 weeks exactly when 1 January is a Thursday, or a Wednesday in a leap year |
| `IsoWeek.IsValidIsoWeekDateExactly` | include/time_shield/iso_week_conversions.hpp:101-110 | exactly the week dates of the ISO calendar up to MAX_YEAR are valid |
| `IsoWeek.DateIsoRoundTrip` | include/time_shield/iso_week_conversions.hpp:55-127 | date to week date and back is the identity |
| `IsoWeek.IsoDateRoundTrip` | include/time_shield/iso_week_conversions.hpp:55-127 | week date to date and back is the identity |
| `Workdays.IsWorkdayCorrect` | include/time_shield/validation.hpp:372-391 | a workday is a valid date from Monday to Friday |
| `Workdays.CountWorkdaysInMonth` | include/time_shield/workday_conversions.hpp:55-67 | the loop counts the workdays of the month |
| `Workdays.CountRange` | include/time_shield/workday_conversions.hpp:55-67 | every month has 20 to 23 workdays |
| `Workdays.WorkdayIndexInMonth` | include/time_shield/workday_conversions.hpp:73-91 | the index is the rank among the month's workdays, 0 for other days |
| `Workdays.RankOrders` | include/time_shield/workday_conversions.hpp:73-91 | the index orders workdays as the calendar does and is one-to-one |
| `Workdays.RankReached` | include/time_shield/workday_conversions.hpp:73-91 | every index from 1 to the count is reached |
| `Workdays.RankInRange` | include/time_shield/workday_conversions.hpp:73-91 | every workday has an index from 1 to the count |
| `Workdays.FirstWorkdayDay` | include/time_shield/workday_conversions.hpp:23-34 | the first workday, of index 1; there is one in every supported month |
| `Workdays.LastWorkdayDay` | include/time_shield/workday_conversions.hpp:39-50 | the last workday, whose index is the count |
| `Workdays.IsWithinFirstWorkdays` | include/time_shield/workday_conversions.hpp:106-116 | holds exactly for the first N workdays |
| `Workdays.IsWithinLastWorkdays` | include/time_shield/workday_conversions.hpp:131-141 | holds exactly for the last N workdays |
| `Zones.LastSundayAgrees` | include/time_shield/time_zone_conversions.hpp:25-96 | the scan of one direction and the closed formula of the other find the same last Sunday |
| `Zones.CetToGmtImpl` | include/time_shield/time_zone_conversions.hpp:25-96 | the scanning loops compute the offset rules of before and after 2002 |
| `Zones.GmtToCetBySwitches` | include/time_shield/time_zone_conversions.hpp:98-132 | summer time runs between the two switch instants of the UTC year |
| `Zones.CetToGmtBySwitches` | include/time_shield/time_zone_conversions.hpp:25-96 | and between their local counterparts in the other direction |
| `Zones.CetRoundTripFromGmt` | include/time_shield/time_zone_conversions.hpp:25-132 | GMT to CET and back is the identity except for an hour's shift in the repeated hour of October's last Sunday |
| `Zones.CetRoundTripFromLocal` | include/time_shield/time_zone_conversions.hpp:25-132 | CET to GMT and back is the identity except in the skipped hour of March's last Sunday |
| `Zones.CetRoundTripFromGmtBefore2002` | include/time_shield/time_zone_conversions.hpp:33-63 | before 2002 the return from GMT is an hour late exactly in the three summer hours of October's last Sunday |
| `Zones.CetRoundTripFromLocalBefore2002` | include/time_shield/time_zone_conversions.hpp:33-63 | before 2002 the return to local time fails exactly in the skipped hour and the first two hours of that Sunday |
| `Zones.OctoberSunday1990` | include/time_shield/time_zone_conversions.hpp:33-63 | both failures at midnight UTC and at 00:30 local time on 28 October 1990 |
| `Zones.EuropeanRoundTripFromGmt` | include/time_shield/time_zone_conversions.hpp:134-140 | the same for every European zone shifted from CET |
| `Zones.EuropeanRoundTripFromLocal` | include/time_shield/time_zone_conversions.hpp:134-140 | the same from local time |
| `Zones.EuropeanRoundTripFromGmtBefore2002` | include/time_shield/time_zone_conversions.hpp:134-140 | the same before 2002, late exactly in the last three UTC hours of summer time |
| `Zones.EuropeanRoundTripFromLocalBefore2002` | include/time_shield/time_zone_conversions.hpp:134-140 | the same before 2002 from local time |
| `Zones.EuropeanBySwitches` | include/time_shield/time_zone_conversions.hpp:134-140 | a European zone is its standard offset ahead of UTC, and one hour more between the switches |
| `Zones.EuropeanSwitches2024` | include/time_shield/time_zone_conversions.hpp:98-132 | the switches of 2024 |
| `Zones.FirstSundayCorrect` | include/time_shield/time_zone_conversions.hpp:142-190 | the Sunday that the US rules start from is the first of the month |
| `Zones.EasternBySwitches` | include/time_shield/time_zone_conversions.hpp:142-190 | the US rules of before and after 2007 hold between two local switch instants |
| `Zones.EasternOffsets` | include/time_shield/time_zone_conversions.hpp:301-315 | Eastern Time is five hours behind UTC, four between the switches, in both directions |
| `Zones.EasternSwitches2024` | include/time_shield/time_zone_conversions.hpp:142-190 | the switches of 2024 |
| `Zones.EasternSwitches2006` | include/time_shield/time_zone_conversions.hpp:142-190 | and, by the older rule, of 2006 |
| `Zones.EasternRoundTripFromGmt` | include/time_shield/time_zone_conversions.hpp:301-315 | GMT to ET and back is the identity except in the hour before the autumn switch |
| `Zones.EasternRoundTripFromLocal` | include/time_shield/time_zone_conversions.hpp:301-315 | ET to GMT and back is the identity except in the hour skipped in spring |
| `TimerProofs.NextKeepsInv` | include/time_shield/TimerScheduler.hpp:352-512 | every step of any thread keeps the scheduler invariant |
| `TimerProofs.RunKeepsInv` | include/time_shield/TimerScheduler.hpp:352-512 | so it holds in every reachable state |
| `TimerRuns.QueuedGenerations` | include/time_shield/TimerScheduler.hpp:378-397 | queue entries of one timer have distinct generations, none above the timer's current one |
| `TimerRuns.ActiveMeansOneRecord` | include/time_shield/TimerScheduler.hpp:378-512 | a registered timer is active exactly when one record of its generation exists, queued or in flight but not both |
| `TimerRuns.IdsNeverReused` | include/time_shield/TimerScheduler.hpp:352-359 | a new timer's id names no earlier timer and goes on naming this one |
| `TimerRuns.DueOncePerTimer` | include/time_shield/TimerScheduler.hpp:435-464 | one collecting pass picks each timer at most once, even at interval zero |
| `TimerRuns.SoloRun` | include/time_shield/TimerScheduler.hpp:435-512 | with one executor, `running` is set exactly for the timers of the batch in flight, each once |
| `TimerRuns.StopAndWait` | include/time_shield/TimerScheduler.hpp:570-577 | with one executor, once `stop_and_wait` returned no record of the timer is handled, so no callback begins, before it is started again, over every interleaving |
| `TimerRuns.InactiveCanBegin` | include/time_shield/TimerScheduler.hpp:466-483 | an inactive timer's callback can begin in some continuation without a new start if and only if a record of it waits and it has a callback or is registered |
| `TimerRuns.PlainStopIsFinal` | include/time_shield/TimerScheduler.hpp:389-397 | so a plain stop prevents every further callback until the next start except in that case |
| `TimerRuns.StoppedCanBegin` | include/time_shield/TimerScheduler.hpp:570-577 | the same at every moment between a stop and the next start, with any number of executors |
| `TimerRuns.WaitingCanBegin` | include/time_shield/TimerScheduler.hpp:466-483 | the executors can always work their way to a waiting record and begin the timer's callback, if it has one or is still registered |
| `TimerRuns.PlainStopIsTooLate` | include/time_shield/TimerScheduler.hpp:466-483 | a run in which a callback that was set begins after the plain stop |
| `TimerRuns.TwoExecutorsStopTooEarly` | include/time_shield/TimerScheduler.hpp:570-577 | a run with two executors in which it begins although the timer was stopped and `running` read false |
| `TimerRuns.RestartInsideCallback` | include/time_shield/TimerScheduler.hpp:485-512 | over any run: a timer restarted while its record is in flight keeps the new start when that record is finalized if and only if it is not single-shot then, provided nobody stopped, restarted or destroyed it and no other record of it was finalized meanwhile |
| `TimerRuns.RestartWithOneExecutor` | include/time_shield/TimerScheduler.hpp:485-512 | with one executor that last proviso always holds |
| `TimerRuns.RestartThenSingleShot` | include/time_shield/TimerScheduler.hpp:485-512 | a run in which the callback restarts a repeating timer, makes it single-shot, and so cancels it |
| `TimerRate.FixedRate` | include/time_shield/TimerScheduler.hpp:435-512 | the n-th firing of an undisturbed repeating timer is stamped start + n * interval, however late the executors are |
| `TimerRate.OneFlight` | include/time_shield/TimerScheduler.hpp:435-512 | no two records in flight carry the same timer and generation |
| `TimerSettings.SettingsKept` | include/time_shield/TimerScheduler.hpp:378-512 | mode, interval and callback of a timer stay what they are until the user sets them, over any run of starts, stops and firings |
| `TimerSettings.LastSettingHolds` | include/time_shield/TimerScheduler.hpp:539-596 | and are then what the user last set, a negative interval counting as 0 |
| `TimerSettings.ActiveUntilEnded` | include/time_shield/TimerScheduler.hpp:361-512 | over any run a started timer is active exactly until it is stopped, destroyed, orphaned, or finalized while single-shot |
| `TimerSettings.RegisteredUntilGone` | include/time_shield/TimerScheduler.hpp:352-376 | and registered exactly until it is destroyed or orphaned |
| `TimerSettings.CreatedSettings` | include/time_shield/TimerScheduler.hpp:352-359 | a new timer is registered, idle and repeating, with interval 0 and no callback |
| `TimerSettings.SingleShotFiresOnce` | include/time_shield/TimerScheduler.hpp:485-501 | a timer that is single-shot when started is handled at most once for that start, for the time it was started for, unless it is started again or its mode is changed |
| `TimerSettings.SingleShotEnds` | include/time_shield/TimerScheduler.hpp:497-501 | once that record is finalized it is inactive, with no current record, until it is started again |
| `TimerSchedulerModel.TimerScheduler.constructor` | include/time_shield/TimerScheduler.hpp:249 | a new scheduler is the empty state |
| `TimerSchedulerModel.TimerScheduler.CreateTimerState` | include/time_shield/TimerScheduler.hpp:352-359 | registers a fresh timer under the next id |
| `TimerSchedulerModel.TimerScheduler.DestroyTimerState` | include/time_shield/TimerScheduler.hpp:361-376 | clears the callback, then deactivates, raises the generation and unregisters |
| `TimerSchedulerModel.TimerScheduler.StartTimer` | include/time_shield/TimerScheduler.hpp:378-387 | activates on a new generation and queues one entry for it |
| `TimerSchedulerModel.TimerScheduler.StopTimer` | include/time_shield/TimerScheduler.hpp:389-397 | deactivates and raises the generation, leaving the queue alone |
| `TimerSchedulerModel.TimerScheduler.CollectDueTimersLocked` | include/time_shield/TimerScheduler.hpp:435-464 | ends with nothing due in the queue and returns, in order of fire time, exactly the live due entries; only `running` changes, and only for them |
| `TimerSchedulerModel.TimerScheduler.FinalizeTimer` | include/time_shield/TimerScheduler.hpp:485-512 | clears `running`; then nothing, cancels a single-shot timer, or requeues an undisturbed repeating one an interval later |
| `RobustMedian.NthElement` | include/time_shield/ntp_client_pool.hpp:463-467 | puts the value of the wanted rank in place, smaller values before and larger after it, and only permutes |
| `RobustMedian.Median` | include/time_shield/ntp_client_pool.hpp:463-474 | returns the middle value, or the truncated mean of the two middle values, of the original contents |
| `RobustMedian.MedianIsUnique` | include/time_shield/ntp_client_pool.hpp:463-474 | there is only one median |
| `RobustMedian.MedianOfPermutation` | include/time_shield/ntp_client_pool.hpp:463-474 | it does not depend on the order of the values |
| `RobustMedian.MedianNegated` | include/time_shield/ntp_client_pool.hpp:463-474 | the median of the negated values is the negated median |
| `RobustMedian.MedianHalfWay` | include/time_shield/ntp_client_pool.hpp:472-473 | of an even number of values it is half way between the two middle ones |
| `RobustMedian.MedianOfMajority` | include/time_shield/ntp_client_pool.hpp:463-474 | it lies wherever a strict majority of the values lies |
| `RobustMedian.MedianMadTrim` | include/time_shield/ntp_client_pool.hpp:479-506 | returns the median of the values within three median absolute deviations, and never reaches its empty branch |
| `RobustMedian.TrimmedMedianOf` | include/time_shield/ntp_client_pool.hpp:484-504 | every value within three median absolute deviations of the median takes part in the final median, as often as it occurs, and no other |
| `RobustMedian.KeptIsMajority` | include/time_shield/ntp_client_pool.hpp:484-504 | trimming with a non-zero deviation keeps a strict majority |
| `RobustMedian.TrimmedMedianOfMajority` | include/time_shield/ntp_client_pool.hpp:479-506 | with a strict majority in [a, b] the result lies in [a - 3(b - a), b + 3(b - a)] |
| `NtpPool.BackoffOfHistory` | include/time_shield/ntp_client_pool.hpp:638-664 | after any history of queries backoff and failure count depend only on the failures since the last success |
| `NtpPool.NextAllowedOfHistory` | include/time_shield/ntp_client_pool.hpp:599-664 | the next query is allowed after the minimum interval from a success, after the backoff from a failure |
| `NtpPool.ServerOverRun` | include/time_shield/ntp_client_pool.hpp:399-423 | over any run of measurements a server's state is what its own queries made of it, and no query came before it was allowed |
| `NtpPool.BackoffOverRun` | include/time_shield/ntp_client_pool.hpp:577-664 | k failures in a row leave the initial backoff for k = 1 and min(max, 2^(k-1) * initial) after that; a success clears it |
| `NtpPool.StatusOverRun` | include/time_shield/ntp_client_pool.hpp:638-646 | over any run a server reports success, error, offset and delay of its latest reply |
| `NtpPool.QueriesAreSpaced` | include/time_shield/ntp_client_pool.hpp:577-664 | two successive queries of a server are at least its minimum interval or its backoff apart |
| `NtpClientPoolModel.SmoothedWithin` | include/time_shield/ntp_client_pool.hpp:698-710 | smoothing never overshoots |
| `NtpClientPoolModel.SmoothedNear` | include/time_shield/ntp_client_pool.hpp:698-710 | a step goes the fraction alpha of the way to the estimate, less the lost fraction of a microsecond |
| `NtpClientPoolModel.SmoothedGrows` | include/time_shield/ntp_client_pool.hpp:698-710 | the larger alpha, the closer to the estimate |
| `NtpClientPoolModel.AcceptedAreUsable` | include/time_shield/ntp_client_pool.hpp:599-678 | the samples that are accepted are those of the successful replies within their server's limit in milliseconds, or without limit |
| `NtpClientPoolModel.EstimateOfReplies` | include/time_shield/ntp_client_pool.hpp:684-696 | the estimate is the median, or trimmed median, of the offsets of those replies |
| `NtpClientPoolModel.BestDelayOfReplies` | include/time_shield/ntp_client_pool.hpp:511-532 | or the offset of the earliest of those with the least usable delay |
| `NtpClientPoolModel.MajorityKeepsOffset` | include/time_shield/ntp_client_pool.hpp:666-713 | a strict majority of truthful samples keeps the pool offset truthful, whatever the others say |
| `NtpClientPoolModel.BestDelayOffset` | include/time_shield/ntp_client_pool.hpp:511-532 | the first accepted sample if its delay is unusable, else the earliest of the smallest usable delay, 0 if none is accepted |
| `NtpClientPoolModel.Shuffle` | include/time_shield/ntp_client_pool.hpp:592 | returns a permutation |
| `NtpClientPoolModel.AcceptedOffsets` | include/time_shield/ntp_client_pool.hpp:667-678 | collects the offsets of the accepted samples in order |
| `NtpClientPoolModel.Aggregate` | include/time_shield/ntp_client_pool.hpp:684-696 | applies the configured aggregation |
| `NtpClientPoolModel.NtpClientPool.constructor` | include/time_shield/ntp_client_pool.hpp:82-85 | offset zero, servers without history |
| `NtpClientPoolModel.NtpClientPool.PickServersLocked` | include/time_shield/ntp_client_pool.hpp:577-597 | picks distinct servers that may be queried now, as many as asked for or all of them |
| `NtpClientPoolModel.NtpClientPool.QueryOne` | include/time_shield/ntp_client_pool.hpp:599-636 | reserves the server, then records the answer |
| `NtpClientPoolModel.NtpClientPool.UpdateServerStateAfterQuery` | include/time_shield/ntp_client_pool.hpp:638-664 | success clears the backoff, failure doubles it up to the maximum and postpones the next query |
| `NtpClientPoolModel.NtpClientPool.UpdateFromSamples` | include/time_shield/ntp_client_pool.hpp:666-713 | with enough accepted samples the offset moves to the smoothed estimate, otherwise nothing changes |
| `NtpClientPoolModel.NtpClientPool.MeasureN` | include/time_shield/ntp_client_pool.hpp:399-423 | one whole measurement: eligible servers queried in order, samples kept, offset updated |
| `NtpService.RunKeepsInv` | include/time_shield/ntp_time_service.hpp:223-654 | the lifecycle invariant holds in every reachable state of any number of threads |
| `NtpService.OneTransitionAtATime` | include/time_shield/ntp_time_service.hpp:223-327 | at most one thread owns a starting or stopping transition, and the state says which |
| `NtpService.NoRunnerLeaks` | include/time_shield/ntp_time_service.hpp:223-327 | between transitions exactly the runner in place is started, and it has the current configuration |
| `NtpService.ExitIsFinal` | include/time_shield/ntp_time_service.hpp:623-654 | once `begin_process_shutdown` has returned the service is stopped with no runner, started or in place, for good |
| `NtpService.LateCallsFail` | include/time_shield/ntp_time_service.hpp:223-236 | after process exit began, `init` and `apply_config_now` return false and change nothing |
| `NtpService.SuccessMeansRunning` | include/time_shield/ntp_time_service.hpp:258-292 | for every published start: a started runner is in place if and only if all went well and process exit had not begun when the thread judged it; success without a runner if and only if all went well and it had |
| `NtpService.SuccessAtOnce` | include/time_shield/ntp_time_service.hpp:236-241 | success found at once under the lock means a started runner in place |
| `NtpService.SuccessWhileExiting` | include/time_shield/ntp_time_service.hpp:258-292 | success without a runner can follow from every state in which a good runner is about to be judged |
| `NtpService.InitDuringExit` | include/time_shield/ntp_time_service.hpp:258-292 | a whole run of two threads in which it happens |
| `NtpService.ShutdownOutcome` | include/time_shield/ntp_time_service.hpp:304-327 | when `shutdown` returns no runner is in place, unless it found the service stopped with one there |
| `NtpService.ShutdownLeavesRunner` | include/time_shield/ntp_time_service.hpp:243-256 | a whole run that leaves a runner so: it died and a new `init` could not build another |
| `NtpServiceCalls.EnterAnswers` | include/time_shield/ntp_time_service.hpp:223-226 | a call waits for the lock, unless it would start a runner after process exit began |
| `NtpServiceCalls.InitAnswers` | include/time_shield/ntp_time_service.hpp:232-256 | `init` under the lock: true at once exactly on a live runner, false at once exactly if none could be built, otherwise it goes on with a runner of an id never seen before, on the current configuration; nothing else changes |
| `NtpServiceCalls.ApplyAnswers` | include/time_shield/ntp_time_service.hpp:531-560 | `apply_config_now` under the lock: false at once exactly if none could be built, the old runner going on if it was alive; otherwise it goes on with a new one and stops the old |
| `NtpServiceCalls.StopAnswers` | include/time_shield/ntp_time_service.hpp:304-318 | `shutdown` and the exit handler take the runner in place into their hands |
| `NtpServiceCalls.PublishedStart` | include/time_shield/ntp_time_service.hpp:223-292 | every published start reports true exactly if its runner started and measured; unless process exit had begun when it was judged, that new runner is then in place, with the configuration it was built with |
| `NtpServiceCalls.ApplySucceeds` | include/time_shield/ntp_time_service.hpp:524-598 | an `apply_config_now` that reports true has put a new runner in place, unless process exit began |
| `NtpTimeServiceModel.FinishSteps` | include/time_shield/ntp_time_service.hpp:223-654 | a call's outcome does not change along the steps of its thread |
| `NtpTimeServiceModel.NtpTimeService.Init` | include/time_shield/ntp_time_service.hpp:223-292 | without interference `init` makes exactly the steps of its thread |
| `NtpTimeServiceModel.NtpTimeService.StartAndPublish` | include/time_shield/ntp_time_service.hpp:258-292 | starting, judging and publishing a new runner |
| `NtpTimeServiceModel.NtpTimeService.ApplyConfigNow` | include/time_shield/ntp_time_service.hpp:524-598 | the same for `apply_config_now`, which stops the old runner first |
| `NtpTimeServiceModel.NtpTimeService.Shutdown` | include/time_shield/ntp_time_service.hpp:304-327 | the same for `shutdown` |
| `NtpTimeServiceModel.NtpTimeService.BeginProcessShutdown` | include/time_shield/ntp_time_service.hpp:623-654 | the same for the exit handler |
| `NtpTimeServiceModel.NtpTimeService.Configure` | include/time_shield/ntp_time_service.hpp:452-497 | a setter succeeds exactly while the service is alive, stopped and without runner |
| `Formats.TimeZoneKeepsMinutes` | include/time_shield/time_zone_struct.hpp:47-105 | an offset survives the hour/minute structure except for its seconds |
| `FormatRoundTrip.ItemsRead` | include/time_shield/time_format_parser.hpp:727-777 | the parser reads back whatever sequence of readable directives was printed, field by field |
| `FormatTheorem.ParseOfToText` | include/time_shield/time_format_parser.hpp:1021-1040 | parsing what `to_string` printed succeeds exactly up to MAX_YEAR and gives back the timestamp, plus the seconds its offset has beyond whole minutes |
| `FormatTheorem.WholeMinutes` | include/time_shield/time_formatting.hpp:372-380 | so up to MAX_YEAR it gives back the timestamp exactly for whole-minute offsets |
| `FormatTheorem.ItemsOfFormat` | include/time_shield/time_formatting.hpp:425-470 | a format written from literals and directives is scanned into just these: a doubled percent sign, and letters counted as often as they are repeated |
| `FormatTheorem.PrintedAlike` | include/time_shield/time_formatting.hpp:49-285 | which directives with repeated letters print alike |
| `FormatTheorem.ClocksComposed` | include/time_shield/time_formatting.hpp:233-285 | `%R` and `%T` print what `%H`, `%M` and `%S` do |
| `FormatTheorem.IsoDateComposed` | include/time_shield/time_formatting.hpp:130-144 | `%F` prints what `%Y`, `%m` and `%d` do, filled up to four digits or with an extra sign |
| `FormatSpellings.ZoneForms` | include/time_shield/time_format_parser.hpp:310-327 | `+hhmm` and `+hh:mm` mean the same offset, and are accepted exactly up to 23:59 |
| `FormatSpellings.SpelledItemsRead` | include/time_shield/time_format_parser.hpp:727-777 | every spelling of the directives is read, field by field: zones with a colon, years with a sign and leading zeros up to 18 digits |
| `FormatSpellings.ParseOfSpelling` | include/time_shield/time_format_parser.hpp:1021-1040 | and parsed to the timestamp of its date-time less the whole minutes of its offset |
| `FormatSpellings.ParseOfRespelledText` | include/time_shield/time_format_parser.hpp:1021-1040 | so any spelling of what `to_string` prints is parsed like the printed text |
| `FormatSpellings.ContradictionRefused` | include/time_shield/time_format_parser.hpp:329-345 | two digits that contradict a field read before are refused |
| `LeadingLiterals.ItemsKeep` | include/time_shield/time_format_parser.hpp:329-345 | a field once read keeps its value whatever follows, or the text is refused |
| `FormatTheorem.LeadingLiteralTwice` | include/time_shield/time_formatting.hpp:435-437 | a literal at the start of a format is printed twice |
| `FormatTheorem.TwoLiteralsUnreadable` | include/time_shield/time_formatting.hpp:435-437 | so a format that begins with two different literals is never read back |
| `LeadingLiterals.LeadingLiteralBeforeYear` | include/time_shield/time_formatting.hpp:435-437 | a format that begins with a literal and the year is read back if and only if the year is at most MAX_YEAR and the literal is `0` or `+` before a year that is not negative or `-` before year 0 |
| `LeadingLiterals.MinusDateMisread` | include/time_shield/time_formatting.hpp:435-437 | `-%Y-%m-%d` of any date after year 0 is parsed as the date of the negated year |
| `FormatTheorem.NegativeIsoDateUnreadable` | include/time_shield/time_formatting.hpp:130-144 | what `%F` prints of a negative year is refused by the parser |
| `FormatTheorem.IsoDateFormats` | include/time_shield/time_formatting.hpp:130-144 | an otherwise readable format with `%F` is read back if and only if the year is between 0 and MAX_YEAR, and refused otherwise |
| `FormatTheorem.SilentDirectives` | include/time_shield/time_formatting.hpp:47-300 | a modelled directive prints nothing exactly if the parser does not know it, but for `%ss` and a repeated `%n` |
| `FormatTheorem.UnknownUnreadable` | include/time_shield/time_format_parser.hpp:460-725 | no text matches a format with a directive the parser does not know |
| `FormatTheorem.DoubleSecondsUnreadable` | include/time_shield/time_format_parser.hpp:460-725 | no text whatever matches a format that holds `%ss`, although it prints seconds |
| `FormatCode.ToString` | include/time_shield/time_formatting.hpp:425-470 | the scanning loop prints the items of the grammar in order |
| `FormatCode.ScanStep` | include/time_shield/time_formatting.hpp:438-465 | each character moves both scanners through the grammar alike |
| `FormatParserCode.FormatParser.MatchLiteral` | include/time_shield/time_format_parser.hpp:121-127 | consumes the expected character or fails |
| `FormatParserCode.FormatParser.ParseExact2Digits` | include/time_shield/time_format_parser.hpp:143-150 | reads exactly two digits |
| `FormatParserCode.FormatParser.ParseUnsignedDigits` | include/time_shield/time_format_parser.hpp:152-172 | reads the longest run of digits up to the maximum, or restores the cursor |
| `FormatParserCode.FormatParser.ParseSignedDigits` | include/time_shield/time_format_parser.hpp:174-193 | the same with a sign |
| `FormatParserCode.FormatParser.ParseTzOffsetToken` | include/time_shield/time_format_parser.hpp:310-327 | reads an offset with an optional colon |
| `FormatParserCode.FormatParser.AssignField` | include/time_shield/time_format_parser.hpp:329-345 | a field read twice must agree |
| `FormatParserCode.FormatParser.ParseFormatToken` | include/time_shield/time_format_parser.hpp:460-725 | one directive is read as the grammar says |
| `FormatParserCode.FormatParser.ParseFormatSequence` | include/time_shield/time_format_parser.hpp:727-777 | the scanning loop reads the items of the grammar in order |
| `FormatParserCode.TryParseFormatTs` | include/time_shield/time_format_parser.hpp:1021-1040 | returns the timestamp of the fields read, or 0 and false |
| `Text.SignedReadsDecimal` | include/time_shield/time_format_parser.hpp:174-193 | a printed number below 10^17 is read back, if no digit follows |
| `Text.Exact2ReadsTwoDigits` | include/time_shield/time_format_parser.hpp:143-150 | a two-digit field is read back whatever follows |
| `Iso8601RoundTrip.PrintedIsRead` | include/time_shield/time_parser.hpp:1016-1181 | the printed text of a valid local date-time with a four-digit year is parsed to the same fields and zone |
| `Iso8601RoundTrip.ShapedDate` | include/time_shield/iso_week_conversions.hpp:163-233 | the week-date attempt never captures a printed calendar date |
| `Iso8601RoundTrip.OtherYearsRefused` | include/time_shield/time_parser.hpp:547-560 | text with a negative year or without exactly four year digits is refused |
| `Iso8601RoundTrip.BackToMs` | include/time_shield/date_time_conversions.hpp:547-560 | every 64-bit count of milliseconds survives the date-time structure, except the 808 lowest, which give `ERROR_TIMESTAMP` |
| `Iso8601RoundTrip.ParseOfIsoText` | include/time_shield/DateTime.hpp:670-686 | parsing the ISO 8601 text of a moment gives the same instant and offset if and only if the local year is 1000..9999 and the offset is a supported one |
| `Iso8601Language.Accepted` | include/time_shield/time_parser.hpp:1016-1181 | every text of the grammar is accepted with its meaning: dates with any separators or as week dates, clocks without seconds or with one to three digits of a fraction, `Z`, `z`, no zone or a signed one, a date alone, blanks around |
| `Iso8601Language.OnlyAccepted` | include/time_shield/time_parser.hpp:1016-1181 | and nothing else is accepted |
| `Iso8601Language.ParseIso8601Exactly` | include/time_shield/time_parser.hpp:1016-1181 | so the parser accepts a text with a meaning if and only if the grammar does |
| `Iso8601Language.TrailingZeros` | include/time_shield/time_parser.hpp:564-591 | zeros at the end of a fraction make no difference |
| `Iso8601Language.LikePrinted` | include/time_shield/time_parser.hpp:1016-1181 | any accepted text of a moment is read like the printed one |
| `Iso8601Language.SignedZoneMeans` | include/time_shield/time_parser.hpp:866-906 | a signed zone is so many hours and minutes ahead of UTC, or behind |
| `Iso8601Language.CalendarMsCounted` | include/time_shield/date_time_conversions.hpp:547-560 | every calendar date-time, with any milliseconds, is counted exactly, or gives `ERROR_TIMESTAMP` where the count does not fit |
| `Iso8601Language.SupportedOffsets` | include/time_shield/time_zone_offset_conversions.hpp:60-65 | the whole minutes from UTC-12:00 to UTC+14:00 |
| `Iso8601Language.LongTextsAreCut` | include/time_shield/time_formatting.hpp:830-862 | a moment is printed whole exactly if its year has at most six characters |
| `Iso8601Language.InstantOfText` | include/time_shield/DateTime.hpp:670-686 | the instant of a text is its local time less its offset |
| `IsoWeekText.WeekTextRead` | include/time_shield/iso_week_conversions.hpp:134-233 | a valid week date is read back from each of the four printed forms; without a weekday it means the Monday |
| `IsoWeekText.FirstWednesday2024` | include/time_shield/iso_week_conversions.hpp:134-153 | the four forms of one date |
| `IsoWeekText.WeekTextFits` | include/time_shield/iso_week_conversions.hpp:134-153 | no printed form is cut off by its buffer |
| `Iso8601ParserCode.ReadIsoWeekDate` | include/time_shield/iso_week_conversions.hpp:163-233 | the cursor loops read a week date as the grammar says |
| `Iso8601ParserCode.ReadTimeZone` | include/time_shield/time_parser.hpp:866-906 | empty text, `Z` or a signed hh:mm up to 23:59 |
| `Iso8601ParserCode.Iso8601Parser.SkipBlanks` | include/time_shield/time_parser.hpp:523-527 | skips exactly the leading white space |
| `Iso8601ParserCode.Iso8601Parser.Parse4DigitsYear` | include/time_shield/time_parser.hpp:547-560 | reads exactly four digits |
| `Iso8601ParserCode.Iso8601Parser.ParseFractionToMs` | include/time_shield/time_parser.hpp:564-591 | reads one to three digits, scaled to milliseconds, and refuses more |
| `Iso8601ParserCode.Iso8601Parser.ReadDate` | include/time_shield/time_parser.hpp:1034-1083 | a week date up to the separator, otherwise a calendar date |
| `Iso8601ParserCode.Iso8601Parser.ReadClock` | include/time_shield/time_parser.hpp:1115-1153 | hours and minutes, optional seconds, a fraction only after seconds |
| `Iso8601ParserCode.Iso8601Parser.ReadTimePart` | include/time_shield/time_parser.hpp:1099-1180 | everything after the date, to the end of the text |
| `Iso8601ParserCode.ReadIso8601` | include/time_shield/time_parser.hpp:1016-1181 | the whole parser accepts exactly the grammar's texts |

## Left out

- Signed 64-bit overflow: signed arithmetic is unbounded here, on the domains where the library's own does not overflow; unsigned wrap-around is modelled. The generation counter of timers never wraps, and digit runs longer than int64 in a week date are read as unbounded numbers.
- Memory model: locked sections, atomic stores and callback starts are atomic steps; memory order, condition waits, thread creation and notification are not modelled. `shared_ptr` and `weak_ptr` lifetimes are not modelled: a timer state lives as long as the model mentions it.
- `TimerScheduler::stop()`, `run()` and the worker's waiting: only the steps that forget orphaned timers are modelled. Waiting on a timer later in the same batch, and liveness in general, are left out.
- `TimerSchedulerModel.TimerScheduler.FinalizeTimer`: callbacks themselves are arbitrary further steps, not code.
- `NtpClientPoolModel.Blend`: smoothing is over real numbers and then truncated, where the library uses `double`.
- `NtpClientPoolModel.NtpClientPool.MeasureN`: clock readings and server answers are parameters; sockets, DNS and the NTP client are not modelled. An estimate from no samples, undefined in the library, is excluded.
- `RobustMedian.NthElement`: any correct selection would do; this one selects the least remaining value repeatedly. Overflow of sums and of three times the deviation is left out.
- `NtpTimeServiceModel.NtpTimeService.Init`: the class shows one thread at a time; interleavings are the subject of `NtpService`. Measurement interval, cached offset and query methods are left out.
- `Legacy.ToDateLegacy`: integral timestamps; the fractional milliseconds of floating-point ones are left out.
- Central time, fixed zones and the millisecond variants of the zone conversions: thin shifts of what is modelled. ISO weeks, workdays and zones in years before 1, on which the weekday formula can fail.
- `Formats.IsModelled`: names of months and weekdays, `%j`, `%s`, 12-hour clock, centuries and two-digit years, ISO week directives, `%Z`, milliseconds, multi-letter years, and directives that print nothing are left out of the two switches.
- `LeadingLiterals.LeadingLiteralBeforeYear`: a single leading literal before a directive other than `%Y` is not characterised.
- `FormatParserCode.FormatParser.ParseFormatToken`: the modelled directives of the switch, as named under `Formats.IsModelled`.
- `day_of_year`, `month_of_year`, `day_of_month`, `start_of_month` and `end_of_year`, which inherit the two calendar exceptions above.
- Floating-point times, Julian dates, OLE dates, Moon phase, CPU ticks, name tables, aliases, `DeadlineTimer`, `ElapsedTimer` and `single_shot`: only easy members, or floating point.
